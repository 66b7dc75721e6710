/**
 * Chunk boundaries.  `EncryptFile` and `DecryptFile` walk a file of
 * length L with a byte counter and a 1-based chunk counter; each chunk is
 * `MaxValue` bytes, except the chunk whose number equals the length of
 * the nonce (or key-note) list, which takes all the bytes that are left.
 * `PlanFrom` is that loop as a function; `Split` is the ideal chunking
 * (whole chunks of M bytes and one final remainder), and the lemmas show
 * when the two coincide.
 */
module ChunkPlan {

  /** The chunk size of the library (one thousand million bytes). */
  const MaxValue: nat := 1000000000

  /** One chunk: its 1-based number, where it starts and how many bytes it holds. */
  datatype Chunk = Chunk(order: nat, offset: nat, length: nat)

  /**
   * The chunks the loop visits from byte `processed` and chunk number
   * `order` on, when the list it draws nonces (or notes) from has `n`
   * entries and the file has `L` bytes.
   */
  function PlanFrom(L: nat, M: nat, n: nat, processed: nat, order: nat): seq<Chunk>
    requires M > 0
    decreases L - processed
  {
    if processed >= L then []
    else
      var length := if order == n then L - processed else M;
      [Chunk(order, processed, length)] + PlanFrom(L, M, n, processed + length, order + 1)
  }

  /** The chunks of a whole file: the loop starts at byte 0 with chunk 1. */
  function Plan(L: nat, M: nat, n: nat): seq<Chunk>
    requires M > 0
  {
    PlanFrom(L, M, n, 0, 1)
  }

  /** The number of nonces `GetNonces` draws: `dataLength / MaxValue` rounded down, plus one. */
  function NonceCount(L: nat, M: nat): nat
    requires M > 0
  {
    L / M + 1
  }

  /** ceil(x / M): the number of chunks of at most M bytes that x bytes need. */
  function CeilDiv(x: nat, M: nat): nat
    requires M > 0
  {
    (x + M - 1) / M
  }

  /** Ideal chunking: M bytes per chunk while more than M bytes remain, then the rest. */
  function Split(L: nat, M: nat, processed: nat, order: nat): seq<Chunk>
    requires M > 0
    decreases L - processed
  {
    if processed >= L then []
    else
      var length := if L - processed <= M then L - processed else M;
      [Chunk(order, processed, length)] + Split(L, M, processed + length, order + 1)
  }

  function SumLengths(plan: seq<Chunk>): nat {
    if plan == [] then 0 else plan[0].length + SumLengths(plan[1..])
  }

  // ---------------------------------------------------------------- division

  lemma {:induction false} MulAtLeast(k: nat, M: nat)
    requires k >= 1
    ensures k * M >= M
  {
    if k > 1 {
      MulAtLeast(k - 1, M);
      assert k * M == (k - 1) * M + M;
    }
  }

  lemma DivUnique(a: int, M: int, q: int, r: int)
    requires M > 0 && 0 <= r < M && a == q * M + r
    ensures a / M == q
  {
    var q', r' := a / M, a % M;
    assert a == q' * M + r';
    if q' < q {
      assert (q - q') * M == q * M - q' * M;
      MulAtLeast(q - q', M);
    } else if q' > q {
      assert (q' - q) * M == q' * M - q * M;
      MulAtLeast(q' - q, M);
    }
  }

  lemma DivStep(x: nat, M: nat)
    requires M > 0 && x >= M
    ensures x / M == (x - M) / M + 1
  {
    var q, r := (x - M) / M, (x - M) % M;
    assert x - M == q * M + r;
    assert x == (q + 1) * M + r;
    DivUnique(x, M, q + 1, r);
  }

  lemma DivSmall(x: nat, M: nat)
    requires M > 0 && x < M
    ensures x / M == 0
  {
    DivUnique(x, M, 0, x);
  }

  /** One chunk fewer is needed once M bytes are taken off a file longer than M. */
  lemma CeilDivStep(x: nat, M: nat)
    requires M > 0 && x > M
    ensures CeilDiv(x, M) == CeilDiv(x - M, M) + 1
  {
    DivStep(x + M - 1, M);
  }

  lemma CeilDivOne(x: nat, M: nat)
    requires M > 0 && 0 < x <= M
    ensures CeilDiv(x, M) == 1
  {
    DivStep(x + M - 1, M);
    DivSmall(x - 1, M);
  }

  // ------------------------------------------------------------ the plans

  /**
   * With `n == order + (L - processed) / M` (the count `GetNonces` draws,
   * seen from chunk `order`), the loop's boundaries are the ideal ones: a
   * file whose length is a multiple of M never reaches chunk number n.
   */
  lemma {:induction false} NoncePlanIsSplit(L: nat, M: nat, n: nat, processed: nat, order: nat)
    requires M > 0 && processed <= L
    requires n == order + (L - processed) / M
    ensures PlanFrom(L, M, n, processed, order) == Split(L, M, processed, order)
    decreases L - processed
  {
    if processed < L {
      var x := L - processed;
      if x < M {
        DivSmall(x, M);
      } else if x == M {
        DivStep(x, M);
        DivSmall(0, M);
      } else {
        DivStep(x, M);
        NoncePlanIsSplit(L, M, n, processed + M, order + 1);
      }
    }
  }

  /**
   * With `n` equal to the number of ideal chunks still to come (counted
   * from chunk `order`), the loop's boundaries are the ideal ones.
   */
  lemma {:induction false} ChunkCountPlanIsSplit(L: nat, M: nat, n: nat, processed: nat, order: nat)
    requires M > 0 && processed < L
    requires n + 1 == order + CeilDiv(L - processed, M)
    ensures PlanFrom(L, M, n, processed, order) == Split(L, M, processed, order)
    decreases L - processed
  {
    var x := L - processed;
    if x <= M {
      CeilDivOne(x, M);
    } else {
      CeilDivStep(x, M);
      ChunkCountPlanIsSplit(L, M, n, processed + M, order + 1);
    }
  }

  /**
   * The ideal chunks from byte `processed` on: ceil((L - processed) / M) of
   * them, numbered consecutively, each of 1..M bytes, all but the last of
   * exactly M bytes, adding up to the bytes that remain.
   */
  lemma {:induction false} SplitShape(L: nat, M: nat, processed: nat, order: nat)
    requires M > 0 && processed <= L
    ensures var s := Split(L, M, processed, order);
      && |s| == CeilDiv(L - processed, M)
      && (forall k :: 0 <= k < |s| ==> s[k].order == order + k)
      && (forall k :: 0 <= k < |s| ==> 1 <= s[k].length <= M)
      && (forall k :: 0 <= k < |s| - 1 ==> s[k].length == M)
      && processed + SumLengths(s) == L
    decreases L - processed
  {
    var x := L - processed;
    if x == 0 {
      DivSmall(M - 1, M);
    } else if x <= M {
      CeilDivOne(x, M);
    } else {
      CeilDivStep(x, M);
      SplitShape(L, M, processed + M, order + 1);
    }
  }

  /** Chunk k starts where the chunks before it end. */
  lemma {:induction false} SplitOffsets(L: nat, M: nat, processed: nat, order: nat)
    requires M > 0
    ensures forall k :: 0 <= k < |Split(L, M, processed, order)| ==>
      Split(L, M, processed, order)[k].offset == processed + SumLengths(Split(L, M, processed, order)[..k])
    decreases L - processed
  {
    var s := Split(L, M, processed, order);
    if processed < L {
      var t := Split(L, M, processed + s[0].length, order + 1);
      SplitOffsets(L, M, processed + s[0].length, order + 1);
      assert s == [s[0]] + t;
      forall k | 0 <= k < |s|
        ensures s[k].offset == processed + SumLengths(s[..k])
      {
        if k == 0 {
          assert s[..k] == [];
        } else {
          assert s[k] == t[k - 1];
          assert t[k - 1].offset == processed + s[0].length + SumLengths(t[..k - 1]);
          assert s[..k][0] == s[0] && s[..k][1..] == t[..k - 1];
          assert SumLengths(s[..k]) == s[0].length + SumLengths(t[..k - 1]);
        }
      }
    }
  }

  /** From byte 0, chunk k (counting from 0) starts at k * M. */
  lemma {:induction false} SplitOffsetsFromZero(L: nat, M: nat, processed: nat, order: nat)
    requires M > 0
    ensures forall k :: 0 <= k < |Split(L, M, processed, order)| ==>
      Split(L, M, processed, order)[k].offset == processed + k * M
    decreases L - processed
  {
    var s := Split(L, M, processed, order);
    if processed < L {
      var t := Split(L, M, processed + s[0].length, order + 1);
      SplitOffsetsFromZero(L, M, processed + s[0].length, order + 1);
      assert s == [s[0]] + t;
      forall k | 0 <= k < |s|
        ensures s[k].offset == processed + k * M
      {
        if k > 0 {
          assert s[k] == t[k - 1];
          assert t[k - 1].offset == processed + s[0].length + (k - 1) * M;
          assert processed + s[0].length < L;
          assert s[0].length == M;
          assert processed + M + (k - 1) * M == processed + k * M;
        }
      }
    }
  }

  /**
   * Whatever the list length `n >= order`, the loop only visits chunk
   * numbers `order..n`, consecutively: the chunk numbered n takes every
   * remaining byte, so the loop never asks for entry n + 1.
   */
  lemma {:induction false} PlanOrdersInRange(L: nat, M: nat, n: nat, processed: nat, order: nat)
    requires M > 0 && 1 <= order <= n
    ensures forall k :: 0 <= k < |PlanFrom(L, M, n, processed, order)| ==>
      PlanFrom(L, M, n, processed, order)[k].order == order + k <= n
  {
    forall k | 0 <= k < |PlanFrom(L, M, n, processed, order)|
      ensures PlanFrom(L, M, n, processed, order)[k].order == order + k <= n
    {
      PlanOrderAt(L, M, n, processed, order, k);
    }
  }

  /** The chunk at position k of the loop's plan is numbered order + k, at most n. */
  lemma {:induction false} PlanOrderAt(L: nat, M: nat, n: nat, processed: nat, order: nat, k: nat)
    requires M > 0 && 1 <= order <= n
    requires k < |PlanFrom(L, M, n, processed, order)|
    ensures PlanFrom(L, M, n, processed, order)[k].order == order + k <= n
    decreases k
  {
    var s := PlanFrom(L, M, n, processed, order);
    var length := if order == n then L - processed else M;
    var t := PlanFrom(L, M, n, processed + length, order + 1);
    assert s == [Chunk(order, processed, length)] + t;
    if order < n {
      if k > 0 {
        PlanOrderAt(L, M, n, processed + M, order + 1, k - 1);
        assert s[k] == t[k - 1];
      }
    } else {
      assert t == [];
    }
  }

  /** A file one byte longer than M, with two list entries, is cut into a full chunk and a one-byte chunk. */
  lemma TwoChunks(M: nat)
    requires M > 0
    ensures Plan(M + 1, M, 2) == [Chunk(1, 0, M), Chunk(2, M, 1)]
  {
    assert PlanFrom(M + 1, M, 2, M + 1, 3) == [];
    assert PlanFrom(M + 1, M, 2, M, 2) == [Chunk(2, M, 1)];
  }

  /**
   * Encryption: a file of L >= 1 bytes is cut into ceil(L / M) chunks, the
   * nonce count floor(L / M) + 1 is at least that, chunk k (from 0) starts
   * at k * M, which is the sum of the lengths before it, and the lengths
   * add up to L.
   */
  lemma EncryptionChunks(L: nat, M: nat)
    requires M > 0 && L >= 1
    ensures var s := Plan(L, M, NonceCount(L, M));
      && s == Split(L, M, 0, 1)
      && |s| == CeilDiv(L, M) <= NonceCount(L, M)
      && NonceCount(L, M) == |s| + (if L % M == 0 then 1 else 0)
      && (forall k :: 0 <= k < |s| ==> s[k].order == k + 1)
      && (forall k :: 0 <= k < |s| ==> 1 <= s[k].length <= M)
      && (forall k :: 0 <= k < |s| - 1 ==> s[k].length == M)
      && (forall k :: 0 <= k < |s| ==> s[k].offset == k * M == SumLengths(s[..k]))
      && SumLengths(s) == L
  {
    NoncePlanIsSplit(L, M, NonceCount(L, M), 0, 1);
    SplitShape(L, M, 0, 1);
    SplitOffsets(L, M, 0, 1);
    SplitOffsetsFromZero(L, M, 0, 1);
    CeilDivVsNonceCount(L, M);
  }

  lemma CeilDivVsNonceCount(L: nat, M: nat)
    requires M > 0
    ensures NonceCount(L, M) == CeilDiv(L, M) + (if L % M == 0 then 1 else 0)
  {
    var q, r := L / M, L % M;
    assert L == q * M + r;
    if r == 0 {
      assert L + M - 1 == q * M + (M - 1);
      DivUnique(L + M - 1, M, q, M - 1);
    } else {
      assert L + M - 1 == (q + 1) * M + (r - 1);
      DivUnique(L + M - 1, M, q + 1, r - 1);
    }
  }

  /**
   * Decryption rebuilds the boundaries from the length of the key-note list
   * and the cipher-text length: given as many notes as encryption produced
   * chunks and a cipher-text as long as the plain-text, it visits exactly
   * the chunks encryption visited.
   */
  lemma DecryptionChunks(L: nat, M: nat)
    requires M > 0 && L >= 1
    ensures Plan(L, M, |Plan(L, M, NonceCount(L, M))|) == Plan(L, M, NonceCount(L, M))
  {
    EncryptionChunks(L, M);
    ChunkCountPlanIsSplit(L, M, CeilDiv(L, M), 0, 1);
  }

  // ---------------------------------------------------------------- layout

  /** Each chunk starts where the previous one ends, the first at `start`. */
  predicate ContiguousFrom(plan: seq<Chunk>, start: nat) {
    plan == [] || (plan[0].offset == start && ContiguousFrom(plan[1..], start + plan[0].length))
  }

  /** The chunks are numbered consecutively from `order`. */
  predicate Numbered(plan: seq<Chunk>, order: nat) {
    plan == [] || (plan[0].order == order && Numbered(plan[1..], order + 1))
  }

  /** What is left of a contiguous, consecutively numbered plan after its first chunk. */
  lemma LayoutTail(plan: seq<Chunk>, order: nat, start: nat)
    requires plan != [] && Numbered(plan, order) && ContiguousFrom(plan, start)
    ensures Numbered(plan[1..], order + 1) && ContiguousFrom(plan[1..], start + plan[0].length)
  {
  }

  /** Whatever the list length, the loop visits contiguous, consecutively numbered chunks. */
  lemma {:induction false} PlanFromLayout(L: nat, M: nat, n: nat, processed: nat, order: nat)
    requires M > 0
    ensures ContiguousFrom(PlanFrom(L, M, n, processed, order), processed)
    ensures Numbered(PlanFrom(L, M, n, processed, order), order)
    decreases L - processed
  {
    if processed < L {
      var s := PlanFrom(L, M, n, processed, order);
      var length := if order == n then L - processed else M;
      PlanFromLayout(L, M, n, processed + length, order + 1);
      assert s[1..] == PlanFrom(L, M, n, processed + length, order + 1);
    }
  }
}
