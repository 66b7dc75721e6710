/**
 * Nonce generation.  `GetNonce` fills a fresh 12-byte array from the
 * system random number generator; `GetNonces` draws one nonce per chunk
 * plus one, retrying a draw that is already in the list.
 *
 * The random number generator is modelled as the finite stream of values
 * it will yield next (`RandomSource.pending`); running out of that stream
 * is an error of the model only.
 *
 * The duplicate check in the source is `List<byte[]>.Contains`, which
 * compares array references.  Each draw is a fresh array, so the check
 * never matches and a repeated value is kept.  `GetNoncesAsWritten`
 * models that; `GetNonces` is the intended check by value, which the rest
 * of the model uses.
 */
module Nonces {
  import opened Wrappers
  import opened Bytes
  import opened ChunkPlan
  import opened Sequences

  type Nonce = s: seq<Byte> | |s| == 12 witness [0, 0, 0, 0, 0, 0, 0, 0, 0, 0, 0, 0]

  /** The values the random number generator will yield next, in order. */
  class RandomSource {
    var pending: seq<Nonce>

    constructor(stream: seq<Nonce>)
      ensures pending == stream
    {
      pending := stream;
    }
  }

  predicate Distinct(s: seq<Nonce>) {
    forall a, b :: 0 <= a < b < |s| ==> s[a] != s[b]
  }

  /** `GetNonce`: a fresh 12-byte array holding the next random value. */
  method GetNonce(rng: RandomSource) returns (r: Option<array<Byte>>)
    modifies rng
    ensures old(rng.pending) == [] ==> r.None? && rng.pending == []
    ensures old(rng.pending) != [] ==>
      && r.Some? && fresh(r.value)
      && r.value[..] == old(rng.pending)[0]
      && rng.pending == old(rng.pending)[1..]
  {
    if rng.pending == [] {
      return None;
    }
    var value := rng.pending[0];
    var nonce := new Byte[12];
    forall i | 0 <= i < 12 {
      nonce[i] := value[i];
    }
    rng.pending := rng.pending[1..];
    return Some(nonce);
  }

  datatype Drawn = Drawn(nonces: seq<Nonce>, rest: seq<Nonce>)

  /**
   * Drawing until `count` nonces are taken, skipping a value already taken:
   * the nonces and what is left of the stream, or None if the stream runs
   * out first.
   */
  function Draw(taken: seq<Nonce>, stream: seq<Nonce>, count: nat): (r: Option<Drawn>)
    requires |taken| <= count
    ensures r.Some? ==> |r.value.nonces| == count && r.value.nonces[..|taken|] == taken
    ensures r.Some? ==> |r.value.rest| <= |stream| && r.value.rest == stream[|stream| - |r.value.rest|..]
    decreases |stream|
  {
    if |taken| == count then Some(Drawn(taken, stream))
    else if stream == [] then None
    else if stream[0] in taken then Draw(taken, stream[1..], count)
    else Draw(taken + [stream[0]], stream[1..], count)
  }

  /** The drawn nonces are pairwise different. */
  lemma {:induction false} DrawDistinct(taken: seq<Nonce>, stream: seq<Nonce>, count: nat)
    requires |taken| <= count && Distinct(taken)
    requires Draw(taken, stream, count).Some?
    ensures Distinct(Draw(taken, stream, count).value.nonces)
    decreases |stream|
  {
    if |taken| < count {
      if stream[0] in taken {
        DrawDistinct(taken, stream[1..], count);
      } else {
        AppendFresh(taken, stream[0]);
        DrawDistinct(taken + [stream[0]], stream[1..], count);
      }
    }
  }

  /** A value not yet taken keeps the taken values pairwise different. */
  lemma AppendFresh(taken: seq<Nonce>, x: Nonce)
    requires Distinct(taken) && x !in taken
    ensures Distinct(taken + [x])
  {
    var next := taken + [x];
    forall a, b | 0 <= a < b < |next|
      ensures next[a] != next[b]
    {
      if b == |taken| {
        assert next[a] == taken[a];
      }
    }
  }

  /** Every nonce drawn beyond those already taken comes from the stream. */
  lemma {:induction false} DrawFromStream(taken: seq<Nonce>, stream: seq<Nonce>, count: nat)
    requires |taken| <= count
    requires Draw(taken, stream, count).Some?
    ensures forall k :: |taken| <= k < count ==> Draw(taken, stream, count).value.nonces[k] in stream
    decreases |stream|
  {
    if |taken| < count {
      var nonces := Draw(taken, stream, count).value.nonces;
      var next := taken + [stream[0]];
      if stream[0] in taken {
        DrawFromStream(taken, stream[1..], count);
        forall k | |taken| <= k < count
          ensures nonces[k] in stream
        {
          InTail(stream, nonces[k]);
        }
      } else {
        DrawFromStream(next, stream[1..], count);
        assert nonces[..|next|] == next;
        forall k | |taken| <= k < count
          ensures nonces[k] in stream
        {
          if k == |taken| {
            assert nonces[k] == nonces[..|next|][k];
          } else {
            InTail(stream, nonces[k]);
          }
        }
      }
    }
  }

  /** From a stream that never repeats a value, the nonces are the stream's first values. */
  lemma {:induction false} DrawFreshStream(taken: seq<Nonce>, stream: seq<Nonce>, count: nat)
    requires |taken| <= count <= |taken| + |stream|
    requires Distinct(taken + stream)
    ensures Draw(taken, stream, count) == Some(Drawn(taken + stream[..count - |taken|], stream[count - |taken|..]))
    decreases |stream|
  {
    if |taken| < count {
      var next := taken + [stream[0]];
      FreshHead(taken, stream);
      assert Draw(taken, stream, count) == Draw(next, stream[1..], count);
      DrawFreshStream(next, stream[1..], count);
      ShiftSlices(taken, stream, count);
    } else {
      assert stream[..0] == [];
      assert taken + [] == taken;
    }
  }

  /** In a stream that never repeats, the first value is not among the earlier ones. */
  lemma FreshHead(taken: seq<Nonce>, stream: seq<Nonce>)
    requires stream != [] && Distinct(taken + stream)
    ensures stream[0] !in taken
    ensures Distinct((taken + [stream[0]]) + stream[1..])
  {
    var all := taken + stream;
    forall a | 0 <= a < |taken|
      ensures taken[a] != stream[0]
    {
      assert all[a] == taken[a] && all[|taken|] == stream[0];
    }
    assert (taken + [stream[0]]) + stream[1..] == all;
  }

  /** Moving the first value of the stream to the taken ones leaves the same slices. */
  lemma ShiftSlices(taken: seq<Nonce>, stream: seq<Nonce>, count: nat)
    requires |taken| < count <= |taken| + |stream|
    ensures var next := taken + [stream[0]];
      && next + stream[1..][..count - |next|] == taken + stream[..count - |taken|]
      && stream[1..][count - |next|..] == stream[count - |taken|..]
  {
    var next := taken + [stream[0]];
    assert stream[..count - |taken|] == [stream[0]] + stream[1..][..count - |next|];
    assert next + stream[1..][..count - |next|] == taken + ([stream[0]] + stream[1..][..count - |next|]);
  }

  /** How many nonces `GetNonces` draws for a file of `dataLength` bytes. */
  function NoncesFor(dataLength: nat): nat {
    NonceCount(dataLength, MaxValue)
  }

  /**
   * `GetNonces` with the duplicate check by value: one nonce per `MaxValue`
   * bytes plus one, each draw retried while it repeats an earlier nonce.
   */
  method GetNonces(rng: RandomSource, dataLength: nat) returns (r: Option<seq<Nonce>>)
    modifies rng
    ensures Draw([], old(rng.pending), NoncesFor(dataLength)).None? ==> r.None?
    ensures r.None? ==> Draw([], old(rng.pending), NoncesFor(dataLength)).None? && rng.pending == []
    ensures r.Some? ==> Draw([], old(rng.pending), NoncesFor(dataLength)) == Some(Drawn(r.value, rng.pending))
  {
    ghost var count := NoncesFor(dataLength);
    var nonces: seq<Nonce> := [];
    var nonceCount := dataLength / MaxValue;
    var i := 0;
    while i <= nonceCount
      invariant 0 <= i <= nonceCount + 1 == count
      invariant |nonces| == i
      invariant Draw([], old(rng.pending), count) == Draw(nonces, rng.pending, count)
    {
      var added := false;
      while !added
        invariant |nonces| == i + (if added then 1 else 0)
        invariant Draw([], old(rng.pending), count) == Draw(nonces, rng.pending, count)
        decreases |rng.pending|, if added then 0 else 1
      {
        var nonce := GetNonce(rng);
        if nonce.None? {
          return None;
        }
        var value: Nonce := nonce.value[..];
        if value !in nonces {
          nonces := nonces + [value];
          added := true;
        }
      }
      i := i + 1;
    }
    return Some(nonces);
  }

  /**
   * What `GetNonces` as written yields: every draw is kept, because the
   * reference comparison never finds a fresh array in the list.
   */
  function DrawByReference(stream: seq<Nonce>, count: nat): (r: Option<seq<Nonce>>)
    ensures r.Some? <==> count <= |stream|
    ensures r.Some? ==> r.value == stream[..count]
  {
    if count <= |stream| then Some(stream[..count]) else None
  }

  /**
   * `GetNonces` as written: the duplicate check compares array references,
   * so each fresh draw is accepted at once.
   */
  method GetNoncesAsWritten(rng: RandomSource, dataLength: nat) returns (r: Option<seq<array<Byte>>>)
    modifies rng
    ensures r.None? <==> DrawByReference(old(rng.pending), NoncesFor(dataLength)).None?
    ensures r.Some? ==>
      && |r.value| == NoncesFor(dataLength)
      && (forall k :: 0 <= k < |r.value| ==> fresh(r.value[k]))
      && (forall k :: 0 <= k < |r.value| ==> r.value[k][..] == DrawByReference(old(rng.pending), NoncesFor(dataLength)).value[k])
  {
    ghost var stream := rng.pending;
    var nonces: seq<array<Byte>> := [];
    var nonceCount := dataLength / MaxValue;
    var i := 0;
    while i <= nonceCount
      invariant 0 <= i <= nonceCount + 1
      invariant |nonces| == i <= |stream|
      invariant rng.pending == stream[i..]
      invariant forall k :: 0 <= k < i ==> fresh(nonces[k]) && nonces[k][..] == stream[k]
    {
      var added := false;
      while !added
        invariant |nonces| == i + (if added then 1 else 0) <= |stream|
        invariant rng.pending == stream[|nonces|..]
        invariant forall k :: 0 <= k < |nonces| ==> fresh(nonces[k]) && nonces[k][..] == stream[k]
        decreases |rng.pending|, if added then 0 else 1
      {
        var nonce := GetNonce(rng);
        if nonce.None? {
          return None;
        }
        if nonce.value !in nonces {
          nonces := nonces + [nonce.value];
          added := true;
        }
      }
      i := i + 1;
    }
    return Some(nonces);
  }

  /**
   * A file of `MaxValue + 1` bytes needs two nonces and is cut into two
   * chunks, which use nonce 1 and nonce 2.  From a stream that yields the
   * same value twice, the reference check keeps both copies, so both
   * chunks are sealed under the same nonce; the check by value skips the
   * repeat.
   */
  lemma RepeatedDrawIsKept()
    ensures var z: Nonce := [0, 0, 0, 0, 0, 0, 0, 0, 0, 0, 0, 0];
            var o: Nonce := [1, 0, 0, 0, 0, 0, 0, 0, 0, 0, 0, 0];
            && NoncesFor(MaxValue + 1) == 2
            && Plan(MaxValue + 1, MaxValue, 2) == [Chunk(1, 0, MaxValue), Chunk(2, MaxValue, 1)]
            && DrawByReference([z, z, o], NoncesFor(MaxValue + 1)) == Some([z, z])
            && !Distinct([z, z])
            && Draw([], [z, z, o], NoncesFor(MaxValue + 1)) == Some(Drawn([z, o], []))
  {
    var z: Nonce := [0, 0, 0, 0, 0, 0, 0, 0, 0, 0, 0, 0];
    var o: Nonce := [1, 0, 0, 0, 0, 0, 0, 0, 0, 0, 0, 0];
    assert z != o by { assert z[0] != o[0]; }
    assert NoncesFor(MaxValue + 1) == 2;
    TwoChunks(MaxValue);
    assert [z, z, o][..2] == [z, z];
    assert [z, z, o][1..] == [z, o] && [z, o][1..] == [o] && [o][1..] == [];
    assert [] + [z] == [z] && [z] + [o] == [z, o];
    assert Draw([z, o], [], 2) == Some(Drawn([z, o], []));
    assert Draw([z], [o], 2) == Some(Drawn([z, o], []));
    assert Draw([z], [z, o], 2) == Some(Drawn([z, o], []));
    assert Draw([], [z, z, o], 2) == Some(Drawn([z, o], []));
    assert [z, z][0] == [z, z][1];
    assert DrawByReference([z, z, o], 2) == Some([z, z]);
  }
}
