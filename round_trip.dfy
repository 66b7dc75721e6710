/**
 * The protocol end to end: what `Encrypt` writes, `Decrypt` turns back
 * into the plain-text.  Encryption seals the chunks of the plain-text file
 * one after the other, so the cipher-text file is their cipher-texts laid
 * end to end; the key file records one note per chunk, numbered from 1,
 * with pairwise different nonces; decryption rebuilds the same chunk
 * boundaries from the cipher-text length and the number of notes, opens
 * every chunk and lays the plain-texts end to end again.
 */
module RoundTrip {
  import opened Wrappers
  import opened Base64
  import opened Bytes
  import opened Aead
  import opened ChunkPlan
  import opened Files
  import opened KeyNotes
  import opened KeyFile
  import opened Nonces
  import opened FileEncryption
  import opened Sequences

  /** The bytes of chunk `ch` of `P`, as read into the zeroed buffer. */
  function Piece(P: seq<Byte>, ch: Chunk): (r: seq<Byte>)
    ensures |r| == ch.length
  {
    ReadAt(P, ch.offset, ch.length)
  }

  /** The chunks of `plan` cut out of `P`. */
  function Pieces(P: seq<Byte>, plan: seq<Chunk>): (r: seq<seq<Byte>>)
    ensures |r| == |plan|
  {
    seq(|plan|, k requires 0 <= k < |plan| => Piece(P, plan[k]))
  }

  /** Each chunk of `plan` of `P` sealed with the nonce its number picks. */
  function SealedPieces(aead: Cipher, key: seq<Byte>, nonces: seq<Nonce>, P: seq<Byte>, plan: seq<Chunk>): (r: seq<Sealed>)
    requires OrdersWithin(plan, |nonces|)
    ensures |r| == |plan|
  {
    seq(|plan|, k requires 0 <= k < |plan| => aead.seal(key, nonces[plan[k].order - 1], Piece(P, plan[k])))
  }

  function Ciphertexts(s: seq<Sealed>): (r: seq<seq<Byte>>)
    ensures |r| == |s|
  {
    seq(|s|, k requires 0 <= k < |s| => s[k].ciphertext)
  }

  /** The note `EncryptFileChunk` records for each sealed chunk. */
  function NotesOf(nonces: seq<Nonce>, s: seq<Sealed>, plan: seq<Chunk>): (r: seq<DecryptionKeyNote>)
    requires OrdersWithin(plan, |nonces|) && |s| == |plan|
    ensures |r| == |plan|
  {
    seq(|plan|, k requires 0 <= k < |plan| => KeyNotes.FromBytes(nonces[plan[k].order - 1], s[k].tag, plan[k].order))
  }

  /** The cipher-texts of the chunks of `plan` of `P`, laid end to end. */
  function SealedText(aead: Cipher, key: seq<Byte>, nonces: seq<Nonce>, P: seq<Byte>, plan: seq<Chunk>): seq<Byte>
    requires OrdersWithin(plan, |nonces|)
  {
    if plan == [] then []
    else
      OrdersWithinTail(plan, |nonces|);
      aead.seal(key, nonces[plan[0].order - 1], Piece(P, plan[0])).ciphertext + SealedText(aead, key, nonces, P, plan[1..])
  }

  /** Sealing each chunk of `plan` of `P` gives a cipher-text as long as the chunk. */
  ghost predicate SealsKeepLengths(aead: Cipher, key: seq<Byte>, nonces: seq<Nonce>, P: seq<Byte>, plan: seq<Chunk>)
    requires OrdersWithin(plan, |nonces|)
  {
    forall k :: 0 <= k < |plan| ==> |aead.seal(key, nonces[plan[k].order - 1], Piece(P, plan[k])).ciphertext| == plan[k].length
  }

  /** The text is the cipher-texts of the sealed chunks laid end to end. */
  lemma {:induction false} SealedTextFlattens(aead: Cipher, key: seq<Byte>, nonces: seq<Nonce>, P: seq<Byte>, plan: seq<Chunk>)
    requires OrdersWithin(plan, |nonces|)
    ensures SealedText(aead, key, nonces, P, plan) == Flatten(Ciphertexts(SealedPieces(aead, key, nonces, P, plan)))
    decreases |plan|
  {
    if plan != [] {
      SealedFileTail(aead, key, nonces, P, plan);
      SealedTextFlattens(aead, key, nonces, P, plan[1..]);
    }
  }

  // ------------------------------------------------------------ sequences

  lemma OrdersWithinTail(plan: seq<Chunk>, n: nat)
    requires plan != [] && OrdersWithin(plan, n)
    ensures OrdersWithin(plan[1..], n) && 1 <= plan[0].order <= n
  {
    forall k | 0 <= k < |plan[1..]| ensures 1 <= plan[1..][k].order <= n {
      assert plan[1..][k] == plan[k + 1];
    }
  }

  /** Sealing the chunks after the first is the rest of sealing them all. */
  lemma SealedPiecesTail(aead: Cipher, key: seq<Byte>, nonces: seq<Nonce>, P: seq<Byte>, plan: seq<Chunk>)
    requires plan != [] && OrdersWithin(plan, |nonces|)
    ensures OrdersWithin(plan[1..], |nonces|)
    ensures SealedPieces(aead, key, nonces, P, plan)
      == [aead.seal(key, nonces[plan[0].order - 1], Piece(P, plan[0]))] + SealedPieces(aead, key, nonces, P, plan[1..])
  {
    OrdersWithinTail(plan, |nonces|);
    var s := SealedPieces(aead, key, nonces, P, plan);
    var t := SealedPieces(aead, key, nonces, P, plan[1..]);
    forall k | 0 <= k < |t| ensures t[k] == s[k + 1] {
      assert plan[1..][k] == plan[k + 1];
    }
    Cons(s, aead.seal(key, nonces[plan[0].order - 1], Piece(P, plan[0])), t);
  }

  lemma NotesOfTail(nonces: seq<Nonce>, s: seq<Sealed>, plan: seq<Chunk>)
    requires plan != [] && OrdersWithin(plan, |nonces|) && |s| == |plan|
    ensures OrdersWithin(plan[1..], |nonces|)
    ensures NotesOf(nonces, s, plan)
      == [KeyNotes.FromBytes(nonces[plan[0].order - 1], s[0].tag, plan[0].order)] + NotesOf(nonces, s[1..], plan[1..])
  {
    OrdersWithinTail(plan, |nonces|);
    var r := NotesOf(nonces, s, plan);
    NotesOfRest(nonces, s, plan);
    assert r == [r[0]] + r[1..];
  }

  /** The notes after the first are the notes of the rest of the plan. */
  lemma NotesOfRest(nonces: seq<Nonce>, s: seq<Sealed>, plan: seq<Chunk>)
    requires plan != [] && OrdersWithin(plan, |nonces|) && |s| == |plan|
    requires OrdersWithin(plan[1..], |nonces|)
    ensures NotesOf(nonces, s, plan)[1..] == NotesOf(nonces, s[1..], plan[1..])
  {
    var r := NotesOf(nonces, s, plan)[1..];
    var t := NotesOf(nonces, s[1..], plan[1..]);
    forall k | 0 <= k < |t| ensures t[k] == r[k] {
      assert plan[1..][k] == plan[k + 1] && s[1..][k] == s[k + 1];
    }
  }

  lemma CiphertextsTail(s: seq<Sealed>)
    requires s != []
    ensures Flatten(Ciphertexts(s)) == s[0].ciphertext + Flatten(Ciphertexts(s[1..]))
  {
    assert Ciphertexts(s)[1..] == Ciphertexts(s[1..]);
  }

  lemma {:induction false} FlattenLength(chunks: seq<seq<Byte>>, plan: seq<Chunk>)
    requires |chunks| == |plan|
    requires forall k :: 0 <= k < |plan| ==> |chunks[k]| == plan[k].length
    ensures |Flatten(chunks)| == SumLengths(plan)
  {
    if chunks != [] {
      FlattenLength(chunks[1..], plan[1..]);
    }
  }

  /** The chunks of a contiguous plan that covers `P` from `start` on, laid end to end, are the rest of `P`. */
  lemma {:induction false} PiecesCover(P: seq<Byte>, plan: seq<Chunk>, start: nat)
    requires ContiguousFrom(plan, start) && start + SumLengths(plan) == |P|
    ensures Flatten(Pieces(P, plan)) == P[start..]
  {
    if plan != [] {
      var ch := plan[0];
      PiecesCover(P, plan[1..], start + ch.length);
      assert Pieces(P, plan)[1..] == Pieces(P, plan[1..]);
      ReadAtContents(P, start, ch.length);
      assert P[start..] == P[start..start + ch.length] + P[start + ch.length..];
    } else {
      assert P[start..] == [];
    }
  }

  /** A read of as many bytes as `x` holds, where `x` starts, gives `x`. */
  lemma ReadAtMiddle(a: seq<Byte>, x: seq<Byte>, b: seq<Byte>)
    ensures ReadAt(a + x + b, |a|, |x|) == x
  {
    ReadAtContents(a + x + b, |a|, |x|);
    assert (a + x + b)[|a|..|a| + |x|] == x;
  }

  // ------------------------------------------------------------ encryption

  /**
   * Sealing chunks of `p` into a different file `c` records one note per
   * chunk, after the notes already written, carrying its nonce, its tag
   * and its number.
   */
  lemma {:induction false} SealedNotes(files: FileMap, aead: Cipher, key: seq<Byte>, nonces: seq<Nonce>,
                                       done: seq<DecryptionKeyNote>, plan: seq<Chunk>, p: Path, c: Path)
    requires p != c && p in files
    requires OrdersWithin(plan, |nonces|)
    requires |plan| > 0 && plan[0].order != 1 ==> c in files
    ensures SealChunks(files, aead, key, nonces, done, plan, p, c).notes
      == done + NotesOf(nonces, SealedPieces(aead, key, nonces, files[p], plan), plan)
    decreases |plan|
  {
    if plan == [] {
      assert NotesOf(nonces, SealedPieces(aead, key, nonces, files[p], plan), plan) == [];
    } else {
      var step := SealStep(files, aead, key, nonces[plan[0].order - 1], plan[0], p, c);
      SealedNotesTail(aead, key, nonces, files[p], plan);
      assert SealChunks(files, aead, key, nonces, done, plan, p, c)
        == SealChunks(step.files, aead, key, nonces, done + [step.note], plan[1..], p, c);
      assert step.files[p] == files[p];
      SealedNotes(step.files, aead, key, nonces, done + [step.note], plan[1..], p, c);
      Associative(done, [step.note], NotesOf(nonces, SealedPieces(aead, key, nonces, files[p], plan[1..]), plan[1..]));
    }
  }

  lemma SealedNotesTail(aead: Cipher, key: seq<Byte>, nonces: seq<Nonce>, P: seq<Byte>, plan: seq<Chunk>)
    requires plan != [] && OrdersWithin(plan, |nonces|)
    ensures OrdersWithin(plan[1..], |nonces|)
    ensures var nonce := nonces[plan[0].order - 1];
      NotesOf(nonces, SealedPieces(aead, key, nonces, P, plan), plan)
        == [KeyNotes.FromBytes(nonce, aead.seal(key, nonce, Piece(P, plan[0])).tag, plan[0].order)]
           + NotesOf(nonces, SealedPieces(aead, key, nonces, P, plan[1..]), plan[1..])
  {
    SealedPiecesTail(aead, key, nonces, P, plan);
    NotesOfTail(nonces, SealedPieces(aead, key, nonces, P, plan), plan);
  }

  /**
   * The first chunk of a plan, written where `c` currently ends (`base`, or
   * nothing when it is chunk 1, which creates `c`), appends its cipher-text;
   * the rest of the plan then starts where the new `c` ends.
   */
  lemma SealChunksFirst(files: FileMap, aead: Cipher, key: seq<Byte>, nonces: seq<Nonce>, done: seq<DecryptionKeyNote>,
                        plan: seq<Chunk>, p: Path, c: Path, base: seq<Byte>, order: nat)
    requires p != c && p in files
    requires OrdersWithin(plan, |nonces|) && plan != []
    requires SealsKeepLengths(aead, key, nonces, files[p], plan)
    requires Numbered(plan, order) && ContiguousFrom(plan, |base|)
    requires order == 1 ==> base == []
    requires order != 1 ==> c in files && files[c] == base
    ensures OrdersWithin(plan[1..], |nonces|) && SealsKeepLengths(aead, key, nonces, files[p], plan[1..])
    ensures var nonce := nonces[plan[0].order - 1];
      var step := SealStep(files, aead, key, nonce, plan[0], p, c);
      var sealed := aead.seal(key, nonce, Piece(files[p], plan[0]));
      && c in step.files && step.files[c] == base + sealed.ciphertext
      && p in step.files && step.files[p] == files[p]
      && Numbered(plan[1..], order + 1) && ContiguousFrom(plan[1..], |step.files[c]|)
      && SealChunks(files, aead, key, nonces, done, plan, p, c)
         == SealChunks(step.files, aead, key, nonces, done + [step.note], plan[1..], p, c)
      && SealedText(aead, key, nonces, files[p], plan) == sealed.ciphertext + SealedText(aead, key, nonces, files[p], plan[1..])
  {
    var nonce := nonces[plan[0].order - 1];
    var sealed := aead.seal(key, nonce, Piece(files[p], plan[0]));
    OrdersWithinTail(plan, |nonces|);
    LayoutTail(plan, order, |base|);
    WriteAtEnd(base, sealed.ciphertext);
    assert |sealed.ciphertext| == plan[0].length;
    forall k | 0 <= k < |plan[1..]|
      ensures |aead.seal(key, nonces[plan[1..][k].order - 1], Piece(files[p], plan[1..][k])).ciphertext| == plan[1..][k].length
    {
      assert plan[1..][k] == plan[k + 1];
    }
  }

  /**
   * Sealing a contiguous run of chunks other than chunk 1 of `p` into a
   * different, existing file `c`, starting where `c` ends, appends their
   * cipher-texts to `c`.
   */
  lemma {:induction false} SealedFileAppends(files: FileMap, aead: Cipher, key: seq<Byte>, nonces: seq<Nonce>,
                                             done: seq<DecryptionKeyNote>, plan: seq<Chunk>, p: Path, c: Path, order: nat)
    requires p != c && p in files && c in files
    requires OrdersWithin(plan, |nonces|) && SealsKeepLengths(aead, key, nonces, files[p], plan)
    requires Numbered(plan, order) && order >= 2 && ContiguousFrom(plan, |files[c]|)
    ensures SealChunks(files, aead, key, nonces, done, plan, p, c).files[c]
      == files[c] + SealedText(aead, key, nonces, files[p], plan)
    decreases |plan|
  {
    if plan == [] {
      assert files[c] + [] == files[c];
    } else {
      var nonce := nonces[plan[0].order - 1];
      var sealed := aead.seal(key, nonce, Piece(files[p], plan[0]));
      var step := SealStep(files, aead, key, nonce, plan[0], p, c);
      SealChunksFirst(files, aead, key, nonces, done, plan, p, c, files[c], order);
      SealedFileAppends(step.files, aead, key, nonces, done + [step.note], plan[1..], p, c, order + 1);
      Associative(files[c], sealed.ciphertext, SealedText(aead, key, nonces, files[p], plan[1..]));
    }
  }

  /**
   * Sealing a file's chunks, numbered from 1 and laid out from byte 0, into
   * a different file `c` leaves in `c` their cipher-texts end to end.
   */
  lemma SealedFile(files: FileMap, aead: Cipher, key: seq<Byte>, nonces: seq<Nonce>,
                   done: seq<DecryptionKeyNote>, plan: seq<Chunk>, p: Path, c: Path)
    requires p != c && p in files
    requires OrdersWithin(plan, |nonces|) && SealsKeepLengths(aead, key, nonces, files[p], plan)
    requires Numbered(plan, 1) && ContiguousFrom(plan, 0) && plan != []
    ensures SealChunks(files, aead, key, nonces, done, plan, p, c).files[c]
      == SealedText(aead, key, nonces, files[p], plan)
  {
    var nonce := nonces[plan[0].order - 1];
    var sealed := aead.seal(key, nonce, Piece(files[p], plan[0]));
    var step := SealStep(files, aead, key, nonce, plan[0], p, c);
    SealChunksFirst(files, aead, key, nonces, done, plan, p, c, [], 1);
    SealedFileAppends(step.files, aead, key, nonces, done + [step.note], plan[1..], p, c, 2);
    assert [] + sealed.ciphertext == sealed.ciphertext;
  }

  lemma SealedFileTail(aead: Cipher, key: seq<Byte>, nonces: seq<Nonce>, P: seq<Byte>, plan: seq<Chunk>)
    requires plan != [] && OrdersWithin(plan, |nonces|)
    ensures OrdersWithin(plan[1..], |nonces|)
    ensures Flatten(Ciphertexts(SealedPieces(aead, key, nonces, P, plan)))
      == aead.seal(key, nonces[plan[0].order - 1], Piece(P, plan[0])).ciphertext
         + Flatten(Ciphertexts(SealedPieces(aead, key, nonces, P, plan[1..])))
  {
    SealedPiecesTail(aead, key, nonces, P, plan);
    CiphertextsTail(SealedPieces(aead, key, nonces, P, plan));
  }

  /**
   * What `EncryptFile` does to a non-empty file `p`, with a 32-byte key and
   * the nonces drawn: `c` becomes the cipher-texts of the chunks laid end
   * to end, nothing else changes, and the key data is the key, its base64
   * string and one note per chunk.
   */
  lemma EncryptFileWrites(files: FileMap, aead: Cipher, key: seq<Byte>, stream: seq<Nonce>, p: Path, c: Path, drawn: Drawn)
    requires aead.KeepsLengths()
    requires p != c && p in files && |files[p]| >= 1 && |key| == KeySize
    requires Draw([], stream, NoncesFor(|files[p]|)) == Some(drawn)
    ensures var plan := Plan(|files[p]|, MaxValue, |drawn.nonces|);
      OrdersWithin(plan, |drawn.nonces|) &&
      var s := SealedPieces(aead, key, drawn.nonces, files[p], plan);
      EncryptFileSpec(files, aead, key, stream, p, c)
        == EncryptFileOutcome(Success(DecryptionData(key, Encode(key), NotesOf(drawn.nonces, s, plan))),
                              files[c := Flatten(Ciphertexts(s))], drawn.rest)
  {
    var L := |files[p]|;
    var nonces := drawn.nonces;
    var plan := Plan(L, MaxValue, |nonces|);
    EncryptFileSealed(files, aead, key, stream, p, c, drawn);
    EncryptionChunks(L, MaxValue);
    PlanFromLayout(L, MaxValue, |nonces|, 0, 1);
    SealedNotes(files, aead, key, nonces, [], plan, p, c);
    assert SealsKeepLengths(aead, key, nonces, files[p], plan);
    SealedFile(files, aead, key, nonces, [], plan, p, c);
    SealedTextFlattens(aead, key, nonces, files[p], plan);
    var s := SealedPieces(aead, key, nonces, files[p], plan);
    var notes := NotesOf(nonces, s, plan);
    var sealing := SealChunks(files, aead, key, nonces, [], plan, p, c);
    assert sealing.notes == [] + notes == notes;
    assert plan != [];
    assert c in sealing.files && SameExcept(sealing.files, files, c);
    assert sealing.files == files[c := sealing.files[c]];
    assert sealing.files[c] == Flatten(Ciphertexts(s));
    assert forall j :: 0 <= j < |notes| ==> WellSized(notes[j]);
    assert LengthError(key, notes).None?;
  }

  /**
   * The notes of a plan numbered 1, 2, ... sealed with pairwise different
   * nonces: numbered the same way, with pairwise different nonces, and
   * coherent.
   */
  lemma NotesOfNumberedDistinct(nonces: seq<Nonce>, s: seq<Sealed>, plan: seq<Chunk>)
    requires OrdersWithin(plan, |nonces|) && |s| == |plan|
    requires forall k :: 0 <= k < |plan| ==> plan[k].order == k + 1
    requires Distinct(nonces)
    ensures var notes := NotesOf(nonces, s, plan);
      && (forall k :: 0 <= k < |notes| ==> notes[k].Order == k + 1 && KeyNotes.Coherent(notes[k]))
      && (forall j, k :: 0 <= j < k < |notes| ==> notes[j].Nonce != notes[k].Nonce)
  {
    var notes := NotesOf(nonces, s, plan);
    forall j, k | 0 <= j < k < |notes| ensures notes[j].Nonce != notes[k].Nonce {
      assert notes[j].Nonce == nonces[j] && notes[k].Nonce == nonces[k];
    }
  }

  /**
   * A successful `EncryptFile` of a non-empty file `p` into a different
   * file `c`: the cipher-text is as long as the plain-text, and the key
   * data holds one coherent note per chunk (ceil(L / MaxValue) of them),
   * numbered 1, 2, ..., whose nonces are pairwise different.  With a
   * 32-byte key it fails only when the random source runs dry.
   */
  lemma EncryptFileLayout(files: FileMap, aead: Cipher, key: seq<Byte>, stream: seq<Nonce>, p: Path, c: Path)
    requires aead.KeepsLengths()
    requires p != c && p in files && |files[p]| >= 1 && |key| == KeySize
    requires Draw([], stream, NoncesFor(|files[p]|)).Some?
    ensures var o := EncryptFileSpec(files, aead, key, stream, p, c);
      && o.result.Success?
      && o.files[p] == files[p] && c in o.files && |o.files[c]| == |files[p]|
      && KeyFile.Coherent(o.result.value)
      && |o.result.value.KeyNoteList| == CeilDiv(|files[p]|, MaxValue)
      && (forall k :: 0 <= k < |o.result.value.KeyNoteList| ==> o.result.value.KeyNoteList[k].Order == k + 1)
      && (forall j, k :: 0 <= j < k < |o.result.value.KeyNoteList| ==>
            o.result.value.KeyNoteList[j].Nonce != o.result.value.KeyNoteList[k].Nonce)
  {
    var L := |files[p]|;
    var drawn := Draw([], stream, NoncesFor(L)).value;
    var nonces := drawn.nonces;
    var plan := Plan(L, MaxValue, |nonces|);
    EncryptFileWrites(files, aead, key, stream, p, c, drawn);
    EncryptionChunks(L, MaxValue);
    DrawDistinct([], stream, NoncesFor(L));
    var s := SealedPieces(aead, key, nonces, files[p], plan);
    NotesOfNumberedDistinct(nonces, s, plan);
    FlattenLength(Ciphertexts(s), plan);
  }

  // ------------------------------------------------------------ decryption

  /**
   * Opening a contiguous, consecutively numbered run of chunks of `c`,
   * where `c` holds their cipher-texts end to end after a prefix and every
   * chunk authenticates under its note to the plain-text `pts[k]`, writes
   * those plain-texts end to end into a different file `q` (after what `q`
   * held, or into a fresh file when the run starts at chunk 1).
   */
  lemma {:induction false} OpenSeparate(files: FileMap, aead: Cipher, key: seq<Byte>, notes: seq<DecryptionKeyNote>,
                                        plan: seq<Chunk>, c: Path, q: Path, order: nat, prefix: seq<Byte>,
                                        cts: seq<seq<Byte>>, pts: seq<seq<Byte>>)
    requires c != q && c in files
    requires OrdersWithin(plan, |notes|)
    requires Numbered(plan, order) && ContiguousFrom(plan, |prefix|) && order >= 1
    requires order == 1 ==> |prefix| == 0
    requires order != 1 ==> q in files && |files[q]| == |prefix|
    requires files[c] == prefix + Flatten(cts)
    requires |cts| == |plan| && |pts| == |plan|
    requires forall k :: 0 <= k < |plan| ==> |cts[k]| == plan[k].length == |pts[k]|
    requires forall k :: 0 <= k < |plan| ==>
      aead.open(key, notes[plan[k].order - 1].Nonce, cts[k], notes[plan[k].order - 1].Tag) == Some(pts[k])
    ensures var r := OpenChunks(files, aead, key, notes, plan, c, q);
      && r.failedAt.None?
      && (plan != [] ==> q in r.files && r.files[q] == (if order == 1 then [] else files[q]) + Flatten(pts))
    decreases |plan|
  {
    if plan != [] {
      var ch := plan[0];
      var note := notes[ch.order - 1];
      ReadAtMiddle(prefix, cts[0], Flatten(cts[1..]));
      Associative(prefix, cts[0], Flatten(cts[1..]));
      var base := if order == 1 then [] else files[q];
      WriteAtEnd(base, pts[0]);
      var next := files[q := base + pts[0]];
      assert OpenStep(files, aead, key, note, ch, c, q) == Some(next);
      OrdersWithinTail(plan, |notes|);
      var r := OpenChunks(files, aead, key, notes, plan, c, q);
      assert r == OpenChunks(next, aead, key, notes, plan[1..], c, q);
      if plan[1..] == [] {
        assert Flatten(pts[1..]) == [];
        assert pts[0] + [] == pts[0];
      } else {
        assert forall k :: 0 <= k < |plan[1..]| ==> plan[1..][k] == plan[k + 1];
        assert next[c] == files[c] == (prefix + cts[0]) + Flatten(cts[1..]);
        OpenSeparate(next, aead, key, notes, plan[1..], c, q, order + 1, prefix + cts[0], cts[1..], pts[1..]);
        Associative(base, pts[0], Flatten(pts[1..]));
      }
    }
  }

  /**
   * Every chunk of a plan numbered 1, 2, ... that a valid cipher sealed
   * opens, under the note recorded for it, to the plain-text chunk.
   */
  lemma ChunksAuthenticate(aead: Cipher, key: seq<Byte>, nonces: seq<Nonce>, P: seq<Byte>, plan: seq<Chunk>)
    requires aead.Valid()
    requires OrdersWithin(plan, |nonces|)
    requires forall k :: 0 <= k < |plan| ==> plan[k].order == k + 1
    ensures var s := SealedPieces(aead, key, nonces, P, plan);
      var notes := NotesOf(nonces, s, plan);
      forall k :: 0 <= k < |plan| ==>
        aead.open(key, notes[plan[k].order - 1].Nonce, Ciphertexts(s)[k], notes[plan[k].order - 1].Tag) == Some(Pieces(P, plan)[k])
  {
    var s := SealedPieces(aead, key, nonces, P, plan);
    var notes := NotesOf(nonces, s, plan);
    forall k | 0 <= k < |plan|
      ensures aead.open(key, notes[plan[k].order - 1].Nonce, Ciphertexts(s)[k], notes[plan[k].order - 1].Tag) == Some(Pieces(P, plan)[k])
    {
      var piece := Piece(P, plan[k]);
      var sealed := aead.seal(key, nonces[k], piece);
      assert s[k] == sealed;
      assert notes[k].Nonce == nonces[k] && notes[k].Tag == sealed.tag;
      assert aead.open(key, nonces[k], sealed.ciphertext, sealed.tag) == Some(piece);
    }
  }

  /**
   * Decrypting with the key data sealing a plain-text `P` produced, from
   * files in which `c` holds the cipher-texts sealing wrote, into a file
   * `q` other than `c`: every chunk authenticates and `q` ends up holding
   * `P`.
   */
  lemma DecryptSealed(after: FileMap, aead: Cipher, key: seq<Byte>, nonces: seq<Nonce>, P: seq<Byte>, c: Path, q: Path)
    requires aead.Valid()
    requires q != c && |P| >= 1 && |nonces| == NoncesFor(|P|)
    requires OrdersWithin(Plan(|P|, MaxValue, |nonces|), |nonces|)
    requires var plan := Plan(|P|, MaxValue, |nonces|);
      c in after && after[c] == Flatten(Ciphertexts(SealedPieces(aead, key, nonces, P, plan)))
    ensures var plan := Plan(|P|, MaxValue, |nonces|);
      var data := DecryptionData(key, Encode(key), NotesOf(nonces, SealedPieces(aead, key, nonces, P, plan), plan));
      |data.KeyNoteList| >= 1 &&
      var o := DecryptFileSpec(after, aead, data, c, q);
      o.failedAt.None? && q in o.files && o.files[q] == P
  {
    var L := |P|;
    var plan := Plan(L, MaxValue, |nonces|);
    ValidKeepsLengths(aead);
    EncryptionChunks(L, MaxValue);
    DecryptionChunks(L, MaxValue);
    PlanFromLayout(L, MaxValue, |nonces|, 0, 1);
    var s := SealedPieces(aead, key, nonces, P, plan);
    var notes := NotesOf(nonces, s, plan);
    var cts := Ciphertexts(s);
    var pts := Pieces(P, plan);
    FlattenLength(cts, plan);
    assert after[c] == [] + Flatten(cts);
    ChunksAuthenticate(aead, key, nonces, P, plan);
    OpenSeparate(after, aead, key, notes, plan, c, q, 1, [], cts, pts);
    PiecesCover(P, plan, 0);
    assert P[0..] == P;
  }

  /**
   * Decrypting with the key data `EncryptFile` built, from files in which
   * `c` still holds what it wrote there, into a file `q` other than `c`:
   * every chunk authenticates and `q` ends up holding the original
   * plain-text.
   */
  lemma DecryptFileRestores(files: FileMap, aead: Cipher, key: seq<Byte>, stream: seq<Nonce>, p: Path, c: Path,
                            after: FileMap, q: Path)
    requires aead.Valid()
    requires p != c && q != c && p in files && |files[p]| >= 1 && |key| == KeySize
    requires Draw([], stream, NoncesFor(|files[p]|)).Some?
    requires c in after && after[c] == EncryptFileSpec(files, aead, key, stream, p, c).files[c]
    ensures var o := EncryptFileSpec(files, aead, key, stream, p, c);
      o.result.Success? && |o.result.value.KeyNoteList| >= 1 &&
      var d := DecryptFileSpec(after, aead, o.result.value, c, q);
      d.failedAt.None? && q in d.files && d.files[q] == files[p]
  {
    var drawn := Draw([], stream, NoncesFor(|files[p]|)).value;
    ValidKeepsLengths(aead);
    EncryptFileWrites(files, aead, key, stream, p, c, drawn);
    DecryptSealed(after, aead, key, drawn.nonces, files[p], c, q);
  }

  // ------------------------------------------------------------ end to end

  /**
   * `Encrypt` then `Decrypt`: with a valid cipher and a JSON codec that
   * reads back what it writes, a 32-byte key, a non-empty plain-text file
   * `p`, and a cipher-text file `c` that is neither `p` nor the key file,
   * both calls succeed and the decrypted file `q` (any path but `c`) holds
   * exactly the original plain-text.
   */
  lemma EncryptThenDecrypt(files: FileMap, aead: Cipher, json: JsonCodec, key: seq<Byte>, stream: seq<Nonce>,
                           p: Path, c: Path, keyFile: Option<Path>, q: Path)
    requires aead.Valid() && json.Valid()
    requires p in files && |files[p]| >= 1 && |key| == KeySize
    requires p != c && KeyPath(c, keyFile) != c && q != c
    requires Draw([], stream, NoncesFor(|files[p]|)).Some?
    ensures var e := EncryptSpec(files, aead, json, key, stream, p, c, keyFile);
      var d := DecryptSpec(e.files, aead, json, KeyPath(c, keyFile), c, q);
      && e.error.None?
      && d.error.None?
      && q in d.files && d.files[q] == files[p]
  {
    var kp := KeyPath(c, keyFile);
    ValidKeepsLengths(aead);
    EncryptFileLayout(files, aead, key, stream, p, c);
    var o := EncryptFileSpec(files, aead, key, stream, p, c);
    var data := o.result.value;
    var e := EncryptSpec(files, aead, json, key, stream, p, c, keyFile);
    assert e.files == o.files[kp := json.write(ToDoc(data))];
    DecryptFileRestores(files, aead, key, stream, p, c, e.files, q);
    SerialiseThenInterpret(data);
    assert ReadKeyFile(e.files, json, kp) == Success(data);
  }
}
