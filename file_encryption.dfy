/**
 * `ChaCha20Poly1305FileEncryption`: encrypts a file chunk by chunk, one
 * fresh nonce per chunk, writes the cipher-text beside it and the key and
 * the per-chunk nonces and tags to a key file; decrypts by reading the key
 * file back and opening the chunks in the same order.
 *
 * The file system is a `FileStore`.  Each operation is a method over the
 * store, proved against a function of the store's old contents
 * (`SealChunks`, `OpenChunks`, `EncryptSpec`, `DecryptSpec`); the
 * properties of the protocol are lemmas about those functions.
 * A file's length is read once, as the cached `FileInfo.Length` is.
 */
module FileEncryption {
  import opened Wrappers
  import opened Bytes
  import opened Errors
  import opened Aead
  import opened ChunkPlan
  import opened Files
  import opened KeyNotes
  import opened KeyFile
  import opened Nonces

  type FileMap = map<Path, seq<Byte>>

  /** `after` differs from `before` at most in the file `path`. */
  predicate SameExcept(after: FileMap, before: FileMap, path: Path) {
    if path in after then after == before[path := after[path]] else after == before
  }

  /** Every chunk number names an entry of a list of `n` nonces or notes. */
  predicate OrdersWithin(plan: seq<Chunk>, n: nat) {
    forall k :: 0 <= k < |plan| ==> 1 <= plan[k].order <= n
  }

  // ------------------------------------------------------------ encryption

  datatype SealStepResult = SealStepResult(files: FileMap, note: DecryptionKeyNote)

  /**
   * One `EncryptFileChunk`: read the chunk of the plain-text file into a
   * zeroed buffer, seal it, write the cipher-text at the chunk's offset
   * (chunk 1 creates the file), and record nonce, tag and chunk number.
   */
  function SealStep(files: FileMap, aead: Cipher, key: seq<Byte>, nonce: Nonce, ch: Chunk, p: Path, c: Path): (r: SealStepResult)
    requires p in files
    requires ch.order == 1 || c in files
    ensures c in r.files && SameExcept(r.files, files, c)
    ensures r.note.Nonce == nonce && r.note.Order == ch.order
  {
    var sealed := aead.seal(key, nonce, ReadAt(files[p], ch.offset, ch.length));
    var written := WriteAt(if ch.order == 1 then [] else files[c], ch.offset, sealed.ciphertext);
    SealStepResult(files[c := written], KeyNotes.FromBytes(nonce, sealed.tag, ch.order))
  }

  datatype Sealing = Sealing(files: FileMap, notes: seq<DecryptionKeyNote>)

  /**
   * The chunks of `plan` sealed in order after the notes `done`: the files
   * afterwards and the notes, one more per chunk.
   */
  function SealChunks(files: FileMap, aead: Cipher, key: seq<Byte>, nonces: seq<Nonce>, done: seq<DecryptionKeyNote>,
                      plan: seq<Chunk>, p: Path, c: Path): (r: Sealing)
    requires p in files
    requires OrdersWithin(plan, |nonces|)
    requires |plan| > 0 && plan[0].order != 1 ==> c in files
    ensures |r.notes| == |done| + |plan|
    ensures SameExcept(r.files, files, c)
    ensures |plan| > 0 ==> c in r.files
    decreases |plan|, 1
  {
    if plan == [] then Sealing(files, done) else SealFirst(files, aead, key, nonces, done, plan, p, c)
  }

  /** The first chunk of a non-empty `plan` sealed, then the rest of the plan. */
  function SealFirst(files: FileMap, aead: Cipher, key: seq<Byte>, nonces: seq<Nonce>, done: seq<DecryptionKeyNote>,
                     plan: seq<Chunk>, p: Path, c: Path): (r: Sealing)
    requires p in files && plan != []
    requires OrdersWithin(plan, |nonces|)
    requires plan[0].order != 1 ==> c in files
    ensures |r.notes| == |done| + |plan|
    ensures SameExcept(r.files, files, c) && c in r.files
    decreases |plan|, 0
  {
    var step := SealStep(files, aead, key, nonces[plan[0].order - 1], plan[0], p, c);
    var r := SealChunks(step.files, aead, key, nonces, done + [step.note], plan[1..], p, c);
    assert r.files == files[c := r.files[c]];
    r
  }

  datatype EncryptFileOutcome = EncryptFileOutcome(result: Result<DecryptionData, Error>, files: FileMap, pending: seq<Nonce>)

  /**
   * `EncryptFile`: the cipher rejects a key that is not 32 bytes; then
   * `dataLength / MaxValue + 1` nonces are drawn, the chunks are sealed,
   * and the key data is built from the key and the notes.
   */
  function EncryptFileSpec(files: FileMap, aead: Cipher, key: seq<Byte>, stream: seq<Nonce>, p: Path, c: Path): (r: EncryptFileOutcome)
    requires p in files
    ensures |key| != KeySize ==> r == EncryptFileOutcome(Failure(InvalidKeySize), files, stream)
    ensures r.result.Failure? && r.result.error == RandomSourceExhausted ==> r.files == files && r.pending == []
    ensures SameExcept(r.files, files, c)
  {
    var L := |files[p]|;
    if |key| != KeySize then EncryptFileOutcome(Failure(InvalidKeySize), files, stream)
    else
      match Draw([], stream, NoncesFor(L))
      case None => EncryptFileOutcome(Failure(RandomSourceExhausted), files, [])
      case Some(drawn) =>
        var plan := Plan(L, MaxValue, |drawn.nonces|);
        PlanOrdersInRange(L, MaxValue, |drawn.nonces|, 0, 1);
        var sealing := SealChunks(files, aead, key, drawn.nonces, [], plan, p, c);
        EncryptFileOutcome(KeyFile.FromKeyBytes(key, sealing.notes), sealing.files, drawn.rest)
  }

  /** The key file `Encrypt` writes when none is named: the cipher-text path with ".key" appended. */
  function KeyPath(c: Path, keyFile: Option<Path>): (r: Path)
    ensures keyFile.None? ==> r == c + ".key"
    ensures keyFile.Some? ==> r == keyFile.value
  {
    if keyFile.None? then c + ".key" else keyFile.value
  }

  datatype Outcome = Outcome(error: Option<Error>, files: FileMap, pending: seq<Nonce>)

  /**
   * `Encrypt`: the plain-text file must exist and be non-empty; then the
   * file is encrypted and the key data is written as JSON to the key file.
   */
  function EncryptSpec(files: FileMap, aead: Cipher, json: JsonCodec, key: seq<Byte>, stream: seq<Nonce>,
                       p: Path, c: Path, keyFile: Option<Path>): (r: Outcome)
    ensures p !in files || |files[p]| == 0 ==> r == Outcome(Some(PlaintextMissingOrEmpty), files, stream)
    ensures |key| != KeySize ==> r.files == files
    ensures r.error.None? ==> p in files && KeyPath(c, keyFile) in r.files && c in r.files
  {
    if p !in files || |files[p]| == 0 then Outcome(Some(PlaintextMissingOrEmpty), files, stream)
    else
      var o := EncryptFileSpec(files, aead, key, stream, p, c);
      match o.result
      case Failure(e) => Outcome(Some(e), o.files, o.pending)
      case Success(data) =>
        EncryptedFileExists(files, aead, key, stream, p, c);
        Outcome(None, o.files[KeyPath(c, keyFile) := json.write(ToDoc(data))], o.pending)
  }

  /** A successful encryption of a non-empty file has created the cipher-text file. */
  lemma EncryptedFileExists(files: FileMap, aead: Cipher, key: seq<Byte>, stream: seq<Nonce>, p: Path, c: Path)
    requires p in files && |files[p]| > 0
    requires EncryptFileSpec(files, aead, key, stream, p, c).result.Success?
    ensures c in EncryptFileSpec(files, aead, key, stream, p, c).files
  {
    var L := |files[p]|;
    var drawn := Draw([], stream, NoncesFor(L)).value;
    assert |drawn.nonces| == NoncesFor(L) >= 1;
    assert Plan(L, MaxValue, |drawn.nonces|) != [];
  }

  // ------------------------------------------------------------ decryption

  /**
   * One `DecryptFileChunk`: read the chunk of the cipher-text file, open it
   * with the note's nonce and tag, and write the plain-text at the chunk's
   * offset (chunk 1 creates the file).  None where the library throws on a
   * tag mismatch; nothing is written then.
   */
  function OpenStep(files: FileMap, aead: Cipher, key: seq<Byte>, note: DecryptionKeyNote, ch: Chunk, c: Path, p: Path): (r: Option<FileMap>)
    requires c in files
    requires ch.order == 1 || p in files
    ensures r.Some? ==> p in r.value && SameExcept(r.value, files, p)
  {
    var cipherText := ReadAt(files[c], ch.offset, ch.length);
    match aead.open(key, note.Nonce, cipherText, note.Tag)
    case None => None
    case Some(plainText) =>
      Some(files[p := WriteAt(if ch.order == 1 then [] else files[p], ch.offset, plainText)])
  }

  datatype Opened = Opened(files: FileMap, failedAt: Option<nat>)

  /** The chunks of `plan` opened in order, stopping at the first that fails to authenticate. */
  function OpenChunks(files: FileMap, aead: Cipher, key: seq<Byte>, notes: seq<DecryptionKeyNote>, plan: seq<Chunk>, c: Path, p: Path): (r: Opened)
    requires c in files
    requires OrdersWithin(plan, |notes|)
    requires |plan| > 0 && plan[0].order != 1 ==> p in files
    ensures SameExcept(r.files, files, p)
    decreases |plan|
  {
    if plan == [] then Opened(files, None)
    else
      match OpenStep(files, aead, key, notes[plan[0].order - 1], plan[0], c, p)
      case None => Opened(files, Some(plan[0].order))
      case Some(next) =>
        OpenChunks(next, aead, key, notes, plan[1..], c, p)
  }

  /** A run that stops reports the number of one of the planned chunks. */
  lemma {:induction false} FailedChunkIsPlanned(files: FileMap, aead: Cipher, key: seq<Byte>, notes: seq<DecryptionKeyNote>,
                                                plan: seq<Chunk>, c: Path, p: Path)
    requires c in files
    requires OrdersWithin(plan, |notes|)
    requires |plan| > 0 && plan[0].order != 1 ==> p in files
    ensures var r := OpenChunks(files, aead, key, notes, plan, c, p);
      r.failedAt.Some? ==> exists k :: 0 <= k < |plan| && plan[k].order == r.failedAt.value
    decreases |plan|
  {
    if plan != [] {
      match OpenStep(files, aead, key, notes[plan[0].order - 1], plan[0], c, p)
      case None =>
      case Some(next) =>
        FailedChunkIsPlanned(next, aead, key, notes, plan[1..], c, p);
        var rest := OpenChunks(next, aead, key, notes, plan[1..], c, p);
        if rest.failedAt.Some? {
          var k :| 0 <= k < |plan[1..]| && plan[1..][k].order == rest.failedAt.value;
          assert plan[k + 1] == plan[1..][k];
        }
    }
  }

  /**
   * `DecryptFile`: the chunk boundaries come from the cipher-text length
   * and the number of notes; chunk k uses note k.
   */
  function DecryptFileSpec(files: FileMap, aead: Cipher, data: DecryptionData, c: Path, p: Path): (r: Opened)
    requires c in files
    requires |data.KeyNoteList| >= 1
    ensures SameExcept(r.files, files, p)
  {
    var n := |data.KeyNoteList|;
    PlanOrdersInRange(|files[c]|, MaxValue, n, 0, 1);
    OpenChunks(files, aead, data.Key, data.KeyNoteList, Plan(|files[c]|, MaxValue, n), c, p)
  }

  /**
   * `Decrypt`: with both files present, read the key file, then reject an
   * empty cipher-text, then decrypt; otherwise report the missing key file
   * first, then the missing cipher-text file.
   */
  function DecryptSpec(files: FileMap, aead: Cipher, json: JsonCodec, keyFile: Path, c: Path, p: Path): (r: Outcome)
    ensures keyFile !in files ==> r.error == Some(KeyFileMissing) && r.files == files
    ensures keyFile in files && c !in files ==> r.error == Some(CipherFileMissing) && r.files == files
    ensures keyFile in files && c in files && ReadKeyFile(files, json, keyFile).Failure? ==>
      r.error == Some(ReadKeyFile(files, json, keyFile).error) && r.files == files
    ensures keyFile in files && c in files && ReadKeyFile(files, json, keyFile).Success? && |files[c]| == 0 ==>
      r.error == Some(CipherFileEmpty) && r.files == files
    ensures SameExcept(r.files, files, p)
    ensures r.pending == []
  {
    if keyFile in files && c in files then
      match ReadKeyFile(files, json, keyFile)
      case Failure(e) => Outcome(Some(e), files, [])
      case Success(data) =>
        if |files[c]| == 0 then Outcome(Some(CipherFileEmpty), files, [])
        else
          var o := DecryptFileSpec(files, aead, data, c, p);
          Outcome(if o.failedAt.Some? then Some(AuthenticationFailure(o.failedAt.value)) else None, o.files, [])
    else if keyFile !in files then Outcome(Some(KeyFileMissing), files, [])
    else Outcome(Some(CipherFileMissing), files, [])
  }

  // ------------------------------------------------------------ the methods

  /** `EncryptFileChunk`, with `plaintext` the zeroed buffer `EncryptFile` allocated. */
  method EncryptFileChunk(fs: FileStore, aead: Cipher, key: seq<Byte>, nonce: Nonce, plaintext: array<Byte>,
                          p: Path, c: Path, order: nat, offset: nat) returns (note: DecryptionKeyNote)
    requires aead.KeepsLengths()
    requires p in fs.files && (order == 1 || c in fs.files)
    requires forall i :: 0 <= i < plaintext.Length ==> plaintext[i] == 0
    modifies fs, plaintext
    ensures SealStepResult(fs.files, note) == SealStep(old(fs.files), aead, key, nonce, Chunk(order, offset, plaintext.Length), p, c)
  {
    ghost var before := plaintext[..];
    var tag := new Byte[TagSize](_ => 0);
    var cypherTxt := new Byte[plaintext.Length](_ => 0);
    var data := fs.ReadFileChunkFromOffset(p, plaintext, offset);
    ReadIntoZeroedBuffer(fs.files[p], offset, before, data[..]);
    var sealed := aead.seal(key, nonce, data[..]);
    forall i | 0 <= i < cypherTxt.Length {
      cypherTxt[i] := sealed.ciphertext[i];
    }
    forall i | 0 <= i < TagSize {
      tag[i] := sealed.tag[i];
    }
    assert cypherTxt[..] == sealed.ciphertext;
    assert tag[..] == sealed.tag;
    fs.AppendFileChunk(c, cypherTxt, offset, order);
    note := KeyNotes.FromBytes(nonce, tag[..], order);
  }

  /**
   * Where `EncryptFile`'s loop may stand before the chunk `order` at offset
   * `processed` of a plain-text of `L` bytes: the plain-text exists, the
   * cipher-text exists once a chunk is written, and a nonce is left while
   * bytes are.
   */
  ghost predicate SealReady(files: FileMap, nonces: seq<Nonce>, L: nat, processed: nat, order: nat, p: Path, c: Path) {
    p in files && 1 <= order && (order != 1 ==> c in files) && (processed < L ==> order <= |nonces|)
  }

  /**
   * What `EncryptFile`'s loop gives from there on, after the notes `done`:
   * the files and notes as they are once no byte is left, otherwise the
   * chunks still to come sealed in order.
   */
  ghost function SealRest(files: FileMap, aead: Cipher, key: seq<Byte>, nonces: seq<Nonce>, L: nat, processed: nat, order: nat,
                          done: seq<DecryptionKeyNote>, p: Path, c: Path): Sealing
    requires SealReady(files, nonces, L, processed, order, p, c)
  {
    if L <= processed then Sealing(files, done)
    else
      PlanOrdersInRange(L, MaxValue, |nonces|, processed, order);
      SealChunks(files, aead, key, nonces, done, PlanFrom(L, MaxValue, |nonces|, processed, order), p, c)
  }

  /**
   * `EncryptFile`: reject a key of the wrong size, draw the nonces, seal
   * the chunks (`SealFile`, the loop of the source method) and build the
   * key data from the notes.
   */
  method EncryptFile(fs: FileStore, rng: RandomSource, aead: Cipher, key: seq<Byte>, p: Path, c: Path)
    returns (r: Result<DecryptionData, Error>)
    requires aead.KeepsLengths()
    requires p in fs.files
    modifies fs, rng
    ensures EncryptFileOutcome(r, fs.files, rng.pending) == EncryptFileSpec(old(fs.files), aead, key, old(rng.pending), p, c)
  {
    var L := |fs.files[p]|;
    if |key| != KeySize {
      return Failure(InvalidKeySize);
    }
    var uniqueNonces := GetNonces(rng, L);
    if uniqueNonces.None? {
      return Failure(RandomSourceExhausted);
    }
    var nonces := uniqueNonces.value;
    EncryptFileSealed(fs.files, aead, key, old(rng.pending), p, c, Drawn(nonces, rng.pending));
    var keyNoteList := SealFile(fs, aead, key, nonces, p, c);
    r := NewFromKeyBytes(key, keyNoteList);
  }

  /** The chunk loop of `EncryptFile`: seal every chunk of the plain-text file, one nonce per chunk, in order. */
  method SealFile(fs: FileStore, aead: Cipher, key: seq<Byte>, nonces: seq<Nonce>, p: Path, c: Path)
    returns (keyNoteList: seq<DecryptionKeyNote>)
    requires aead.KeepsLengths()
    requires p in fs.files && |nonces| >= 1
    modifies fs
    ensures OrdersWithin(Plan(|old(fs.files)[p]|, MaxValue, |nonces|), |nonces|)
    ensures Sealing(fs.files, keyNoteList) == SealChunks(old(fs.files), aead, key, nonces, [], Plan(|old(fs.files)[p]|, MaxValue, |nonces|), p, c)
  {
    var L := |fs.files[p]|;
    ghost var target := EncryptStart(fs.files, aead, key, nonces, p, c);
    keyNoteList := [];
    var processedBytes: nat := 0;
    var chunkCount: nat := 1;
    while processedBytes < L
      invariant SealReady(fs.files, nonces, L, processedBytes, chunkCount, p, c)
      invariant target == SealRest(fs.files, aead, key, nonces, L, processedBytes, chunkCount, keyNoteList, p, c)
      decreases L - processedBytes
    {
      var note, length := SealNext(fs, aead, key, nonces, L, processedBytes, chunkCount, target, keyNoteList, p, c);
      keyNoteList := keyNoteList + [note];
      processedBytes := processedBytes + length;
      chunkCount := chunkCount + 1;
    }
  }

  /** The body of `EncryptFile`'s loop: seal the chunk at `processedBytes` and return its note and length. */
  method SealNext(fs: FileStore, aead: Cipher, key: seq<Byte>, nonces: seq<Nonce>, L: nat, processedBytes: nat, chunkCount: nat,
                  ghost target: Sealing, ghost keyNoteList: seq<DecryptionKeyNote>, p: Path, c: Path)
    returns (note: DecryptionKeyNote, length: nat)
    requires aead.KeepsLengths()
    requires processedBytes < L && SealReady(fs.files, nonces, L, processedBytes, chunkCount, p, c)
    requires target == SealRest(fs.files, aead, key, nonces, L, processedBytes, chunkCount, keyNoteList, p, c)
    modifies fs
    ensures length == if chunkCount == |nonces| then L - processedBytes else MaxValue
    ensures SealReady(fs.files, nonces, L, processedBytes + length, chunkCount + 1, p, c)
    ensures target == SealRest(fs.files, aead, key, nonces, L, processedBytes + length, chunkCount + 1, keyNoteList + [note], p, c)
  {
    length := if chunkCount == |nonces| then L - processedBytes else MaxValue;
    var plaintext := new Byte[length](_ => 0);
    assert plaintext.Length == length && forall i :: 0 <= i < plaintext.Length ==> plaintext[i] == 0;
    assert p in fs.files && (chunkCount == 1 || c in fs.files) && chunkCount - 1 < |nonces|;
    ghost var before := fs.files;
    note := EncryptFileChunk(fs, aead, key, nonces[chunkCount - 1], plaintext, p, c, chunkCount, processedBytes);
    EncryptTurn(target, before, fs.files, note, aead, key, nonces, L, processedBytes, chunkCount, keyNoteList, p, c);
  }

  /** Once the nonces are drawn, `EncryptFile` gives the sealed chunks and the key data built from their notes. */
  lemma EncryptFileSealed(files: FileMap, aead: Cipher, key: seq<Byte>, stream: seq<Nonce>, p: Path, c: Path, drawn: Drawn)
    requires p in files && |key| == KeySize
    requires Draw([], stream, NoncesFor(|files[p]|)) == Some(drawn)
    ensures |drawn.nonces| >= 1
    ensures OrdersWithin(Plan(|files[p]|, MaxValue, |drawn.nonces|), |drawn.nonces|)
    ensures var sealing := SealChunks(files, aead, key, drawn.nonces, [], Plan(|files[p]|, MaxValue, |drawn.nonces|), p, c);
      EncryptFileSpec(files, aead, key, stream, p, c)
        == EncryptFileOutcome(KeyFile.FromKeyBytes(key, sealing.notes), sealing.files, drawn.rest)
  {
    PlanOrdersInRange(|files[p]|, MaxValue, |drawn.nonces|, 0, 1);
  }

  /** Before `EncryptFile`'s loop, all of the plan is still to come and no note is written. */
  lemma EncryptStart(files: FileMap, aead: Cipher, key: seq<Byte>, nonces: seq<Nonce>, p: Path, c: Path) returns (target: Sealing)
    requires p in files && |nonces| >= 1
    ensures OrdersWithin(Plan(|files[p]|, MaxValue, |nonces|), |nonces|)
    ensures target == SealChunks(files, aead, key, nonces, [], Plan(|files[p]|, MaxValue, |nonces|), p, c)
    ensures SealReady(files, nonces, |files[p]|, 0, 1, p, c)
    ensures target == SealRest(files, aead, key, nonces, |files[p]|, 0, 1, [], p, c)
  {
    PlanOrdersInRange(|files[p]|, MaxValue, |nonces|, 0, 1);
    target := SealChunks(files, aead, key, nonces, [], Plan(|files[p]|, MaxValue, |nonces|), p, c);
  }

  /** One turn of `EncryptFile`'s loop: the chunk at `processed` is sealed and its note appended. */
  lemma EncryptTurn(target: Sealing, before: FileMap, after: FileMap, note: DecryptionKeyNote, aead: Cipher, key: seq<Byte>,
                    nonces: seq<Nonce>, L: nat, processed: nat, order: nat, done: seq<DecryptionKeyNote>, p: Path, c: Path)
    requires processed < L && SealReady(before, nonces, L, processed, order, p, c)
    requires target == SealRest(before, aead, key, nonces, L, processed, order, done, p, c)
    requires var length := if order == |nonces| then L - processed else MaxValue;
      SealStepResult(after, note) == SealStep(before, aead, key, nonces[order - 1], Chunk(order, processed, length), p, c)
    ensures var length := if order == |nonces| then L - processed else MaxValue;
      && SealReady(after, nonces, L, processed + length, order + 1, p, c)
      && target == SealRest(after, aead, key, nonces, L, processed + length, order + 1, done + [note], p, c)
  {
    var n := |nonces|;
    var length := if order == n then L - processed else MaxValue;
    var plan := PlanFrom(L, MaxValue, n, processed, order);
    SealRestAsChunks(before, aead, key, nonces, L, processed, order, done, p, c);
    PlanFromUnfold(L, MaxValue, n, processed, order);
    assert plan[0] == Chunk(order, processed, length);
    assert plan[1..] == PlanFrom(L, MaxValue, n, processed + length, order + 1);
    SealFirstStep(before, after, note, aead, key, nonces, done, plan, p, c);
    assert processed + length < L ==> order < n;
    SealRestAsChunks(after, aead, key, nonces, L, processed + length, order + 1, done + [note], p, c);
  }

  /** What remains of the loop is the sealing of the chunks it has still to visit. */
  lemma SealRestAsChunks(files: FileMap, aead: Cipher, key: seq<Byte>, nonces: seq<Nonce>, L: nat, processed: nat, order: nat,
                         done: seq<DecryptionKeyNote>, p: Path, c: Path)
    requires SealReady(files, nonces, L, processed, order, p, c)
    ensures OrdersWithin(PlanFrom(L, MaxValue, |nonces|, processed, order), |nonces|)
    ensures SealRest(files, aead, key, nonces, L, processed, order, done, p, c)
      == SealChunks(files, aead, key, nonces, done, PlanFrom(L, MaxValue, |nonces|, processed, order), p, c)
  {
    if processed < L {
      PlanOrdersInRange(L, MaxValue, |nonces|, processed, order);
    }
  }

  /** Sealing the first chunk of `plan` leaves the rest of the plan to seal from the files and notes it produced. */
  lemma SealFirstStep(before: FileMap, after: FileMap, note: DecryptionKeyNote, aead: Cipher, key: seq<Byte>,
                      nonces: seq<Nonce>, done: seq<DecryptionKeyNote>, plan: seq<Chunk>, p: Path, c: Path)
    requires p in before && plan != [] && OrdersWithin(plan, |nonces|)
    requires plan[0].order != 1 ==> c in before
    requires SealStepResult(after, note) == SealStep(before, aead, key, nonces[plan[0].order - 1], plan[0], p, c)
    ensures p in after && OrdersWithin(plan[1..], |nonces|) && (plan[1..] != [] ==> c in after)
    ensures SealChunks(before, aead, key, nonces, done, plan, p, c)
      == SealChunks(after, aead, key, nonces, done + [note], plan[1..], p, c)
  {
    assert SealChunks(before, aead, key, nonces, done, plan, p, c) == SealFirst(before, aead, key, nonces, done, plan, p, c);
    assert forall k :: 0 <= k < |plan[1..]| ==> plan[1..][k] == plan[k + 1];
  }

  lemma PlanFromUnfold(L: nat, M: nat, n: nat, processed: nat, order: nat)
    requires M > 0 && processed < L
    ensures var length := if order == n then L - processed else M;
      PlanFrom(L, M, n, processed, order) == [Chunk(order, processed, length)] + PlanFrom(L, M, n, processed + length, order + 1)
  {
  }

  /** `Encrypt`. */
  method Encrypt(fs: FileStore, rng: RandomSource, aead: Cipher, json: JsonCodec, key: seq<Byte>,
                 plaintextFile: Path, cypherTxtFile: Path, keyFile: Option<Path>) returns (error: Option<Error>)
    requires aead.KeepsLengths()
    modifies fs, rng
    ensures Outcome(error, fs.files, rng.pending)
      == EncryptSpec(old(fs.files), aead, json, key, old(rng.pending), plaintextFile, cypherTxtFile, keyFile)
  {
    if !fs.Exists(plaintextFile) || |fs.files[plaintextFile]| == 0 {
      return Some(PlaintextMissingOrEmpty);
    }
    var keyPath := KeyPath(cypherTxtFile, keyFile);
    var decryptionData := EncryptFile(fs, rng, aead, key, plaintextFile, cypherTxtFile);
    if decryptionData.Failure? {
      return Some(decryptionData.error);
    }
    fs.WriteAllText(keyPath, json.write(ToDoc(decryptionData.value)));
    return None;
  }

  /** `DecryptFileChunk`, with `cypherTxt` the zeroed buffer `DecryptFile` allocated; false where the tag does not match. */
  method DecryptFileChunk(fs: FileStore, aead: Cipher, key: seq<Byte>, note: DecryptionKeyNote, cypherTxt: array<Byte>,
                          c: Path, p: Path, offset: nat, order: nat) returns (ok: bool)
    requires aead.KeepsLengths()
    requires c in fs.files && (order == 1 || p in fs.files)
    requires forall i :: 0 <= i < cypherTxt.Length ==> cypherTxt[i] == 0
    modifies fs, cypherTxt
    ensures var step := OpenStep(old(fs.files), aead, key, note, Chunk(order, offset, cypherTxt.Length), c, p);
      ok == step.Some? && fs.files == if ok then step.value else old(fs.files)
  {
    ghost var before := cypherTxt[..];
    var plainText := new Byte[cypherTxt.Length](_ => 0);
    var data := fs.ReadFileChunkFromOffset(c, cypherTxt, offset);
    ReadIntoZeroedBuffer(fs.files[c], offset, before, data[..]);
    var plain := aead.open(key, note.Nonce, data[..], note.Tag);
    if plain.None? {
      return false;
    }
    forall i | 0 <= i < plainText.Length {
      plainText[i] := plain.value[i];
    }
    assert plainText[..] == plain.value;
    fs.AppendFileChunk(p, plainText, offset, order);
    return true;
  }

  /**
   * Where `DecryptFile`'s loop stands before the chunk `order` at offset
   * `processed` of a cipher-text of `L` bytes: opening the chunks still to
   * come from `files` gives `goal`, what opening them all gives.
   */
  ghost predicate Decrypting(goal: Opened, files: FileMap, aead: Cipher, key: seq<Byte>, notes: seq<DecryptionKeyNote>,
                             L: nat, processed: nat, order: nat, c: Path, p: Path)
  {
    && c in files && 1 <= order && (order != 1 ==> p in files)
    && (processed < L ==> order <= |notes|)
    && OrdersWithin(PlanFrom(L, MaxValue, |notes|, processed, order), |notes|)
    && goal == OpenChunks(files, aead, key, notes, PlanFrom(L, MaxValue, |notes|, processed, order), c, p)
  }

  /** `DecryptFile`; the output written before a failing chunk stays. */
  method DecryptFile(fs: FileStore, aead: Cipher, keyFile: DecryptionData, c: Path, p: Path) returns (error: Option<Error>)
    requires aead.KeepsLengths()
    requires c in fs.files
    requires |keyFile.KeyNoteList| >= 1
    modifies fs
    ensures var o := DecryptFileSpec(old(fs.files), aead, keyFile, c, p);
      fs.files == o.files && error == if o.failedAt.Some? then Some(AuthenticationFailure(o.failedAt.value)) else None
  {
    var L := |fs.files[c]|;
    var keyNoteList := keyFile.KeyNoteList;
    ghost var goal := DecryptFileSpec(fs.files, aead, keyFile, c, p);
    DecryptStart(fs.files, aead, keyFile, c, p);
    var processedBytes: nat := 0;
    var chunkCount: nat := 1;
    while processedBytes < L
      invariant Decrypting(goal, fs.files, aead, keyFile.Key, keyNoteList, L, processedBytes, chunkCount, c, p)
      decreases L - processedBytes
    {
      var ok, length := OpenNext(fs, aead, keyFile.Key, keyNoteList, L, processedBytes, chunkCount, goal, c, p);
      if !ok {
        return Some(AuthenticationFailure(chunkCount));
      }
      processedBytes := processedBytes + length;
      chunkCount := chunkCount + 1;
    }
    DecryptEnd(goal, fs.files, aead, keyFile.Key, keyNoteList, L, processedBytes, chunkCount, c, p);
    return None;
  }

  /**
   * The body of `DecryptFile`'s loop: open the chunk at `processedBytes`;
   * false where it fails to authenticate, which ends the run.
   */
  method OpenNext(fs: FileStore, aead: Cipher, key: seq<Byte>, keyNoteList: seq<DecryptionKeyNote>, L: nat,
                  processedBytes: nat, chunkCount: nat, ghost goal: Opened, c: Path, p: Path)
    returns (ok: bool, length: nat)
    requires aead.KeepsLengths()
    requires processedBytes < L
    requires Decrypting(goal, fs.files, aead, key, keyNoteList, L, processedBytes, chunkCount, c, p)
    modifies fs
    ensures length == if chunkCount == |keyNoteList| then L - processedBytes else MaxValue
    ensures !ok ==> goal == Opened(fs.files, Some(chunkCount))
    ensures ok ==> Decrypting(goal, fs.files, aead, key, keyNoteList, L, processedBytes + length, chunkCount + 1, c, p)
  {
    length := if chunkCount == |keyNoteList| then L - processedBytes else MaxValue;
    var cypherTxt := new Byte[length](_ => 0);
    assert cypherTxt.Length == length && forall i :: 0 <= i < cypherTxt.Length ==> cypherTxt[i] == 0;
    assert c in fs.files && (chunkCount == 1 || p in fs.files) && chunkCount - 1 < |keyNoteList|;
    ghost var before := fs.files;
    ok := DecryptFileChunk(fs, aead, key, keyNoteList[chunkCount - 1], cypherTxt, c, p, processedBytes, chunkCount);
    DecryptTurn(goal, before, fs.files, ok, aead, key, keyNoteList, L, processedBytes, chunkCount, c, p);
  }

  /** Before `DecryptFile`'s loop, all of the plan is still to come. */
  lemma DecryptStart(files: FileMap, aead: Cipher, data: DecryptionData, c: Path, p: Path)
    requires c in files && |data.KeyNoteList| >= 1
    ensures Decrypting(DecryptFileSpec(files, aead, data, c, p), files, aead, data.Key, data.KeyNoteList, |files[c]|, 0, 1, c, p)
  {
    PlanOrdersInRange(|files[c]|, MaxValue, |data.KeyNoteList|, 0, 1);
  }

  /** After `DecryptFile`'s loop, nothing is left to open. */
  lemma DecryptEnd(goal: Opened, files: FileMap, aead: Cipher, key: seq<Byte>, notes: seq<DecryptionKeyNote>,
                   L: nat, processed: nat, order: nat, c: Path, p: Path)
    requires Decrypting(goal, files, aead, key, notes, L, processed, order, c, p) && L <= processed
    ensures goal == Opened(files, None)
  {
  }

  /** One turn of `DecryptFile`'s loop: the chunk at `processed` either fails, ending the run, or leaves the rest to open. */
  lemma DecryptTurn(goal: Opened, before: FileMap, after: FileMap, ok: bool, aead: Cipher, key: seq<Byte>,
                    notes: seq<DecryptionKeyNote>, L: nat, processed: nat, order: nat, c: Path, p: Path)
    requires Decrypting(goal, before, aead, key, notes, L, processed, order, c, p) && processed < L
    requires var length := if order == |notes| then L - processed else MaxValue;
      var step := OpenStep(before, aead, key, notes[order - 1], Chunk(order, processed, length), c, p);
      ok == step.Some? && after == if ok then step.value else before
    ensures !ok ==> goal == Opened(after, Some(order))
    ensures ok ==> var length := if order == |notes| then L - processed else MaxValue;
      Decrypting(goal, after, aead, key, notes, L, processed + length, order + 1, c, p)
  {
    var n := |notes|;
    var length := if order == n then L - processed else MaxValue;
    var plan := PlanFrom(L, MaxValue, n, processed, order);
    PlanFromUnfold(L, MaxValue, n, processed, order);
    assert plan[0] == Chunk(order, processed, length);
    if ok {
      assert plan[1..] == PlanFrom(L, MaxValue, n, processed + length, order + 1);
      assert OrdersWithin(plan[1..], n) by {
        forall k | 0 <= k < |plan[1..]| ensures 1 <= plan[1..][k].order <= n {
          assert plan[1..][k] == plan[k + 1];
        }
      }
      if processed + length < L {
        assert plan[1].order == order + 1;
      }
    }
  }

  /** `Decrypt`. */
  method Decrypt(fs: FileStore, aead: Cipher, json: JsonCodec, keyFile: Path, cypherTxtFile: Path, plaintextFile: Path)
    returns (error: Option<Error>)
    requires aead.KeepsLengths()
    modifies fs
    ensures Outcome(error, fs.files, []) == DecryptSpec(old(fs.files), aead, json, keyFile, cypherTxtFile, plaintextFile)
  {
    if fs.Exists(keyFile) && fs.Exists(cypherTxtFile) {
      var data := Deserialize(fs, json, keyFile);
      if data.Failure? {
        return Some(data.error);
      }
      if |fs.files[cypherTxtFile]| == 0 {
        return Some(CipherFileEmpty);
      }
      error := DecryptFile(fs, aead, data.value, cypherTxtFile, plaintextFile);
    } else {
      if !fs.Exists(keyFile) {
        return Some(KeyFileMissing);
      }
      return Some(CipherFileMissing);
    }
  }
}
