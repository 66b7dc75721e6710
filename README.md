# ChaCha20-Poly1305 file encryption, modelled in Dafny

The library encrypts a file with ChaCha20-Poly1305 (section 2.8 of RFC 8439).
`Encrypt` cuts the plain-text file into chunks of `MaxValue` (1 000 000 000)
bytes and one final remainder. It seals each chunk with its own random
12-byte nonce and appends the cipher-text to the cipher-text file at the
chunk's offset. It writes a JSON key file beside it. The key file holds the
32-byte key as base64 (`Key`) and one note per chunk (`KeyNoteList`). Each
note holds the chunk number (`Order`) and its nonce and 16-byte tag as base64.
`Decrypt` reads the key file back and checks the key and note sizes. It
rebuilds the chunk boundaries from the cipher-text length and the number of
notes, opens each chunk with its note and writes the plain-text back at the
same offset.

The model is organised as follows:

- `FileStore` (files.dfy) is the file system, a map from path to bytes held
  by a class. Its methods mirror `ReadFileChunkFromOffset`,
  `AppendFileChunk` and `File.WriteAllTextAsync`.
- Every method of `ChaCha20Poly1305FileEncryption` is a Dafny method over the
  store. It is proved equal to a function of the store's old contents:
  `SealStep`/`SealChunks`/`EncryptFileSpec`/`EncryptSpec` for encryption,
  and `OpenStep`/`OpenChunks`/`DecryptFileSpec`/`DecryptSpec` for
  decryption.
- The loops keep their byte counter and chunk counter. `PlanFrom`
  (chunk_plan.dfy) is the loop's choice of chunk boundaries written as a
  function. `Split` is the ideal chunking it is compared with.
- `DecryptionKeyNote` and `DecryptionData` are datatypes. Each constructor is
  a function. `ValidateLength` and `Deserialize` are methods with their
  loops, proved against `LengthError` and `ReadKeyFile`.
- The cipher is a pair of functions, `Cipher.seal` and `Cipher.open`.
  `Cipher.Valid` states what an authenticated cipher guarantees:
  - sealing keeps lengths;
  - opening what was sealed gives it back;
  - opening accepts only what sealing produces.
- JSON is a `JsonCodec`, a writer and a parser over a tree of optional
  fields. `JsonCodec.Valid` says that parsing what was written gives back
  the tree.
- Base64 (section 4 of RFC 4648) is written out in full, with its round
  trip proved. The decoder skips space, tab, line feed and carriage return
  wherever they occur, as `Convert.FromBase64String` does, and decodes the
  characters that remain.

The headline result is `RoundTrip.EncryptThenDecrypt`. It assumes:

- a non-empty plain-text file and a 32-byte key;
- a random source that yields enough values for the nonces;
- a cipher-text path different from the plain-text path, the key-file path
  and the output path of `Decrypt`;
- a cipher that round-trips and authenticates (`Cipher.Valid`);
- a JSON codec that reads back what it writes (`JsonCodec.Valid`).

Then `Encrypt` succeeds, and `Decrypt` on the files it wrote succeeds and
reproduces the file byte for byte. Neither the source nor the model rejects
a cipher-text path equal to one of the others. With such a path one of the
files written overwrites another, and the round trip is not promised.

Two points of the nonce code are worth noting:

- Nonce count. The code draws `dataLength / MaxValue + 1` nonces, with
  integer division, so rounded down
  (FileEncryption/ChaCha20Poly1305FileEncryption.cs:128-131). `Math.Ceiling` is
  then applied to a value that is already whole, which suggests a rounded-up
  division was meant. The model follows the code as written.
  - `ChunkPlan.CeilDivVsNonceCount` proves that the count is one more than
    the number of chunks only when the length is a multiple of `MaxValue`.
    Otherwise it equals the number of chunks.
  - `ChunkPlan.EncryptionChunks` proves that it never falls short.
- Nonce uniqueness. The caller names the list `uniqueNonces`
  (FileEncryption/ChaCha20Poly1305FileEncryption.cs:66), and each new nonce
  is guarded by `Contains` (FileEncryption/ChaCha20Poly1305FileEncryption.cs:136),
  so the nonces are meant to be unique. That check compares array
  references, so it never rejects a repeat (see Findings).

## Model

| member | source | states |
|---|---|---|
| Aead.ValidKeepsLengths | FileEncryption/ChaCha20Poly1305FileEncryption.cs:107-116 | a cipher that round-trips and authenticates also returns, from `open`, exactly as many bytes as the cipher-text it was given, which is what the equal-size buffers rely on |
| Base64.DecodeEncode | FileEncryption/Types/DecryptionKeyNote.cs:26-33 | `FromBase64String(ToBase64String(b))` gives back `b` for every byte string |
| Base64.EncodeLength | FileEncryption/Types/DecryptionData.cs:19 | the base64 text of n bytes has 4 * ceil(n / 3) characters |
| Base64.DecodeNeedsWholeGroups | FileEncryption/Types/DecryptionData.cs:26 | a string whose characters other than white space do not make whole groups of four is rejected by the decoder |
| Base64.WhiteSpaceIsSkipped | FileEncryption/Types/DecryptionData.cs:26 | a space, tab, line feed or carriage return inserted anywhere does not change what a string decodes to |
| Base64.Strip | FileEncryption/Types/DecryptionKeyNote.cs:30-33 | the characters the decoder looks at: none is white space, and there are no more of them than the string has |
| Base64.BlockRoundTrip | FileEncryption/Types/DecryptionKeyNote.cs:26-33 | three bytes encoded as four characters decode back to the same three bytes |
| ChunkPlan.EncryptionChunks | FileEncryption/ChaCha20Poly1305FileEncryption.cs:66-91 | the encryption loop on L >= 1 bytes visits ceil(L / MaxValue) chunks, numbered 1, 2, ..; chunk k starts at k * MaxValue; all but the last hold exactly MaxValue bytes; every chunk holds 1..MaxValue bytes; the lengths add up to L; the nonce count is never smaller than the chunk count |
| ChunkPlan.CeilDivVsNonceCount | FileEncryption/ChaCha20Poly1305FileEncryption.cs:125-131 | the nonces drawn number ceil(L / MaxValue), plus one exactly when L is a multiple of MaxValue |
| ChunkPlan.DecryptionChunks | FileEncryption/ChaCha20Poly1305FileEncryption.cs:199-222 | given as many notes as encryption made chunks, the decryption loop visits exactly the chunks the encryption loop visited |
| ChunkPlan.SplitShape | FileEncryption/ChaCha20Poly1305FileEncryption.cs:71-91 | the ideal chunking of the bytes from `processed` on has ceil(rest / M) chunks, numbered consecutively, each of 1..M bytes, all but the last of M bytes, covering exactly the rest |
| ChunkPlan.NoncePlanIsSplit | FileEncryption/ChaCha20Poly1305FileEncryption.cs:73-75 | with the nonce count `GetNonces` draws, the loop's boundary rule gives the ideal chunking; a file whose length is a multiple of MaxValue never reaches the last nonce |
| ChunkPlan.ChunkCountPlanIsSplit | FileEncryption/ChaCha20Poly1305FileEncryption.cs:205-207 | with exactly as many notes as ideal chunks, the decryption loop's boundary rule gives the ideal chunking |
| ChunkPlan.PlanOrdersInRange | FileEncryption/ChaCha20Poly1305FileEncryption.cs:80 | for any non-empty list, the chunk numbers the loop reaches run consecutively and never exceed the list length, so `uniqueNonces[chunkCount - 1]` and `keyNoteList[chunkCount - 1]` are in range |
| ChunkPlan.TwoChunks | FileEncryption/ChaCha20Poly1305FileEncryption.cs:71-91 | a file one byte longer than MaxValue, with two nonces, is cut into a chunk of MaxValue bytes under nonce 1 and a chunk of one byte under nonce 2 |
| ChunkPlan.PlanFromLayout | FileEncryption/ChaCha20Poly1305FileEncryption.cs:71-91 | whatever the list length, the loop's chunks are contiguous from the start offset and consecutively numbered |
| ChunkPlan.SplitOffsets | FileEncryption/ChaCha20Poly1305FileEncryption.cs:85-89 | each chunk's offset is the sum of the lengths of the chunks before it |
| Files.ReadAtContents | FileEncryption/ChaCha20Poly1305FileEncryption.cs:289-290 | a read inside the file returns that slice of it; positions past the end read as zero |
| Files.WriteAtContents | FileEncryption/ChaCha20Poly1305FileEncryption.cs:271-272 | after a write at `offset` the written range holds the data and every other byte is unchanged |
| Files.WriteAtEnd | FileEncryption/ChaCha20Poly1305FileEncryption.cs:256-273 | writing at the current end of a file appends to it |
| Files.ReadIntoZeroedBuffer | FileEncryption/ChaCha20Poly1305FileEncryption.cs:73-75 | a freshly zeroed buffer filled by `ReadFileChunkFromOffset` holds exactly the chunk, zero-padded past the end of the file |
| Files.FileStore.ReadFileChunkFromOffset | FileEncryption/ChaCha20Poly1305FileEncryption.cs:275-293 | the buffer receives the file's bytes from `offset` on where the file has them and keeps its old bytes elsewhere; the buffer itself is returned |
| Files.FileStore.AppendFileChunk | FileEncryption/ChaCha20Poly1305FileEncryption.cs:256-273 | chunk 1 starts the output file afresh and later chunks extend the existing one; the data lands at `offset`; no other file changes |
| Files.FileStore.WriteAllText | FileEncryption/ChaCha20Poly1305FileEncryption.cs:51-54 | the key file is created or replaced with the text; no other file changes |
| KeyNotes.FromBytes | FileEncryption/Types/DecryptionKeyNote.cs:22-28 | the note keeps the nonce, tag and order given, and its strings are their base64 encodings |
| KeyNotes.FromBytesDecodes | FileEncryption/Types/DecryptionKeyNote.cs:22-28 | the strings of a note built from bytes decode back to those bytes |
| KeyNotes.FromStrings | FileEncryption/Types/DecryptionKeyNote.cs:30-37 | succeeds exactly when both strings decode as base64 (white space skipped), otherwise fails as a malformed string; on success the bytes are the decoded strings and the strings and order are kept |
| KeyNotes.BytesThenStrings | FileEncryption/Types/DecryptionKeyNote.cs:22-37 | building a note from bytes and then from the strings it produced gives the identical note |
| KeyNotes.CoherentFromStrings | FileEncryption/Types/DecryptionKeyNote.cs:30-37 | any note whose strings encode its bytes is rebuilt exactly by the string constructor |
| KeyNotes.ToEntrySerialisesStringsOnly | FileEncryption/Types/DecryptionKeyNote.cs:6-20 | two notes serialise alike if and only if they agree on Order and the two base64 strings; the byte fields are not written |
| KeyFile.NoteLengthError | FileEncryption/Types/DecryptionData.cs:40-60 | None exactly when every note from index i on has a 16-byte tag and a 12-byte nonce; otherwise it reports the first bad note, checking its tag before its nonce, with the offending length |
| KeyFile.LengthError | FileEncryption/Types/DecryptionData.cs:32-61 | None exactly when the key is 32 bytes and every note is well sized; a wrong key length is reported before any note |
| KeyFile.ValidateLength | FileEncryption/Types/DecryptionData.cs:32-61 | the counting loop reports exactly the error `LengthError` defines, or none |
| KeyFile.FromKeyBytes | FileEncryption/Types/DecryptionData.cs:17-22 | succeeds exactly when the lengths validate, with the `ValidateLength` error otherwise; a result keeps the key and notes, holds the key's base64 encoding as its key string and has valid sizes |
| KeyFile.NewFromKeyBytes | FileEncryption/Types/DecryptionData.cs:17-22 | assigning the fields and then validating gives `FromKeyBytes` |
| KeyFile.FromKeyBytesDecodes | FileEncryption/Types/DecryptionData.cs:17-19 | the stored key string decodes back to the key |
| KeyFile.FromKeyBytesCoherent | FileEncryption/Types/DecryptionData.cs:17-22 | from coherent notes the byte constructor builds a record whose strings encode its bytes |
| KeyFile.FromKeyString | FileEncryption/Types/DecryptionData.cs:24-30 | a key string that does not decode as base64 (white space skipped) fails; otherwise it succeeds exactly when the decoded key and the notes validate; a result holds the decoded key, the string and the notes in order |
| KeyFile.NewFromKeyString | FileEncryption/Types/DecryptionData.cs:24-30 | decoding the key, copying the notes and validating gives `FromKeyString` |
| KeyFile.NotesFrom | FileEncryption/Types/DecryptionData.cs:84-112 | the read succeeds exactly when every entry is complete and its strings decode, with one note per entry; otherwise the first entry that does not read decides the failure: its index when it lacks Nonce, Tag or Order, a malformed string when a string does not decode |
| KeyFile.NotesReadFromEntries | FileEncryption/Types/DecryptionData.cs:86-111 | note j of a successful read carries the order and the strings of entry j, in array order |
| KeyFile.EntriesRoundTrip | FileEncryption/Types/DecryptionData.cs:84-111 | reading the entries written for coherent notes gives back those notes |
| KeyFile.Interpret | FileEncryption/Types/DecryptionData.cs:76-116 | an entry that does not read fails as `NotesFrom` reports it; when every entry reads, a missing or empty note list or a missing key is an invalid key file, and otherwise the result is the string constructor applied to the "Key" string and the notes read in array order (so a malformed key string or a bad size fails as that constructor does); a result holds the decoded key, the "Key" string and exactly those notes, at least one, with valid sizes |
| KeyFile.ReadKeyFile | FileEncryption/Types/DecryptionData.cs:67-121 | a missing key file is reported as such; text that does not parse is malformed JSON; a parsed file is interpreted as `Interpret` says; a key file that is read has valid sizes and at least one note |
| KeyFile.Deserialize | FileEncryption/Types/DecryptionData.cs:67-121 | the method, with its loop over the note entries, returns exactly `ReadKeyFile` of the store |
| KeyFile.SerialiseThenInterpret | FileEncryption/Types/DecryptionData.cs:63-116 | reading back what `ToString` writes for a coherent, validly sized record with at least one note gives the same key bytes, key string and notes |
| KeyFile.EmptyNoteListIsRejected | FileEncryption/Types/DecryptionData.cs:114-116 | a record with no notes is written but never read back: it is an invalid key file |
| Nonces.GetNonce | FileEncryption/ChaCha20Poly1305FileEncryption.cs:147-151 | a fresh 12-byte array holding the next random value, which the source then no longer yields |
| Nonces.Draw | FileEncryption/ChaCha20Poly1305FileEncryption.cs:131-141 | drawing keeps the nonces already taken as a prefix, yields exactly `count` nonces and leaves a suffix of the stream |
| Nonces.DrawDistinct | FileEncryption/ChaCha20Poly1305FileEncryption.cs:131-141 | the nonces drawn with the duplicate check by value are pairwise different |
| Nonces.DrawFromStream | FileEncryption/ChaCha20Poly1305FileEncryption.cs:131-141 | every nonce drawn beyond those already taken is a value the random source yielded |
| Nonces.DrawFreshStream | FileEncryption/ChaCha20Poly1305FileEncryption.cs:131-141 | from a stream that never repeats, the nonces are its first values and nothing is skipped |
| Nonces.GetNonces | FileEncryption/ChaCha20Poly1305FileEncryption.cs:125-144 | the method draws exactly `Draw` of the stream, floor(L / MaxValue) + 1 nonces, and leaves the rest of the stream; it fails only when the stream runs out |
| Nonces.DrawByReference | FileEncryption/ChaCha20Poly1305FileEncryption.cs:132-140 | with the check by reference every draw is kept: the nonces are the stream's first `count` values |
| Nonces.GetNoncesAsWritten | FileEncryption/ChaCha20Poly1305FileEncryption.cs:125-144 | the method as written returns `count` fresh arrays holding the stream's first `count` values, repeats included |
| Nonces.RepeatedDrawIsKept | FileEncryption/ChaCha20Poly1305FileEncryption.cs:136 | a file of `MaxValue + 1` bytes draws two nonces and makes two chunks that use both; from a stream that yields the same value twice, the code as written keeps both copies while the check by value skips the repeat |
| FileEncryption.SealStep | FileEncryption/ChaCha20Poly1305FileEncryption.cs:97-122 | one chunk changes only the cipher-text file, which then exists; the note carries the nonce used and the chunk number |
| FileEncryption.SealChunks | FileEncryption/ChaCha20Poly1305FileEncryption.cs:71-91 | sealing a plan adds one note per chunk and changes no file but the cipher-text file |
| FileEncryption.SealFirst | FileEncryption/ChaCha20Poly1305FileEncryption.cs:73-90 | sealing the first chunk of a plan and then the rest adds one note per chunk, changes only the cipher-text file, and leaves that file in place |
| FileEncryption.EncryptFileSpec | FileEncryption/ChaCha20Poly1305FileEncryption.cs:59-94 | a key that is not 32 bytes fails before anything is drawn or written; running out of random values writes nothing; only the cipher-text file changes |
| FileEncryption.KeyPath | FileEncryption/ChaCha20Poly1305FileEncryption.cs:45-47 | without a key file name the key file is the cipher-text path with ".key" appended; otherwise it is the name given |
| FileEncryption.EncryptSpec | FileEncryption/ChaCha20Poly1305FileEncryption.cs:27-55 | a missing or empty plain-text file is rejected with nothing changed; a wrong key size changes no file; success leaves the cipher-text file and the key file in place |
| FileEncryption.EncryptedFileExists | FileEncryption/ChaCha20Poly1305FileEncryption.cs:71-91 | encrypting a non-empty file creates the cipher-text file |
| FileEncryption.OpenStep | FileEncryption/ChaCha20Poly1305FileEncryption.cs:226-248 | a chunk that authenticates changes only the plain-text output file, which then exists; a tag mismatch writes nothing |
| FileEncryption.OpenChunks | FileEncryption/ChaCha20Poly1305FileEncryption.cs:203-222 | opening the chunks in order changes no file but the output file |
| FileEncryption.FailedChunkIsPlanned | FileEncryption/ChaCha20Poly1305FileEncryption.cs:209-218 | a run that stops reports the number of one of the chunks it was to open |
| FileEncryption.DecryptFileSpec | FileEncryption/ChaCha20Poly1305FileEncryption.cs:192-223 | decrypting with a key file record changes no file but the output file |
| FileEncryption.DecryptSpec | FileEncryption/ChaCha20Poly1305FileEncryption.cs:158-188 | a missing key file is reported first, then a missing cipher-text file, then a key file that does not read, then an empty cipher-text file; each leaves the files unchanged; nothing but the output file ever changes |
| FileEncryption.EncryptFileChunk | FileEncryption/ChaCha20Poly1305FileEncryption.cs:97-122 | the method reads, seals, appends and returns exactly the files and note of `SealStep` |
| FileEncryption.EncryptFile | FileEncryption/ChaCha20Poly1305FileEncryption.cs:59-94 | the method, with its nonce draw and chunk loop, yields exactly the result, files and remaining random stream of `EncryptFileSpec` |
| FileEncryption.SealFile | FileEncryption/ChaCha20Poly1305FileEncryption.cs:71-91 | the chunk loop leaves the files and returns the notes that `SealChunks` gives for the loop's chunk plan |
| FileEncryption.SealNext | FileEncryption/ChaCha20Poly1305FileEncryption.cs:73-90 | one turn of the loop takes MaxValue bytes, or all that remain when the chunk number equals the nonce count; what the rest of the loop then gives (`SealRest`) is unchanged |
| FileEncryption.EncryptFileSealed | FileEncryption/ChaCha20Poly1305FileEncryption.cs:59-94 | once the nonces are drawn, `EncryptFileSpec` is the sealed chunks with the key data built from their notes |
| FileEncryption.EncryptStart | FileEncryption/ChaCha20Poly1305FileEncryption.cs:67-69 | before the loop, with no note written, what the loop gives (`SealRest` from byte 0 and chunk 1) is the sealing of the whole plan |
| FileEncryption.EncryptTurn | FileEncryption/ChaCha20Poly1305FileEncryption.cs:73-90 | sealing the chunk at the byte counter and appending its note leaves what the rest of the loop gives unchanged |
| FileEncryption.PlanFromUnfold | FileEncryption/ChaCha20Poly1305FileEncryption.cs:73-75 | the loop's next chunk starts at the byte counter and takes MaxValue bytes, or the rest when its number equals the list length |
| FileEncryption.Encrypt | FileEncryption/ChaCha20Poly1305FileEncryption.cs:27-55 | the method yields exactly the error, files and remaining random stream of `EncryptSpec` |
| FileEncryption.DecryptFileChunk | FileEncryption/ChaCha20Poly1305FileEncryption.cs:226-248 | the method reads, opens and appends exactly as `OpenStep`, and reports a tag mismatch with nothing written |
| FileEncryption.DecryptFile | FileEncryption/ChaCha20Poly1305FileEncryption.cs:192-223 | the chunk loop yields exactly the files and the failing chunk, if any, of `DecryptFileSpec` |
| FileEncryption.OpenNext | FileEncryption/ChaCha20Poly1305FileEncryption.cs:205-221 | one turn of the loop takes MaxValue bytes or the rest; a chunk that fails ends the run at that chunk's number, and otherwise the loop invariant is kept |
| FileEncryption.DecryptStart | FileEncryption/ChaCha20Poly1305FileEncryption.cs:198-201 | before the loop all chunks are still to be opened |
| FileEncryption.DecryptTurn | FileEncryption/ChaCha20Poly1305FileEncryption.cs:205-221 | opening the chunk at the byte counter either ends the run at that chunk or keeps the loop invariant |
| FileEncryption.DecryptEnd | FileEncryption/ChaCha20Poly1305FileEncryption.cs:203 | when the byte counter reaches the cipher-text length, every chunk has been opened |
| FileEncryption.Decrypt | FileEncryption/ChaCha20Poly1305FileEncryption.cs:158-188 | the method yields exactly the error and files of `DecryptSpec` |
| RoundTrip.SealedNotes | FileEncryption/ChaCha20Poly1305FileEncryption.cs:77-87 | the notes of a sealing run are the notes already written followed by, per chunk, its nonce, its tag and its number |
| RoundTrip.SealedFile | FileEncryption/ChaCha20Poly1305FileEncryption.cs:71-91 | sealing a contiguous plan numbered from 1 into a separate file leaves in that file the chunk cipher-texts laid end to end |
| RoundTrip.SealedFileAppends | FileEncryption/ChaCha20Poly1305FileEncryption.cs:119 | each later chunk's cipher-text is appended to what the cipher-text file already holds |
| RoundTrip.SealedTextFlattens | FileEncryption/ChaCha20Poly1305FileEncryption.cs:71-91 | the cipher-text file's content is the per-chunk cipher-texts in chunk order |
| RoundTrip.PiecesCover | FileEncryption/ChaCha20Poly1305FileEncryption.cs:71-91 | the chunks of a contiguous plan covering a file, laid end to end, are the file |
| RoundTrip.FlattenLength | FileEncryption/ChaCha20Poly1305FileEncryption.cs:89 | chunks of the planned lengths laid end to end are as long as the plan's total |
| RoundTrip.EncryptFileWrites | FileEncryption/ChaCha20Poly1305FileEncryption.cs:59-94 | a successful `EncryptFile` writes the concatenated chunk cipher-texts as the whole cipher-text file and returns the key with one note per chunk |
| RoundTrip.NotesOfNumberedDistinct | FileEncryption/ChaCha20Poly1305FileEncryption.cs:77-87 | from distinct nonces, the notes are numbered 1, 2, .., encode their bytes, and carry pairwise different nonces |
| RoundTrip.EncryptFileLayout | FileEncryption/ChaCha20Poly1305FileEncryption.cs:59-94 | encryption leaves the plain-text file alone and makes a cipher-text file as long as it, with ceil(L / MaxValue) coherent notes numbered 1, 2, ..; the nonces are pairwise different because the model draws them with the by-value `Nonces.GetNonces`, not with the reference comparison as written |
| RoundTrip.ChunksAuthenticate | FileEncryption/ChaCha20Poly1305FileEncryption.cs:107-116 | every chunk cipher-text opens under the nonce and tag recorded for its number, giving back that chunk of the plain-text |
| RoundTrip.OpenSeparate | FileEncryption/ChaCha20Poly1305FileEncryption.cs:203-222 | if every chunk authenticates, the run does not stop and the output file is the opened chunks laid end to end |
| RoundTrip.DecryptSealed | FileEncryption/ChaCha20Poly1305FileEncryption.cs:192-223 | decrypting the cipher-text file with the key data from sealing restores the plain-text without failure |
| RoundTrip.DecryptFileRestores | FileEncryption/ChaCha20Poly1305FileEncryption.cs:192-223 | `DecryptFile` with the record `EncryptFile` returned restores the plain-text from the cipher-text file |
| RoundTrip.EncryptThenDecrypt | FileEncryption/ChaCha20Poly1305FileEncryption.cs:27-188 | for a valid cipher and JSON codec, a random source long enough for the nonces, and a cipher-text path different from the plain-text, key-file and output paths: `Encrypt` of a non-empty file with a 32-byte key succeeds, and `Decrypt` with its key file and cipher-text file succeeds and reproduces the file exactly |

## Left out

- Asynchronous I/O, `FileStream` buffering, sharing modes and disposal are left out. A file is a byte sequence in a map. Each read and write is one step.
- `FileInfo.Length` is read once per operation, as the cached property does. A file changed concurrently during encryption or decryption is not modelled.
- The `ChaCha20Poly1305FileEncryption` constructor only queries platform support. `PlatformSupported` is not part of this model.
- The random number generator is a finite stream of values supplied by the caller. The model adds one error, the stream running out, which the source cannot have.
- The cipher's internals are not modelled. ChaCha20-Poly1305 is a pair of functions, and its properties are the hypotheses `Cipher.KeepsLengths` and `Cipher.Valid`.
- JSON text, the serializer options and `JsonElement` typing are not modelled. The key file is a tree of optional fields read through a `JsonCodec`. A field of the wrong JSON type is not modelled separately from a missing one.
- `Order` is an unbounded integer. The 32-bit range of `GetInt32` is not modelled, and `Order` is kept as read and never checked, as in the source.
- Lengths, offsets and counters are unbounded naturals. Overflow of the source's 64-bit `long` offsets and 32-bit `int` chunk counter is not modelled; it would take a file of more than 2^31 chunks.
- The encryption loop of `EncryptFile` is written as the method `SealFile` with its body in `SealNext`. The decryption loop body is `OpenNext`. The code is the same, split so that each piece can be verified.
- FileEncryption.EncryptFile, FileEncryption.Encrypt, FileEncryption.DecryptFile, FileEncryption.Decrypt, FileEncryption.EncryptFileChunk, FileEncryption.DecryptFileChunk: they require `Cipher.KeepsLengths`, the length guarantee the library's buffer sizes rely on. A cipher breaking it would throw in the library and is not modelled.
- Files.FileStore.ReadFileChunkFromOffset: requires the file to exist. Every caller has checked that or created the file; the source would throw otherwise.
- Nonces.GetNonces: compares nonces by value, which is stronger than the source's reference comparison (see Findings). The rest of the model uses it.
- Forgery resistance is a property of the cipher and is not proved; the model only assumes it through `Cipher.Valid`.

## Findings

| source | as written | input that shows it | evidently intended | confidence | as-written member | corrected member |
|---|---|---|---|---|---|---|
| FileEncryption/ChaCha20Poly1305FileEncryption.cs:136 | `nonces.Contains(nonce)` on a `List<byte[]>` compares array references; every draw is a fresh array, so a repeated random value is never rejected (`RepeatedDrawIsKept`) | a file of `MaxValue + 1` bytes (two nonces, two chunks of `MaxValue` bytes and 1 byte) with a generator that yields the same 12 bytes twice: both chunks are sealed under the same nonce | reject a nonce whose bytes equal an earlier one, so that every nonce is unique (`DrawDistinct`) | not executed | Nonces.GetNoncesAsWritten | Nonces.GetNonces |
