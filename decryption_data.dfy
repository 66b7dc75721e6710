/**
 * `DecryptionData`: the content of the key file.  It holds the key twice,
 * as bytes (`Key`, left out of the JSON) and as a base64 string (`key`,
 * written as "Key"), and the list of key notes in chunk order.  Both
 * constructors end with `ValidateLength`, which rejects a key that is not
 * 32 bytes and then the first note whose tag is not 16 bytes or whose
 * nonce is not 12 bytes.  The JSON text is not modelled: a key file is a
 * tree of optional fields (`KeyFileDoc`), and a `JsonCodec` turns such a
 * tree into bytes and back.
 */
module KeyFile {
  import opened Wrappers
  import opened Bytes
  import opened Errors
  import opened Base64
  import opened KeyNotes
  import opened Files
  import opened Sequences

  datatype DecryptionData = DecryptionData(Key: seq<Byte>, key: string, KeyNoteList: seq<DecryptionKeyNote>)

  const KeyBytes: nat := 32
  const TagBytes: nat := 16
  const NonceBytes: nat := 12

  predicate WellSized(note: DecryptionKeyNote) {
    |note.Tag| == TagBytes && |note.Nonce| == NonceBytes
  }

  /** What every successfully constructed `DecryptionData` satisfies. */
  predicate SizesValid(d: DecryptionData) {
    |d.Key| == KeyBytes && forall j :: 0 <= j < |d.KeyNoteList| ==> WellSized(d.KeyNoteList[j])
  }

  /**
   * `e` is the error `ValidateLength` reports for note `e.index`: the tag
   * of that note is checked before its nonce.
   */
  predicate ReportsNote(notes: seq<DecryptionKeyNote>, e: Error) {
    && (e.TagLength? || e.NonceLength?)
    && e.index < |notes|
    && (e.TagLength? ==> |notes[e.index].Tag| != TagBytes && e.length == |notes[e.index].Tag|)
    && (e.NonceLength? ==> |notes[e.index].Tag| == TagBytes && |notes[e.index].Nonce| != NonceBytes
                           && e.length == |notes[e.index].Nonce|)
  }

  /** The first length violation among the notes from index `i` on. */
  function NoteLengthError(notes: seq<DecryptionKeyNote>, i: nat): (r: Option<Error>)
    requires i <= |notes|
    ensures r.None? <==> forall j :: i <= j < |notes| ==> WellSized(notes[j])
    ensures r.Some? ==> ReportsNote(notes, r.value) && i <= r.value.index
    ensures r.Some? ==> forall j :: i <= j < r.value.index ==> WellSized(notes[j])
    decreases |notes| - i
  {
    if i == |notes| then None
    else if |notes[i].Tag| != TagBytes then Some(TagLength(i, |notes[i].Tag|))
    else if |notes[i].Nonce| != NonceBytes then Some(NonceLength(i, |notes[i].Nonce|))
    else NoteLengthError(notes, i + 1)
  }

  /** What `ValidateLength` reports for a key and a note list; None when it passes. */
  function LengthError(Key: seq<Byte>, notes: seq<DecryptionKeyNote>): (r: Option<Error>)
    ensures r.None? <==> |Key| == KeyBytes && forall j :: 0 <= j < |notes| ==> WellSized(notes[j])
    ensures |Key| != KeyBytes ==> r == Some(KeyLength(|Key|))
    ensures r.Some? && !r.value.KeyLength? ==> |Key| == KeyBytes && ReportsNote(notes, r.value)
    ensures r.Some? && !r.value.KeyLength? ==> forall j :: 0 <= j < r.value.index ==> WellSized(notes[j])
  {
    if |Key| != KeyBytes then Some(KeyLength(|Key|)) else NoteLengthError(notes, 0)
  }

  /**
   * `ValidateLength`: checks the key, then walks the notes in order with a
   * counter and stops at the first bad one.
   */
  method ValidateLength(data: DecryptionData) returns (r: Option<Error>)
    ensures r == LengthError(data.Key, data.KeyNoteList)
  {
    if |data.Key| != KeyBytes {
      return Some(KeyLength(|data.Key|));
    }
    var ntpCount := 0;
    while ntpCount < |data.KeyNoteList|
      invariant 0 <= ntpCount <= |data.KeyNoteList|
      invariant NoteLengthError(data.KeyNoteList, 0) == NoteLengthError(data.KeyNoteList, ntpCount)
    {
      var ntp := data.KeyNoteList[ntpCount];
      if |ntp.Tag| != TagBytes {
        return Some(TagLength(ntpCount, |ntp.Tag|));
      }
      if |ntp.Nonce| != NonceBytes {
        return Some(NonceLength(ntpCount, |ntp.Nonce|));
      }
      ntpCount := ntpCount + 1;
    }
    return None;
  }

  /** The constructor taking key bytes: `key` is their base64 encoding, the list is kept as given. */
  function FromKeyBytes(Key: seq<Byte>, notes: seq<DecryptionKeyNote>): (r: Result<DecryptionData, Error>)
    ensures r.Success? <==> LengthError(Key, notes).None?
    ensures r.Failure? ==> Some(r.error) == LengthError(Key, notes)
    ensures r.Success? ==> r.value.Key == Key && r.value.key == Encode(Key) && r.value.KeyNoteList == notes
    ensures r.Success? ==> SizesValid(r.value)
  {
    var d := DecryptionData(Key, Encode(Key), notes);
    match LengthError(Key, notes)
    case Some(e) => Failure(e)
    case None => Success(d)
  }

  /**
   * The constructor taking a key string (the one deserialisation uses):
   * `Key` is the decoded string, which fails on a string that is not
   * base64; the notes are copied in order.
   */
  function FromKeyString(key: string, notes: seq<DecryptionKeyNote>): (r: Result<DecryptionData, Error>)
    ensures Decode(key).None? ==> r == Failure(MalformedBase64)
    ensures Decode(key).Some? ==> (r.Success? <==> LengthError(Decode(key).value, notes).None?)
    ensures Decode(key).Some? && r.Failure? ==> Some(r.error) == LengthError(Decode(key).value, notes)
    ensures r.Success? ==> Decode(key) == Some(r.value.Key) && r.value.key == key && r.value.KeyNoteList == notes
    ensures r.Success? ==> SizesValid(r.value)
  {
    match Decode(key)
    case None => Failure(MalformedBase64)
    case Some(Key) =>
      match LengthError(Key, notes)
      case Some(e) => Failure(e)
      case None => Success(DecryptionData(Key, key, notes))
  }

  /** The byte constructor as it runs: assign the fields, then `ValidateLength`. */
  method NewFromKeyBytes(Key: seq<Byte>, nonceTagPair: seq<DecryptionKeyNote>) returns (r: Result<DecryptionData, Error>)
    ensures r == FromKeyBytes(Key, nonceTagPair)
  {
    var data := DecryptionData(Key, Encode(Key), nonceTagPair);
    var e := ValidateLength(data);
    r := if e.Some? then Failure(e.value) else Success(data);
  }

  /** The string constructor as it runs: decode the key, copy the notes, then `ValidateLength`. */
  method NewFromKeyString(key: string, nonceTagPair: seq<DecryptionKeyNote>) returns (r: Result<DecryptionData, Error>)
    ensures r == FromKeyString(key, nonceTagPair)
  {
    var Key := Decode(key);
    if Key.None? {
      return Failure(MalformedBase64);
    }
    var KeyNoteList: seq<DecryptionKeyNote> := [];
    KeyNoteList := KeyNoteList + nonceTagPair;
    assert KeyNoteList == nonceTagPair;
    var data := DecryptionData(Key.value, key, KeyNoteList);
    var e := ValidateLength(data);
    r := if e.Some? then Failure(e.value) else Success(data);
  }

  // ------------------------------------------------------------- the JSON tree

  /** The key file as a tree: "Key" and "KeyNoteList", each possibly absent. */
  datatype KeyFileDoc = KeyFileDoc(Key: Option<string>, KeyNoteList: Option<seq<NoteEntry>>)

  /** A JSON writer and reader for key files; `Valid` when reading back what was written gives the same tree. */
  datatype JsonCodec = JsonCodec(write: KeyFileDoc -> seq<Byte>, parse: seq<Byte> -> Option<KeyFileDoc>) {
    ghost predicate Valid() {
      forall doc :: parse(write(doc)) == Some(doc)
    }
  }

  function Entries(notes: seq<DecryptionKeyNote>): (entries: seq<NoteEntry>)
    ensures |entries| == |notes|
  {
    if notes == [] then [] else [ToEntry(notes[0])] + Entries(notes[1..])
  }

  /** `ToString`: the record the serializer writes, "Key" and every note's "Nonce", "Tag" and "Order". */
  function ToDoc(d: DecryptionData): KeyFileDoc {
    KeyFileDoc(Some(d.key), Some(Entries(d.KeyNoteList)))
  }

  function PrependNotes(acc: seq<DecryptionKeyNote>, r: Result<seq<DecryptionKeyNote>, Error>): Result<seq<DecryptionKeyNote>, Error> {
    match r
    case Failure(e) => Failure(e)
    case Success(rest) => Success(acc + rest)
  }

  predicate Complete(e: NoteEntry) {
    e.Nonce.Some? && e.Tag.Some? && e.Order.Some?
  }

  /** A complete entry whose strings are both base64: the note constructor accepts it. */
  predicate Readable(e: NoteEntry) {
    Complete(e) && Decode(e.Nonce.value).Some? && Decode(e.Tag.value).Some?
  }

  /** Entries `i` up to, but not including, `j` are all readable. */
  predicate ReadableUpTo(entries: seq<NoteEntry>, i: nat, j: nat)
    requires i <= j <= |entries|
  {
    forall k :: i <= k < j ==> Readable(entries[k])
  }

  /** `note` was read from `e`: the entry is complete and the note keeps its strings and order. */
  predicate ReadFrom(note: DecryptionKeyNote, e: NoteEntry) {
    Complete(e) && note.Order == e.Order.value && note.nonce == e.Nonce.value && note.tag == e.Tag.value
  }

  /**
   * The notes read from entries `i..`: an entry lacking a field is rejected
   * by its index, an entry whose strings are not base64 makes the note
   * constructor fail, and the others become notes in array order.
   */
  function NotesFrom(entries: seq<NoteEntry>, i: nat): (r: Result<seq<DecryptionKeyNote>, Error>)
    requires i <= |entries|
    ensures r.Success? <==> forall j :: i <= j < |entries| ==> Readable(entries[j])
    ensures r.Success? ==> |r.value| == |entries| - i
    ensures forall j :: i <= j < |entries| && ReadableUpTo(entries, i, j) && !Complete(entries[j]) ==>
      r == Failure(NoteEntryInvalid(j))
    ensures forall j :: i <= j < |entries| && ReadableUpTo(entries, i, j) && Complete(entries[j]) && !Readable(entries[j]) ==>
      r == Failure(MalformedBase64)
    decreases |entries| - i
  {
    if i == |entries| then Success([])
    else
      var e := entries[i];
      if !Complete(e) then Failure(NoteEntryInvalid(i))
      else
        match FromStrings(e.Nonce.value, e.Tag.value, e.Order.value)
        case Failure(err) => Failure(err)
        case Success(note) =>
          var rest := NotesFrom(entries, i + 1);
          if rest.Failure? then Failure(rest.error)
          else Success([note] + rest.value)
  }

  /** Note j of a successful read holds the order and the strings of entry i + j. */
  lemma {:induction false} NotesReadFromEntries(entries: seq<NoteEntry>, i: nat)
    requires i <= |entries|
    requires NotesFrom(entries, i).Success?
    ensures var notes := NotesFrom(entries, i).value;
      forall j :: 0 <= j < |notes| ==> ReadFrom(notes[j], entries[i + j])
    decreases |entries| - i
  {
    if i < |entries| {
      var e := entries[i];
      assert Complete(e);
      var note := FromStrings(e.Nonce.value, e.Tag.value, e.Order.value);
      assert note.Success?;
      var rest := NotesFrom(entries, i + 1);
      assert rest.Success?;
      var notes := NotesFrom(entries, i).value;
      assert notes == [note.value] + rest.value;
      NotesReadFromEntries(entries, i + 1);
      forall j | 0 <= j < |notes| ensures ReadFrom(notes[j], entries[i + j]) {
        if j > 0 {
          assert notes[j] == rest.value[j - 1];
        }
      }
    }
  }

  /**
   * The key file tree as `Deserialize` reads it: first the notes, then the
   * check that a key and at least one note were read, then the string
   * constructor.  `Order` values are kept as read; they are not checked.
   */
  function Interpret(doc: KeyFileDoc): (r: Result<DecryptionData, Error>)
    ensures doc.KeyNoteList.None? || doc.KeyNoteList == Some([]) ==> r == Failure(KeyFileInvalid)
    ensures doc.Key.None? ==> r.Failure?
    ensures doc.KeyNoteList.Some? && ReadableUpTo(doc.KeyNoteList.value, 0, |doc.KeyNoteList.value|) ==>
      (doc.Key.None? || doc.KeyNoteList.value == [] ==> r == Failure(KeyFileInvalid))
    ensures doc.KeyNoteList.Some? && !ReadableUpTo(doc.KeyNoteList.value, 0, |doc.KeyNoteList.value|) ==>
      NotesFrom(doc.KeyNoteList.value, 0).Failure? && r == Failure(NotesFrom(doc.KeyNoteList.value, 0).error)
    ensures r.Success? ==> doc.Key.Some? && doc.KeyNoteList.Some?
    ensures r.Success? ==> ReadableUpTo(doc.KeyNoteList.value, 0, |doc.KeyNoteList.value|)
    ensures doc.Key.Some? && doc.KeyNoteList.Some? && doc.KeyNoteList.value != [] ==>
      (ReadableUpTo(doc.KeyNoteList.value, 0, |doc.KeyNoteList.value|) ==>
        r == FromKeyString(doc.Key.value, NotesFrom(doc.KeyNoteList.value, 0).value))
    ensures r.Success? ==>
      && Decode(doc.Key.value) == Some(r.value.Key) && r.value.key == doc.Key.value
      && r.value.KeyNoteList == NotesFrom(doc.KeyNoteList.value, 0).value
    ensures r.Success? ==> |r.value.KeyNoteList| == |doc.KeyNoteList.value| >= 1 && SizesValid(r.value)
  {
    var notes := if doc.KeyNoteList.None? then Success([]) else NotesFrom(doc.KeyNoteList.value, 0);
    match notes
    case Failure(e) => Failure(e)
    case Success(list) =>
      if doc.Key.None? || |list| == 0 then Failure(KeyFileInvalid)
      else FromKeyString(doc.Key.value, list)
  }

  /** The key file at `path`, read, parsed and interpreted. */
  function ReadKeyFile(files: map<Path, seq<Byte>>, json: JsonCodec, path: Path): (r: Result<DecryptionData, Error>)
    ensures path !in files ==> r == Failure(KeyFileMissing)
    ensures path in files && json.parse(files[path]).None? ==> r == Failure(MalformedJson)
    ensures path in files && json.parse(files[path]).Some? ==> r == Interpret(json.parse(files[path]).value)
    ensures r.Success? ==> SizesValid(r.value) && |r.value.KeyNoteList| >= 1
  {
    if path !in files then Failure(KeyFileMissing)
    else
      match json.parse(files[path])
      case None => Failure(MalformedJson)
      case Some(doc) => Interpret(doc)
  }

  /**
   * `Deserialize`: checks that the key file exists, parses it, reads the
   * note entries in order into a list (stopping at the first bad one), and
   * calls the string constructor when a key and at least one note were read.
   */
  method Deserialize(fs: FileStore, json: JsonCodec, keyFile: Path) returns (r: Result<DecryptionData, Error>)
    ensures r == ReadKeyFile(fs.files, json, keyFile)
  {
    if !fs.Exists(keyFile) {
      return Failure(KeyFileMissing);
    }
    var parsed := json.parse(fs.files[keyFile]);
    if parsed.None? {
      return Failure(MalformedJson);
    }
    var root := parsed.value;
    var decryptionPairs: seq<DecryptionKeyNote> := [];
    if root.KeyNoteList.Some? {
      var entries := root.KeyNoteList.value;
      var ntpCount := 0;
      assert NotesFrom(entries, 0).Success? ==> [] + NotesFrom(entries, 0).value == NotesFrom(entries, 0).value;
      while ntpCount < |entries|
        invariant 0 <= ntpCount <= |entries|
        invariant NotesFrom(entries, 0) == PrependNotes(decryptionPairs, NotesFrom(entries, ntpCount))
      {
        var ntp := entries[ntpCount];
        if ntp.Nonce.Some? && ntp.Tag.Some? && ntp.Order.Some? {
          var note := FromStrings(ntp.Nonce.value, ntp.Tag.value, ntp.Order.value);
          if note.Failure? {
            return Failure(note.error);
          }
          NotesFromStep(entries, ntpCount, note.value);
          ghost var rest := NotesFrom(entries, ntpCount + 1);
          if rest.Success? {
            Associative(decryptionPairs, [note.value], rest.value);
          }
          decryptionPairs := decryptionPairs + [note.value];
        } else {
          return Failure(NoteEntryInvalid(ntpCount));
        }
        ntpCount := ntpCount + 1;
      }
      assert decryptionPairs + [] == decryptionPairs;
      assert NotesFrom(entries, 0) == Success(decryptionPairs);
    }
    if root.Key.Some? && |decryptionPairs| > 0 {
      r := NewFromKeyString(root.Key.value, decryptionPairs);
    } else {
      r := Failure(KeyFileInvalid);
    }
  }

  // ------------------------------------------------------------- round trip

  /** A key file record whose strings encode its bytes, as the byte constructors produce it. */
  predicate Coherent(d: DecryptionData) {
    d.key == Encode(d.Key) && forall j :: 0 <= j < |d.KeyNoteList| ==> KeyNotes.Coherent(d.KeyNoteList[j])
  }

  lemma {:induction false} EntriesRoundTrip(notes: seq<DecryptionKeyNote>, i: nat)
    requires i <= |notes|
    requires forall j :: 0 <= j < |notes| ==> KeyNotes.Coherent(notes[j])
    ensures NotesFrom(Entries(notes), i) == Success(notes[i..])
    decreases |notes| - i
  {
    if i < |notes| {
      EntriesAt(notes, i);
      CoherentFromStrings(notes[i]);
      NotesFromStep(Entries(notes), i, notes[i]);
      EntriesRoundTrip(notes, i + 1);
      SliceHead(notes, i);
    }
  }

  /** A complete entry that makes a note puts that note in front of the notes read after it. */
  lemma NotesFromStep(entries: seq<NoteEntry>, i: nat, note: DecryptionKeyNote)
    requires i < |entries| && Complete(entries[i])
    requires FromStrings(entries[i].Nonce.value, entries[i].Tag.value, entries[i].Order.value) == Success(note)
    ensures NotesFrom(entries, i) == PrependNotes([note], NotesFrom(entries, i + 1))
  {
  }

  lemma {:induction false} EntriesAt(notes: seq<DecryptionKeyNote>, i: nat)
    requires i < |notes|
    ensures Entries(notes)[i] == ToEntry(notes[i])
  {
    if i > 0 {
      EntriesAt(notes[1..], i - 1);
    }
  }

  /**
   * Reading back the record written for a coherent, validly sized key file
   * with at least one note gives the same key bytes, key string and notes.
   */
  lemma SerialiseThenInterpret(d: DecryptionData)
    requires Coherent(d) && SizesValid(d) && |d.KeyNoteList| >= 1
    ensures Interpret(ToDoc(d)) == Success(d)
  {
    EntriesRoundTrip(d.KeyNoteList, 0);
    assert d.KeyNoteList[0..] == d.KeyNoteList;
    DecodeEncode(d.Key);
  }

  /** A record with no note is written but not read back: `Deserialize` requires a note. */
  lemma EmptyNoteListIsRejected(d: DecryptionData)
    requires d.KeyNoteList == []
    ensures Interpret(ToDoc(d)) == Failure(KeyFileInvalid)
  {
  }

  /** The key string the byte constructor stores decodes back to the key. */
  lemma FromKeyBytesDecodes(Key: seq<Byte>, notes: seq<DecryptionKeyNote>)
    requires FromKeyBytes(Key, notes).Success?
    ensures Decode(FromKeyBytes(Key, notes).value.key) == Some(Key)
  {
    DecodeEncode(Key);
  }

  /** The byte constructor yields coherent records when its notes are coherent. */
  lemma FromKeyBytesCoherent(Key: seq<Byte>, notes: seq<DecryptionKeyNote>)
    requires forall j :: 0 <= j < |notes| ==> KeyNotes.Coherent(notes[j])
    requires FromKeyBytes(Key, notes).Success?
    ensures Coherent(FromKeyBytes(Key, notes).value)
  {
  }
}
