/**
 * `DecryptionKeyNote`: what the key file records for one chunk.  It holds
 * the chunk's nonce and tag twice, as bytes (`Nonce`, `Tag`, left out of
 * the JSON) and as base64 strings (`nonce`, `tag`, written as "Nonce" and
 * "Tag"), and the chunk number `Order`.  Neither constructor checks
 * lengths; that is left to `DecryptionData.ValidateLength`.
 */
module KeyNotes {
  import opened Wrappers
  import opened Bytes
  import opened Errors
  import opened Base64

  datatype DecryptionKeyNote = DecryptionKeyNote(
    Nonce: seq<Byte>,
    Tag: seq<Byte>,
    Order: int,
    nonce: string,
    tag: string)

  /** The note's string fields are the base64 encodings of its byte fields. */
  predicate Coherent(note: DecryptionKeyNote) {
    note.nonce == Encode(note.Nonce) && note.tag == Encode(note.Tag)
  }

  /** The constructor taking bytes: the strings are derived by base64 encoding. */
  function FromBytes(nonce: seq<Byte>, tag: seq<Byte>, order: int): (note: DecryptionKeyNote)
    ensures note.Nonce == nonce && note.Tag == tag && note.Order == order
    ensures Coherent(note)
  {
    DecryptionKeyNote(nonce, tag, order, Encode(nonce), Encode(tag))
  }

  /** The strings of a note built from bytes decode back to those bytes. */
  lemma FromBytesDecodes(nonce: seq<Byte>, tag: seq<Byte>, order: int)
    ensures Decode(FromBytes(nonce, tag, order).nonce) == Some(nonce)
    ensures Decode(FromBytes(nonce, tag, order).tag) == Some(tag)
  {
    DecodeEncode(nonce);
    DecodeEncode(tag);
  }

  /**
   * The constructor taking strings (the one JSON deserialisation uses):
   * the bytes are base64-decoded, nonce first; a string that is not base64
   * makes it throw.  The strings are kept as given.
   */
  function FromStrings(nonce: string, tag: string, order: int): (r: Result<DecryptionKeyNote, Error>)
    ensures r.Success? <==> Decode(nonce).Some? && Decode(tag).Some?
    ensures r.Failure? ==> r.error == MalformedBase64
    ensures r.Success? ==>
      && Decode(nonce) == Some(r.value.Nonce) && Decode(tag) == Some(r.value.Tag)
      && r.value.nonce == nonce && r.value.tag == tag && r.value.Order == order
  {
    match Decode(nonce)
    case None => Failure(MalformedBase64)
    case Some(nonceBytes) =>
      match Decode(tag)
      case None => Failure(MalformedBase64)
      case Some(tagBytes) => Success(DecryptionKeyNote(nonceBytes, tagBytes, order, nonce, tag))
  }

  /**
   * Building a note from bytes and then a note from the strings it
   * produced gives back the same note: same Nonce, Tag and Order, and the
   * same strings.
   */
  lemma BytesThenStrings(nonce: seq<Byte>, tag: seq<Byte>, order: int)
    ensures var note := FromBytes(nonce, tag, order);
      FromStrings(note.nonce, note.tag, order) == Success(note)
  {
    DecodeEncode(nonce);
    DecodeEncode(tag);
  }

  /** A note whose strings encode its bytes is rebuilt exactly from its strings. */
  lemma CoherentFromStrings(note: DecryptionKeyNote)
    requires Coherent(note)
    ensures FromStrings(note.nonce, note.tag, note.Order) == Success(note)
  {
    DecodeEncode(note.Nonce);
    DecodeEncode(note.Tag);
  }

  /** One entry of "KeyNoteList" in the key file: each field may be absent. */
  datatype NoteEntry = NoteEntry(Nonce: Option<string>, Tag: Option<string>, Order: Option<int>)

  /** The JSON object written for a note: only `Order` and the two base64 strings. */
  function ToEntry(note: DecryptionKeyNote): NoteEntry {
    NoteEntry(Some(note.nonce), Some(note.tag), Some(note.Order))
  }

  /** The serialised note depends on nothing but Order and the two strings. */
  lemma ToEntrySerialisesStringsOnly(a: DecryptionKeyNote, b: DecryptionKeyNote)
    ensures ToEntry(a) == ToEntry(b) <==> a.nonce == b.nonce && a.tag == b.tag && a.Order == b.Order
  {
  }
}
