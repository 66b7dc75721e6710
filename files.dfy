/**
 * The file system as the library uses it: whole files addressed by path,
 * read into a buffer from an offset and written at an offset.  Handles,
 * buffering, sharing modes and asynchrony are not modelled; every read and
 * write is an exact slice.
 */
module Files {
  import opened Bytes

  type Path = string

  /**
   * What a read of `n` bytes at `offset` puts into a zeroed buffer: the
   * file's bytes where the file has them, zero past its end.
   */
  function ReadAt(f: seq<Byte>, offset: nat, n: nat): (r: seq<Byte>)
    ensures |r| == n
  {
    seq(n, i requires 0 <= i < n => if offset + i < |f| then f[offset + i] else 0)
  }

  function Max(a: nat, b: nat): nat {
    if a < b then b else a
  }

  /**
   * A file after `data` is written at `offset`: the bytes at
   * [offset, offset + |data|) are `data`, every other byte is unchanged,
   * and a gap between the old end and `offset` reads as zeros.
   */
  function WriteAt(f: seq<Byte>, offset: nat, data: seq<Byte>): (r: seq<Byte>)
    ensures |r| == Max(|f|, offset + |data|)
  {
    if offset <= |f| then
      f[..offset] + data + (if offset + |data| < |f| then f[offset + |data|..] else [])
    else
      f + Zeros(offset - |f|) + data
  }

  /** A read inside the file is a slice of it; past the end it reads zeros. */
  lemma ReadAtContents(f: seq<Byte>, offset: nat, n: nat)
    ensures offset + n <= |f| ==> ReadAt(f, offset, n) == f[offset..offset + n]
    ensures forall i :: 0 <= i < n && |f| <= offset + i ==> ReadAt(f, offset, n)[i] == 0
  {
  }

  /**
   * After a write, the written range holds `data` and every other byte is
   * the old byte, or zero where the file was extended.
   */
  lemma WriteAtContents(f: seq<Byte>, offset: nat, data: seq<Byte>)
    ensures forall i :: 0 <= i < |data| ==> WriteAt(f, offset, data)[offset + i] == data[i]
    ensures forall i :: 0 <= i < |WriteAt(f, offset, data)| && !(offset <= i < offset + |data|) ==>
      WriteAt(f, offset, data)[i] == if i < |f| then f[i] else 0
  {
  }

  /** Writing at the current end of a file appends. */
  lemma WriteAtEnd(f: seq<Byte>, data: seq<Byte>)
    ensures WriteAt(f, |f|, data) == f + data
  {
    assert f[..|f|] == f;
  }

  /** Chunks laid end to end. */
  function Flatten(chunks: seq<seq<Byte>>): seq<Byte>
  {
    if chunks == [] then [] else chunks[0] + Flatten(chunks[1..])
  }

  /** The files of the machine, by path; a path is present exactly when the file exists. */
  class FileStore {
    var files: map<Path, seq<Byte>>

    constructor (initial: map<Path, seq<Byte>>)
      ensures files == initial
    {
      files := initial;
    }

    /** `File.Exists`. */
    predicate Exists(path: Path)
      reads this
    {
      path in files
    }

    /**
     * `ReadFileChunkFromOffset`: opens the file, seeks to `offset` from the
     * beginning and reads into `data` as many bytes as fit; positions past
     * the end of the file keep what the buffer held.
     */
    method ReadFileChunkFromOffset(path: Path, data: array<Byte>, offset: nat) returns (r: array<Byte>)
      requires path in files
      modifies data
      ensures r == data
      ensures forall i :: 0 <= i < data.Length ==>
        data[i] == if offset + i < |files[path]| then files[path][offset + i] else old(data[i])
    {
      var f := files[path];
      forall i | 0 <= i < data.Length && offset + i < |f| {
        data[i] := f[offset + i];
      }
      r := data;
    }

    /**
     * `AppendFileChunk`: chunk 1 creates (or truncates) the output file,
     * any later chunk opens the existing file; then `data` is written
     * `offset` bytes from the start.
     */
    method AppendFileChunk(path: Path, data: array<Byte>, offset: nat, order: int)
      requires order == 1 || path in files
      modifies this
      ensures files == old(files)[path := WriteAt(if order == 1 then [] else old(files)[path], offset, data[..])]
    {
      var current := if order == 1 then [] else files[path];
      files := files[path := WriteAt(current, offset, data[..])];
    }

    /** `File.WriteAllTextAsync`: creates or replaces the file with `text`. */
    method WriteAllText(path: Path, text: seq<Byte>)
      modifies this
      ensures files == old(files)[path := text]
    {
      files := files[path := text];
    }
  }

  /** A buffer read into from a zeroed state holds exactly `ReadAt`. */
  lemma ReadIntoZeroedBuffer(f: seq<Byte>, offset: nat, before: seq<Byte>, after: seq<Byte>)
    requires before == Zeros(|before|) && |after| == |before|
    requires forall i :: 0 <= i < |after| ==> after[i] == if offset + i < |f| then f[offset + i] else before[i]
    ensures after == ReadAt(f, offset, |before|)
  {
  }
}
