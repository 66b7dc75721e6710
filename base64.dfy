/**
 * Base64 as defined in section 4 of RFC 4648: the 64-character alphabet
 * `A-Z a-z 0-9 + /`, three bytes to four characters, and `=` padding for
 * a final group of one or two bytes.  `Encode` stands for
 * `Convert.ToBase64String`, `Decode` for `Convert.FromBase64String`, which
 * skips white space (space, tab, line feed, carriage return) wherever it
 * occurs and decodes the characters that remain.
 */
module Base64 {
  import opened Wrappers
  import opened Bytes

  /** A 6-bit value: the index of one alphabet character. */
  type Sextet = v: int | 0 <= v < 64

  const Pad: char := '='

  /** The characters the decoder skips: space, tab, line feed and carriage return. */
  predicate IsWhiteSpace(c: char) {
    c == ' ' || c == '\t' || c == '\n' || c == '\r'
  }

  /** The alphabet character for a 6-bit value (RFC 4648, section 4, Table 1). */
  function CharOf(v: Sextet): (c: char)
    ensures c != Pad && !IsWhiteSpace(c)
  {
    if v < 26 then (65 + v) as char
    else if v < 52 then (97 + v - 26) as char
    else if v < 62 then (48 + v - 52) as char
    else if v == 62 then '+'
    else '/'
  }

  /** The 6-bit value of an alphabet character, or None for any other character. */
  function ValueOf(c: char): Option<Sextet> {
    if 'A' <= c <= 'Z' then Some(c as int - 65)
    else if 'a' <= c <= 'z' then Some(c as int - 97 + 26)
    else if '0' <= c <= '9' then Some(c as int - 48 + 52)
    else if c == '+' then Some(62)
    else if c == '/' then Some(63)
    else None
  }

  lemma ValueOfCharOf(v: Sextet)
    ensures ValueOf(CharOf(v)) == Some(v)
  {
  }

  /** Three bytes as four characters. */
  function EncodeBlock(a: Byte, b: Byte, c: Byte): seq<char> {
    [CharOf(a / 4), CharOf(a % 4 * 16 + b / 16), CharOf(b % 16 * 4 + c / 64), CharOf(c % 64)]
  }

  function Encode(s: seq<Byte>): seq<char>
    decreases |s|
  {
    if |s| == 0 then []
    else if |s| == 1 then [CharOf(s[0] / 4), CharOf(s[0] % 4 * 16), Pad, Pad]
    else if |s| == 2 then [CharOf(s[0] / 4), CharOf(s[0] % 4 * 16 + s[1] / 16), CharOf(s[1] % 16 * 4), Pad]
    else EncodeBlock(s[0], s[1], s[2]) + Encode(s[3..])
  }

  /** The encoding holds no white space. */
  lemma {:induction false} EncodeHasNoWhiteSpace(s: seq<Byte>)
    ensures forall i :: 0 <= i < |Encode(s)| ==> !IsWhiteSpace(Encode(s)[i])
    decreases |s|
  {
    if |s| > 2 {
      EncodeHasNoWhiteSpace(s[3..]);
      var e := Encode(s);
      var b := EncodeBlock(s[0], s[1], s[2]);
      assert e == b + Encode(s[3..]);
      forall i | 0 <= i < |e| ensures !IsWhiteSpace(e[i]) {
        if i >= 4 {
          assert e[i] == Encode(s[3..])[i - 4];
        }
      }
    }
  }

  /** Every started group of three bytes becomes four characters. */
  lemma {:induction false} EncodeLength(s: seq<Byte>)
    ensures |Encode(s)| == 4 * ((|s| + 2) / 3)
    decreases |s|
  {
    if |s| > 2 {
      EncodeLength(s[3..]);
      assert Encode(s) == EncodeBlock(s[0], s[1], s[2]) + Encode(s[3..]);
      assert (|s| + 2) / 3 == (|s[3..]| + 2) / 3 + 1;
    }
  }

  /** The byte made of the six bits of `v0` and the high two bits of `v1`. */
  function Byte0(v0: Sextet, v1: Sextet): Byte {
    (v0 as int) * 4 + (v1 as int) / 16
  }

  /** The byte made of the low four bits of `v1` and the high four bits of `v2`. */
  function Byte1(v1: Sextet, v2: Sextet): Byte {
    (v1 as int) % 16 * 16 + (v2 as int) / 4
  }

  /** The byte made of the low two bits of `v2` and the six bits of `v3`. */
  function Byte2(v2: Sextet, v3: Sextet): Byte {
    (v2 as int) % 4 * 64 + (v3 as int)
  }

  /** Four alphabet characters as three bytes; None if any of them is outside the alphabet. */
  function DecodeBlock(c0: char, c1: char, c2: char, c3: char): Option<seq<Byte>> {
    match (ValueOf(c0), ValueOf(c1), ValueOf(c2), ValueOf(c3))
    case (Some(v0), Some(v1), Some(v2), Some(v3)) =>
      Some([Byte0(v0, v1), Byte1(v1, v2), Byte2(v2, v3)])
    case _ => None
  }

  /** The last group of four characters, which may end in one or two `=`. */
  function DecodeFinal(c0: char, c1: char, c2: char, c3: char): Option<seq<Byte>> {
    if c2 == Pad && c3 == Pad then
      match (ValueOf(c0), ValueOf(c1))
      case (Some(v0), Some(v1)) => Some([Byte0(v0, v1)])
      case _ => None
    else if c3 == Pad then
      match (ValueOf(c0), ValueOf(c1), ValueOf(c2))
      case (Some(v0), Some(v1), Some(v2)) => Some([Byte0(v0, v1), Byte1(v1, v2)])
      case _ => None
    else DecodeBlock(c0, c1, c2, c3)
  }

  /**
   * Decodes a string of base64 groups; None when its length is not a multiple of four,
   * when a character is outside the alphabet, or when `=` appears anywhere
   * but at the end of the last group.
   */
  function DecodeGroups(s: seq<char>): Option<seq<Byte>>
    decreases |s|
  {
    if |s| == 0 then Some([])
    else if |s| < 4 then None
    else if |s| == 4 then DecodeFinal(s[0], s[1], s[2], s[3])
    else
      match DecodeBlock(s[0], s[1], s[2], s[3])
      case None => None
      case Some(block) =>
        match DecodeGroups(s[4..])
        case None => None
        case Some(rest) => Some(block + rest)
  }

  /** Only whole groups of four characters decode. */
  lemma {:induction false} GroupsNeedWholeGroups(s: seq<char>)
    ensures DecodeGroups(s).Some? ==> |s| % 4 == 0
    decreases |s|
  {
    if DecodeGroups(s).Some? && |s| > 4 {
      GroupsTailDecodes(s);
      GroupsNeedWholeGroups(s[4..]);
      FourMore(|s[4..]|, |s|);
    }
  }

  /** What decodes after a leading group of four also decodes on its own. */
  lemma GroupsTailDecodes(s: seq<char>)
    requires |s| > 4 && DecodeGroups(s).Some?
    ensures DecodeGroups(s[4..]).Some?
  {
  }

  lemma FourMore(a: nat, b: nat)
    requires b == a + 4 && a % 4 == 0
    ensures b % 4 == 0
  {
  }

  /** `s` without its white-space characters, the others kept in order. */
  function Strip(s: seq<char>): (r: seq<char>)
    ensures |r| <= |s|
    ensures forall i :: 0 <= i < |r| ==> !IsWhiteSpace(r[i])
  {
    if s == [] then []
    else if IsWhiteSpace(s[0]) then Strip(s[1..])
    else [s[0]] + Strip(s[1..])
  }

  /** Decodes a base64 string as `FromBase64String` does: white space is skipped, the rest must be whole groups. */
  function Decode(s: seq<char>): Option<seq<Byte>> {
    DecodeGroups(Strip(s))
  }

  /** Only strings whose characters other than white space make whole groups of four decode. */
  lemma DecodeNeedsWholeGroups(s: seq<char>)
    ensures Decode(s).Some? ==> |Strip(s)| % 4 == 0
  {
    GroupsNeedWholeGroups(Strip(s));
  }

  /** Stripping a string that holds no white space leaves it as it is. */
  lemma {:induction false} StripPlain(s: seq<char>)
    requires forall i :: 0 <= i < |s| ==> !IsWhiteSpace(s[i])
    ensures Strip(s) == s
  {
    if s != [] {
      StripPlain(s[1..]);
      assert s == [s[0]] + s[1..];
    }
  }

  /** Stripping distributes over concatenation. */
  lemma {:induction false} StripAppend(a: seq<char>, b: seq<char>)
    ensures Strip(a + b) == Strip(a) + Strip(b)
    decreases |a|
  {
    if a != [] {
      StripAppend(a[1..], b);
      assert (a + b)[0] == a[0] && (a + b)[1..] == a[1..] + b;
      if !IsWhiteSpace(a[0]) {
        assert Strip(a + b) == [a[0]] + (Strip(a[1..]) + Strip(b));
      }
    } else {
      assert a + b == b;
    }
  }

  /** A white-space character inserted anywhere in a string does not change what it decodes to. */
  lemma WhiteSpaceIsSkipped(s: seq<char>, i: nat, w: char)
    requires i <= |s| && IsWhiteSpace(w)
    ensures Decode(s[..i] + [w] + s[i..]) == Decode(s)
  {
    StripAppend(s[..i] + [w], s[i..]);
    StripAppend(s[..i], [w]);
    StripAppend(s[..i], s[i..]);
    assert [w][1..] == [];
    assert Strip([w]) == [];
    assert s[..i] + s[i..] == s;
    assert Strip(s[..i] + [w] + s[i..]) == Strip(s);
  }

  lemma SplitAt(x: int, h: int, d: int)
    requires d == 4 || d == 16 || d == 64
    requires 0 <= x && 0 <= h < d
    ensures (x * d + h) / d == x && (x * d + h) % d == h
  {
  }

  /** The first byte comes back from the first two characters. */
  lemma Byte0Of(a: Byte, b: Byte)
    ensures 0 <= a % 4 * 16 + b / 16 < 64
    ensures Byte0(a / 4, a % 4 * 16 + b / 16) == a
  {
    SplitAt(a % 4, b / 16, 16);
  }

  /** The second byte comes back from the second and third characters. */
  lemma Byte1Of(a: Byte, b: Byte, c: Byte)
    ensures 0 <= a % 4 * 16 + b / 16 < 64 && 0 <= b % 16 * 4 + c / 64 < 64
    ensures Byte1(a % 4 * 16 + b / 16, b % 16 * 4 + c / 64) == b
  {
    SplitAt(a % 4, b / 16, 16);
    SplitAt(b % 16, c / 64, 4);
  }

  /** The third byte comes back from the last two characters. */
  lemma Byte2Of(b: Byte, c: Byte)
    ensures 0 <= b % 16 * 4 + c / 64 < 64
    ensures Byte2(b % 16 * 4 + c / 64, c % 64) == c
  {
    SplitAt(b % 16, c / 64, 4);
  }

  lemma BlockRoundTrip(a: Byte, b: Byte, c: Byte)
    ensures var e := EncodeBlock(a, b, c); DecodeBlock(e[0], e[1], e[2], e[3]) == Some([a, b, c])
  {
    Byte0Of(a, b);
    Byte1Of(a, b, c);
    Byte2Of(b, c);
    ValueOfCharOf(a / 4);
    ValueOfCharOf(a % 4 * 16 + b / 16);
    ValueOfCharOf(b % 16 * 4 + c / 64);
    ValueOfCharOf(c % 64);
  }

  lemma OneByteRoundTrip(a: Byte)
    ensures DecodeFinal(CharOf(a / 4), CharOf(a % 4 * 16), Pad, Pad) == Some([a])
  {
    Byte0Of(a, 0);
    ValueOfCharOf(a / 4);
    ValueOfCharOf(a % 4 * 16);
  }

  lemma TwoBytesRoundTrip(a: Byte, b: Byte)
    ensures DecodeFinal(CharOf(a / 4), CharOf(a % 4 * 16 + b / 16), CharOf(b % 16 * 4), Pad) == Some([a, b])
  {
    Byte0Of(a, b);
    Byte1Of(a, b, 0);
    ValueOfCharOf(a / 4);
    ValueOfCharOf(a % 4 * 16 + b / 16);
    ValueOfCharOf(b % 16 * 4);
  }

  /** Decoding the encoding of any byte string gives back that byte string. */
  lemma DecodeEncode(s: seq<Byte>)
    ensures Decode(Encode(s)) == Some(s)
  {
    EncodeHasNoWhiteSpace(s);
    StripPlain(Encode(s));
    DecodeGroupsEncode(s);
  }

  lemma {:induction false} DecodeGroupsEncode(s: seq<Byte>)
    ensures DecodeGroups(Encode(s)) == Some(s)
    decreases |s|
  {
    if |s| == 1 {
      ShortRoundTrip1(s);
    } else if |s| == 2 {
      ShortRoundTrip2(s);
    } else if |s| >= 3 {
      if |s| > 3 {
        DecodeGroupsEncode(s[3..]);
      }
      LongRoundTrip(s);
    }
  }

  lemma ShortRoundTrip1(s: seq<Byte>)
    requires |s| == 1
    ensures DecodeGroups(Encode(s)) == Some(s)
  {
    var e := Encode(s);
    OneByteRoundTrip(s[0]);
    assert DecodeGroups(e) == DecodeFinal(e[0], e[1], e[2], e[3]);
    assert s == [s[0]];
  }

  lemma ShortRoundTrip2(s: seq<Byte>)
    requires |s| == 2
    ensures DecodeGroups(Encode(s)) == Some(s)
  {
    var e := Encode(s);
    TwoBytesRoundTrip(s[0], s[1]);
    assert DecodeGroups(e) == DecodeFinal(e[0], e[1], e[2], e[3]);
    assert s == [s[0], s[1]];
  }

  /** Decoding distributes over a leading complete group. */
  lemma DecodeLeadingBlock(block: seq<char>, rest: seq<char>, b: seq<Byte>, r: seq<Byte>)
    requires |block| == 4 && |rest| > 0
    requires DecodeBlock(block[0], block[1], block[2], block[3]) == Some(b)
    requires DecodeGroups(rest) == Some(r)
    ensures DecodeGroups(block + rest) == Some(b + r)
  {
    var e := block + rest;
    assert e[0] == block[0] && e[1] == block[1] && e[2] == block[2] && e[3] == block[3];
    assert e[4..] == rest;
  }

  lemma SplitHead(s: seq<Byte>)
    requires |s| >= 3
    ensures s == [s[0], s[1], s[2]] + s[3..]
  {
  }

  /** One step of the induction: a leading group of three bytes. */
  lemma LongRoundTrip(s: seq<Byte>)
    requires |s| >= 3
    requires |s| > 3 ==> DecodeGroups(Encode(s[3..])) == Some(s[3..])
    ensures DecodeGroups(Encode(s)) == Some(s)
  {
    var block := EncodeBlock(s[0], s[1], s[2]);
    var rest := Encode(s[3..]);
    assert Encode(s) == block + rest;
    BlockRoundTrip(s[0], s[1], s[2]);
    var head := [s[0], s[1], s[2]];
    if |s| == 3 {
      assert Encode(s) == block;
      assert block[3] != Pad;
      assert DecodeGroups(block) == DecodeBlock(block[0], block[1], block[2], block[3]);
      assert DecodeGroups(block) == Some(head);
      SplitHead(s);
      assert s[3..] == [];
      assert s == head;
    } else {
      DecodeLeadingBlock(block, rest, head, s[3..]);
      SplitHead(s);
    }
  }
}
