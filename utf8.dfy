/** UTF-8 text as the SER header's text fields are read: `std::str::from_utf8`
    (which accepts exactly the well-formed byte sequences of the Unicode
    Standard, Table 3-7, and yields the scalar values they encode) and
    `str::trim` (which strips Unicode White_Space from both ends). */
module Utf8 {
  import opened Wrappers
  import opened Bytes

  predicate IsContinuation(b: u8) {
    0x80 <= b <= 0xBF
  }

  /** The scalar value encoded at the start of b and the number of bytes it
      occupies, or None when b does not start with a well-formed sequence. */
  function DecodeFirst(b: seq<u8>): (r: Option<(char, nat)>)
    requires |b| > 0
    ensures r.Some? ==> 1 <= r.value.1 <= |b| && r.value.1 <= 4
  {
    var b0 := b[0] as int;
    if b0 < 0x80 then Some((b0 as char, 1))
    else if 0xC2 <= b0 <= 0xDF then
      if |b| >= 2 && IsContinuation(b[1]) then
        Some((((b0 - 0xC0) * 0x40 + (b[1] as int - 0x80)) as char, 2))
      else None
    else if 0xE0 <= b0 <= 0xEF then
      var lo := if b0 == 0xE0 then 0xA0 else 0x80;
      var hi := if b0 == 0xED then 0x9F else 0xBF;
      if |b| >= 3 && lo <= b[1] as int <= hi && IsContinuation(b[2]) then
        Some((((b0 - 0xE0) * 0x1000 + (b[1] as int - 0x80) * 0x40 + (b[2] as int - 0x80)) as char, 3))
      else None
    else if 0xF0 <= b0 <= 0xF4 then
      var lo := if b0 == 0xF0 then 0x90 else 0x80;
      var hi := if b0 == 0xF4 then 0x8F else 0xBF;
      if |b| >= 4 && lo <= b[1] as int <= hi && IsContinuation(b[2]) && IsContinuation(b[3]) then
        Some((((b0 - 0xF0) * 0x4_0000 + (b[1] as int - 0x80) * 0x1000
               + (b[2] as int - 0x80) * 0x40 + (b[3] as int - 0x80)) as char, 4))
      else None
    else None
  }

  /** `std::str::from_utf8`: the decoded text, or None for ill-formed input. */
  function Decode(b: seq<u8>): Option<string>
    decreases |b|
  {
    if b == [] then Some([])
    else
      match DecodeFirst(b)
      case None => None
      case Some((c, n)) =>
        match Decode(b[n..])
        case None => None
        case Some(rest) => Some([c] + rest)
  }

  /** The UTF-8 encoding of one scalar value: its bits in groups of six
      (v1 = v / 64, v2 = v1 / 64, v3 = v2 / 64) behind the lead-byte marker. */
  function EncodeChar(c: char): (b: seq<u8>)
    ensures 1 <= |b| <= 4
  {
    var v := c as int;
    var v1 := v / 0x40;
    var v2 := v1 / 0x40;
    var v3 := v2 / 0x40;
    if v < 0x80 then [v as u8]
    else if v < 0x800 then [(0xC0 + v1) as u8, (0x80 + v % 0x40) as u8]
    else if v < 0x1_0000 then
      [(0xE0 + v2) as u8, (0x80 + v1 % 0x40) as u8, (0x80 + v % 0x40) as u8]
    else
      [(0xF0 + v3) as u8, (0x80 + v2 % 0x40) as u8, (0x80 + v1 % 0x40) as u8, (0x80 + v % 0x40) as u8]
  }

  /** The UTF-8 encoding of a text (`str::as_bytes`). */
  function Encode(s: string): seq<u8> {
    if s == [] then [] else EncodeChar(s[0]) + Encode(s[1..])
  }

  /** Splitting off the low six bits. */
  lemma Split64(x: int, y: int)
    requires 0 <= y < 0x40
    ensures (0x40 * x + y) / 0x40 == x && (0x40 * x + y) % 0x40 == y
  {
  }

  /** The decoder reads back exactly the scalar value an encoding starts with. */
  lemma DecodeFirstOfEncoding(c: char, rest: seq<u8>)
    ensures DecodeFirst(EncodeChar(c) + rest) == Some((c, |EncodeChar(c)|))
  {
    var v := c as int;
    if v < 0x80 {
    } else if v < 0x800 {
      DecodeFirstOfTwo(c, rest);
    } else if v < 0x1_0000 {
      DecodeFirstOfThree(c, rest);
    } else {
      DecodeFirstOfFour(c, rest);
    }
  }

  /** DecodeFirstOfEncoding for a value encoded in two bytes. */
  lemma DecodeFirstOfTwo(c: char, rest: seq<u8>)
    requires 0x80 <= c as int < 0x800
    ensures DecodeFirst(EncodeChar(c) + rest) == Some((c, 2))
  {
    var v := c as int;
    var v1 := v / 0x40;
    assert v == 0x40 * v1 + v % 0x40;
    var b := EncodeChar(c) + rest;
    assert (b[0] as int - 0xC0) * 0x40 + (b[1] as int - 0x80) == v;
  }

  /** DecodeFirstOfEncoding for a value encoded in three bytes. */
  lemma DecodeFirstOfThree(c: char, rest: seq<u8>)
    requires 0x800 <= c as int < 0x1_0000
    ensures DecodeFirst(EncodeChar(c) + rest) == Some((c, 3))
  {
    var v := c as int;
    var v1 := v / 0x40;
    var v2 := v1 / 0x40;
    assert v == 0x40 * v1 + v % 0x40;
    assert v1 == 0x40 * v2 + v1 % 0x40;
    var b := EncodeChar(c) + rest;
    assert (b[0] as int - 0xE0) * 0x1000 + (b[1] as int - 0x80) * 0x40 + (b[2] as int - 0x80) == v;
  }

  /** DecodeFirstOfEncoding for a value encoded in four bytes. */
  lemma DecodeFirstOfFour(c: char, rest: seq<u8>)
    requires 0x1_0000 <= c as int
    ensures DecodeFirst(EncodeChar(c) + rest) == Some((c, 4))
  {
    var v := c as int;
    var v1 := v / 0x40;
    var v2 := v1 / 0x40;
    var v3 := v2 / 0x40;
    assert v == 0x40 * v1 + v % 0x40;
    assert v1 == 0x40 * v2 + v1 % 0x40;
    assert v2 == 0x40 * v3 + v2 % 0x40;
    var b := EncodeChar(c) + rest;
    assert (b[0] as int - 0xF0) * 0x4_0000 + (b[1] as int - 0x80) * 0x1000
           + (b[2] as int - 0x80) * 0x40 + (b[3] as int - 0x80) == v;
  }

  /** A well-formed sequence is the encoding of the value it decodes to: no
      other byte sequence decodes to the same value. */
  lemma EncodingOfDecodeFirst(b: seq<u8>)
    requires |b| > 0 && DecodeFirst(b).Some?
    ensures EncodeChar(DecodeFirst(b).value.0) == b[..DecodeFirst(b).value.1]
  {
    var n := DecodeFirst(b).value.1;
    if n == 2 {
      EncodingOfTwo(b);
    } else if n == 3 {
      EncodingOfThree(b);
    } else if n == 4 {
      EncodingOfFour(b);
    }
  }

  /** EncodingOfDecodeFirst for a two-byte sequence. */
  lemma EncodingOfTwo(b: seq<u8>)
    requires |b| > 0 && DecodeFirst(b).Some? && DecodeFirst(b).value.1 == 2
    ensures EncodeChar(DecodeFirst(b).value.0) == b[..2]
  {
    Split64(b[0] as int - 0xC0, b[1] as int - 0x80);
  }

  /** EncodingOfDecodeFirst for a three-byte sequence. */
  lemma EncodingOfThree(b: seq<u8>)
    requires |b| > 0 && DecodeFirst(b).Some? && DecodeFirst(b).value.1 == 3
    ensures EncodeChar(DecodeFirst(b).value.0) == b[..3]
  {
    var v := DecodeFirst(b).value.0 as int;
    var hi := (b[0] as int - 0xE0) * 0x40 + (b[1] as int - 0x80);
    assert v == 0x40 * hi + (b[2] as int - 0x80);
    Split64(hi, b[2] as int - 0x80);
    Split64(b[0] as int - 0xE0, b[1] as int - 0x80);
  }

  /** EncodingOfDecodeFirst for a four-byte sequence. */
  lemma EncodingOfFour(b: seq<u8>)
    requires |b| > 0 && DecodeFirst(b).Some? && DecodeFirst(b).value.1 == 4
    ensures EncodeChar(DecodeFirst(b).value.0) == b[..4]
  {
    var v := DecodeFirst(b).value.0 as int;
    var hi := (b[0] as int - 0xF0) * 0x40 + (b[1] as int - 0x80);
    var mid := 0x40 * hi + (b[2] as int - 0x80);
    assert v == 0x40 * mid + (b[3] as int - 0x80);
    Split64(mid, b[3] as int - 0x80);
    Split64(hi, b[2] as int - 0x80);
    Split64(b[0] as int - 0xF0, b[1] as int - 0x80);
  }

  /** Decoding an encoded text gives the text back. */
  lemma {:induction false} DecodeEncode(s: string)
    ensures Decode(Encode(s)) == Some(s)
  {
    if s != [] {
      var e := EncodeChar(s[0]);
      var b := Encode(s);
      assert b == e + Encode(s[1..]);
      DecodeFirstOfEncoding(s[0], Encode(s[1..]));
      assert b[|e|..] == Encode(s[1..]);
      DecodeEncode(s[1..]);
      assert Decode(b) == Some([s[0]] + s[1..]);
      assert [s[0]] + s[1..] == s;
    }
  }

  /** Every well-formed byte sequence is the encoding of its decoded text. */
  lemma {:induction false} EncodeDecode(b: seq<u8>)
    requires Decode(b).Some?
    ensures Encode(Decode(b).value) == b
    decreases |b|
  {
    if b != [] {
      var first := DecodeFirst(b);
      var c := first.value.0;
      var n := first.value.1;
      var tail := Decode(b[n..]);
      assert tail.Some?;
      var s := [c] + tail.value;
      assert Decode(b) == Some(s);
      EncodingOfDecodeFirst(b);
      EncodeDecode(b[n..]);
      assert s[0] == c && s[1..] == tail.value;
      assert Encode(s) == EncodeChar(c) + Encode(tail.value);
      assert b == b[..n] + b[n..];
    }
  }

  /** ASCII text is encoded one byte per character. */
  lemma {:induction false} EncodeAscii(s: string)
    requires forall i | 0 <= i < |s| :: s[i] as int < 0x80
    ensures |Encode(s)| == |s|
    ensures forall i | 0 <= i < |s| :: Encode(s)[i] as int == s[i] as int
  {
    if s != [] {
      EncodeAscii(s[1..]);
      assert EncodeChar(s[0]) == [s[0] as int as u8];
      assert Encode(s) == [s[0] as int as u8] + Encode(s[1..]);
    }
  }

  /** `char::is_whitespace`: the characters with the Unicode White_Space
      property. */
  predicate IsWhitespace(c: char) {
    var v := c as int;
    || 0x09 <= v <= 0x0D || v == 0x20 || v == 0x85 || v == 0xA0 || v == 0x1680
    || 0x2000 <= v <= 0x200A || v == 0x2028 || v == 0x2029 || v == 0x202F
    || v == 0x205F || v == 0x3000
  }

  /** `str::trim_start`: drops the leading whitespace and nothing else. */
  function TrimStart(s: string): (t: string)
    ensures |t| <= |s| && t == s[|s| - |t|..]
    ensures forall i | 0 <= i < |s| - |t| :: IsWhitespace(s[i])
    ensures t == [] || !IsWhitespace(t[0])
  {
    if s != [] && IsWhitespace(s[0]) then TrimStart(s[1..]) else s
  }

  /** `str::trim_end`: drops the trailing whitespace and nothing else. */
  function TrimEnd(s: string): (t: string)
    ensures |t| <= |s| && t == s[..|t|]
    ensures forall i | |t| <= i < |s| :: IsWhitespace(s[i])
    ensures t == [] || !IsWhitespace(t[|t| - 1])
  {
    if s != [] && IsWhitespace(s[|s| - 1]) then TrimEnd(s[..|s| - 1]) else s
  }

  /** `str::trim`. */
  function Trim(s: string): string {
    TrimEnd(TrimStart(s))
  }

  /** t is what is left of s after removing the k characters before it and
      those after it, and all of those are whitespace. */
  predicate WhitespaceAround(s: string, k: nat, t: string) {
    && k + |t| <= |s|
    && t == s[k..k + |t|]
    && (forall i | 0 <= i < k :: IsWhitespace(s[i]))
    && (forall i | k + |t| <= i < |s| :: IsWhitespace(s[i]))
  }

  /** t neither starts nor ends with whitespace. */
  predicate NoOuterWhitespace(t: string) {
    t == [] || (!IsWhitespace(t[0]) && !IsWhitespace(t[|t| - 1]))
  }

  /** The trimmed text is the contiguous part of s left after removing
      whitespace at both ends: everything removed is whitespace, and what
      remains neither starts nor ends with whitespace. */
  lemma TrimIsInfix(s: string)
    ensures WhitespaceAround(s, |s| - |TrimStart(s)|, Trim(s))
    ensures NoOuterWhitespace(Trim(s))
  {
    var u := TrimStart(s);
    var t := TrimEnd(u);
    TrimmedEnds(s, u, t);
  }

  /** Trimming the end of a trimmed suffix u of s leaves an infix of s that
      neither starts nor ends with whitespace; whitespace after it in u is
      whitespace after it in s. */
  lemma TrimmedEnds(s: string, u: string, t: string)
    requires |u| <= |s| && u == s[|s| - |u|..]
    requires forall i | 0 <= i < |s| - |u| :: IsWhitespace(s[i])
    requires u == [] || !IsWhitespace(u[0])
    requires |t| <= |u| && t == u[..|t|]
    requires forall i | |t| <= i < |u| :: IsWhitespace(u[i])
    requires t == [] || !IsWhitespace(t[|t| - 1])
    ensures WhitespaceAround(s, |s| - |u|, t)
    ensures NoOuterWhitespace(t)
  {
    var k := |s| - |u|;
    forall i | k + |t| <= i < |s| ensures IsWhitespace(s[i]) {
      assert s[i] == u[i - k];
    }
    if t != [] {
      assert t[0] == u[0];
    }
  }
}
