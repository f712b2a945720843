/** UTF-8 decoding, as `String::from_utf8` checks it (well-formed sequences
    of Table 3-7 of the Unicode Standard, chapter 3.9), and the encoder it
    inverts. */
module Utf8 {
  import opened Wrappers
  import opened Bytes

  predicate IsContinuation(b: byte) {
    0x80 <= b <= 0xBF
  }

  /** The length of the well-formed sequence at the start of `s`, or 0 when
      the first bytes are not one. */
  function SequenceLength(s: seq<byte>): (n: nat)
    requires |s| > 0
    ensures n <= 4 && n <= |s|
  {
    var b0 := s[0];
    if b0 < 0x80 then 1
    else if 0xC2 <= b0 <= 0xDF then
      if |s| >= 2 && IsContinuation(s[1]) then 2 else 0
    else if 0xE0 <= b0 <= 0xEF then
      var lo: byte := if b0 == 0xE0 then 0xA0 else 0x80;
      var hi: byte := if b0 == 0xED then 0x9F else 0xBF;
      if |s| >= 3 && lo <= s[1] <= hi && IsContinuation(s[2]) then 3 else 0
    else if 0xF0 <= b0 <= 0xF4 then
      var lo: byte := if b0 == 0xF0 then 0x90 else 0x80;
      var hi: byte := if b0 == 0xF4 then 0x8F else 0xBF;
      if |s| >= 4 && lo <= s[1] <= hi && IsContinuation(s[2]) && IsContinuation(s[3]) then 4 else 0
    else 0
  }

  predicate IsScalar(v: int) {
    (0 <= v < 0xD800) || (0xE000 <= v < 0x11_0000)
  }

  /** The scalar value encoded by the well-formed sequence at the start of `s`. */
  function ScalarValue(s: seq<byte>): (v: int)
    requires |s| > 0 && SequenceLength(s) > 0
    ensures IsScalar(v)
  {
    var n := SequenceLength(s);
    if n == 1 then s[0] as int
    else if n == 2 then (s[0] as int - 0xC0) * 64 + (s[1] as int - 0x80)
    else if n == 3 then (s[0] as int - 0xE0) * 4096 + (s[1] as int - 0x80) * 64 + (s[2] as int - 0x80)
    else (s[0] as int - 0xF0) * 262144 + (s[1] as int - 0x80) * 4096 + (s[2] as int - 0x80) * 64 + (s[3] as int - 0x80)
  }

  /** `String::from_utf8`: the text, or `None` for ill-formed input. */
  function Decode(s: seq<byte>): Option<string>
    decreases |s|
  {
    if |s| == 0 then Some([])
    else
      var n := SequenceLength(s);
      if n == 0 then None
      else match Decode(s[n..])
        case None => None
        case Some(rest) => Some([ScalarValue(s) as char] + rest)
  }

  /** The UTF-8 encoding of one character. */
  function EncodeChar(c: char): (r: seq<byte>)
    ensures 1 <= |r| <= 4
  {
    var v := c as int;
    if v < 0x80 then [v as byte]
    else if v < 0x800 then [(0xC0 + v / 64) as byte, (0x80 + v % 64) as byte]
    else if v < 0x1_0000 then
      [(0xE0 + v / 4096) as byte, (0x80 + (v / 64) % 64) as byte, (0x80 + v % 64) as byte]
    else
      [(0xF0 + v / 262144) as byte, (0x80 + (v / 4096) % 64) as byte,
       (0x80 + (v / 64) % 64) as byte, (0x80 + v % 64) as byte]
  }

  function Encode(s: string): seq<byte> {
    if |s| == 0 then [] else EncodeChar(s[0]) + Encode(s[1..])
  }

  lemma EncodeTwo(v: int, s: seq<byte>)
    requires 0x80 <= v < 0x800
    requires |s| >= 2 && s[0] as int == 0xC0 + v / 64 && s[1] as int == 0x80 + v % 64
    ensures SequenceLength(s) == 2 && ScalarValue(s) == v
  {
    assert v == (v / 64) * 64 + v % 64;
  }

  lemma EncodeThree(v: int, s: seq<byte>)
    requires 0x800 <= v < 0x1_0000 && IsScalar(v)
    requires |s| >= 3 && s[0] as int == 0xE0 + v / 4096
    requires s[1] as int == 0x80 + (v / 64) % 64 && s[2] as int == 0x80 + v % 64
    ensures SequenceLength(s) == 3 && ScalarValue(s) == v
  {
    var q1 := v / 64;
    assert v == q1 * 64 + v % 64;
    assert q1 == (q1 / 64) * 64 + q1 % 64;
    assert v / 4096 == q1 / 64;
  }

  lemma EncodeFour(v: int, s: seq<byte>)
    requires 0x1_0000 <= v < 0x11_0000
    requires |s| >= 4 && s[0] as int == 0xF0 + v / 262144
    requires s[1] as int == 0x80 + (v / 4096) % 64
    requires s[2] as int == 0x80 + (v / 64) % 64 && s[3] as int == 0x80 + v % 64
    ensures SequenceLength(s) == 4 && ScalarValue(s) == v
  {
    var q1 := v / 64;
    var q2 := q1 / 64;
    assert v == q1 * 64 + v % 64;
    assert q1 == q2 * 64 + q1 % 64;
    assert q2 == (q2 / 64) * 64 + q2 % 64;
    assert v / 4096 == q2;
    assert v / 262144 == q2 / 64;
  }

  lemma EncodeCharDecodes(c: char, rest: seq<byte>)
    ensures SequenceLength(EncodeChar(c) + rest) == |EncodeChar(c)|
    ensures ScalarValue(EncodeChar(c) + rest) == c as int
  {
    var v := c as int;
    var s := EncodeChar(c) + rest;
    if v < 0x80 {
    } else if v < 0x800 {
      EncodeTwo(v, s);
    } else if v < 0x1_0000 {
      EncodeThree(v, s);
    } else {
      EncodeFour(v, s);
    }
  }

  /** Decoding inverts encoding: every string round-trips. */
  lemma {:induction false} DecodeEncode(s: string)
    ensures Decode(Encode(s)) == Some(s)
  {
    if |s| > 0 {
      var e := EncodeChar(s[0]);
      var t := Encode(s[1..]);
      assert Encode(s) == e + t;
      EncodeCharDecodes(s[0], t);
      assert (e + t)[|e|..] == t;
      DecodeEncode(s[1..]);
      assert ScalarValue(e + t) as char == s[0];
      assert Decode(e + t) == Some([s[0]] + s[1..]);
      assert [s[0]] + s[1..] == s;
    }
  }

  predicate IsAscii(s: string) {
    forall i :: 0 <= i < |s| ==> s[i] as int < 0x80
  }

  /** The bytes of an ASCII string, one per character. */
  function AsciiBytes(s: string): (r: seq<byte>)
    requires IsAscii(s)
    ensures |r| == |s|
    ensures forall i :: 0 <= i < |s| ==> r[i] as int == s[i] as int
  {
    seq(|s|, i requires 0 <= i < |s| => s[i] as int as byte)
  }

  lemma {:induction false} AsciiBytesAreEncoding(s: string)
    requires IsAscii(s)
    ensures AsciiBytes(s) == Encode(s)
  {
    if |s| > 0 {
      AsciiBytesAreEncoding(s[1..]);
      assert AsciiBytes(s) == [s[0] as int as byte] + AsciiBytes(s[1..]);
    }
  }

  lemma AsciiAppend(a: string, b: string)
    requires IsAscii(a) && IsAscii(b)
    ensures IsAscii(a + b)
    ensures AsciiBytes(a + b) == AsciiBytes(a) + AsciiBytes(b)
  {
  }
}
