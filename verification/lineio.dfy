/** Reading a byte stream the way `BufRead::read_line` and `Read::read_exact`
    do. A stream is the sequence of bytes still to come; every read returns
    what it produced together with the bytes left after it. */
module LineIo {
  import opened Wrappers
  import opened Bytes
  import Utf8

  const NEWLINE: byte := 0x0A

  /** The outcome of one `read_line`: end of input (`Ok(0)`), a line, or an
      error because the bytes of the line are not UTF-8. Either way the line's
      bytes are consumed. */
  datatype LineRead = Eof | Line(text: string, rest: seq<byte>) | Invalid(rest: seq<byte>)

  /** The number of bytes up to and including the first newline, or all of
      them when there is none. */
  function LineLength(input: seq<byte>): (n: nat)
    ensures n <= |input|
    ensures |input| > 0 ==> n > 0
    ensures forall i :: 0 <= i < n - 1 ==> input[i] != NEWLINE
    ensures n < |input| ==> input[n - 1] == NEWLINE
    ensures n == |input| && n > 0 ==> input[n - 1] == NEWLINE || forall i :: 0 <= i < n ==> input[i] != NEWLINE
  {
    if |input| == 0 then 0
    else if input[0] == NEWLINE then 1
    else 1 + LineLength(input[1..])
  }

  /** `read_line`: the bytes up to and including the first newline (or to the
      end of input), decoded as UTF-8. */
  function ReadLine(input: seq<byte>): (r: LineRead)
    ensures r.Eof? <==> |input| == 0
    ensures !r.Eof? ==> |r.rest| < |input| && r.rest == input[|input| - |r.rest|..]
    ensures !r.Eof? ==> var n := |input| - |r.rest|;
      (forall i :: 0 <= i < n - 1 ==> input[i] != NEWLINE) &&
      (|r.rest| > 0 ==> input[n - 1] == NEWLINE)
    ensures r.Line? ==> Utf8.Decode(input[..|input| - |r.rest|]) == Some(r.text)
    ensures r.Invalid? ==> Utf8.Decode(input[..|input| - |r.rest|]) == None
  {
    if |input| == 0 then Eof
    else
      var n := LineLength(input);
      match Utf8.Decode(input[..n])
      case Some(text) => Line(text, input[n..])
      case None => Invalid(input[n..])
  }

  /** `read_exact` of `n` bytes: the bytes and what follows them, or `None`
      when the input ends first. */
  function ReadExact(input: seq<byte>, n: nat): (r: Option<(seq<byte>, seq<byte>)>)
    ensures r.None? <==> |input| < n
    ensures r.Some? ==> |r.value.0| == n && r.value.0 + r.value.1 == input
  {
    if |input| < n then None else Some((input[..n], input[n..]))
  }

  /** An ASCII string without a newline, as one line of a stream. */
  predicate IsAsciiLine(s: string) {
    Utf8.IsAscii(s) && forall i :: 0 <= i < |s| ==> s[i] != '\n'
  }

  lemma AsciiLineAppend(a: string, b: string)
    requires IsAsciiLine(a) && IsAsciiLine(b)
    ensures IsAsciiLine(a + b)
  {
  }

  /** Writing an ASCII line and its newline in front of any bytes, then
      reading a line, gives that line back and leaves the bytes. */
  lemma {:induction false} ReadLineAscii(s: string, rest: seq<byte>)
    requires IsAsciiLine(s)
    ensures Utf8.IsAscii(s + "\n")
    ensures ReadLine(Utf8.AsciiBytes(s + "\n") + rest) == Line(s + "\n", rest)
  {
    Utf8.AsciiAppend(s, "\n");
    var line := Utf8.AsciiBytes(s + "\n");
    var input := line + rest;
    LineLengthOfLine(s, rest);
    assert input[..|line|] == line;
    assert input[|line|..] == rest;
    Utf8.AsciiBytesAreEncoding(s + "\n");
    Utf8.DecodeEncode(s + "\n");
  }

  lemma {:induction false} LineLengthOfLine(s: string, rest: seq<byte>)
    requires IsAsciiLine(s)
    ensures Utf8.IsAscii(s + "\n")
    ensures LineLength(Utf8.AsciiBytes(s + "\n") + rest) == |s| + 1
  {
    Utf8.AsciiAppend(s, "\n");
    var input := Utf8.AsciiBytes(s + "\n") + rest;
    assert input[|s|] == NEWLINE;
    assert forall i :: 0 <= i < |s| ==> input[i] as int == s[i] as int;
  }
}
