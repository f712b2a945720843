/** The MJPEG path of the desktop app (app/crates/app/src/main.rs): the
    multipart reader that pulls JPEG parts out of an HTTP body line by line,
    and the loop that reconnects to the stream up to ten times. Decoding a
    JPEG is a parameter: `decode(bytes)` is the image `load_from_memory`
    gives, or `None` when it fails. */
module Mjpeg {
  import opened Wrappers
  import opened Bytes
  import opened Text
  import LineIo
  import Utf8
  import Raster
  import Channel

  /** What a header line (after `trim_end`) does to the reader's state. */
  datatype LineAction =
    | ClearLength          // a boundary line, `--...`
    | SetLength(n: nat)    // `Content-Length: n`, any letter case
    | ReadBody(n: nat)     // the blank line ending a part's headers
    | Ignore               // anything else

  /** The value of a `Content-Length:` header, matched without regard to
      ASCII case and parsed as a `usize` after trimming. */
  function ContentLength(t: string): (r: Option<nat>)
    ensures r.Some? ==> r.value <= USIZE_MAX
    ensures r.Some? ==> StartsWith(AsciiLower(t), "content-length:")
  {
    match StripPrefix(AsciiLower(t), "content-length:")
    case None => None
    case Some(rest) => ParseUnsigned(Trim(rest), USIZE_MAX)
  }

  /** The reader's decision for one trimmed line, given the pending length. */
  function Classify(t: string, pending: Option<nat>): (a: LineAction)
    ensures StartsWith(t, "--") ==> a == ClearLength
    ensures !StartsWith(t, "--") && t == [] && pending.Some? ==> a == ReadBody(pending.value)
    ensures !StartsWith(t, "--") && t == [] && pending.None? ==> a == Ignore
    ensures a.SetLength? <==> !StartsWith(t, "--") && t != [] && ContentLength(t).Some?
    ensures a.SetLength? ==> a.n == ContentLength(t).value
    ensures a.ReadBody? ==> t == [] && pending == Some(a.n)
    ensures !StartsWith(t, "--") && t != [] && ContentLength(t).None? ==> a == Ignore
  {
    if StartsWith(t, "--") then ClearLength
    else if t == [] then (if pending.Some? then ReadBody(pending.value) else Ignore)
    else match ContentLength(t)
      case Some(n) => SetLength(n)
      case None => Ignore
  }

  /** The pending length after a line: a boundary clears it, a parsed
      header sets it, a body consumes it, and anything else keeps it. */
  function NextPending(a: LineAction, pending: Option<nat>): (r: Option<nat>)
    ensures a.Ignore? ==> r == pending
    ensures a.SetLength? ==> r == Some(a.n)
    ensures a.ClearLength? || a.ReadBody? ==> r.None?
  {
    match a
    case ClearLength => None
    case SetLength(n) => Some(n)
    case ReadBody(_) => None
    case Ignore => pending
  }

  /** Drops up to `n` bytes, as `read_exact` does when it fails at the end
      of input after consuming what there was. */
  function Skip(input: seq<byte>, n: nat): (r: seq<byte>)
    ensures |input| >= n ==> r == input[n..]
    ensures |input| < n ==> r == []
  {
    if |input| >= n then input[n..] else []
  }

  /** `stream_mjpeg_reader` on the bytes of one HTTP body: the images it
      offers to the channel, in order. It ends at the end of input, on a
      line that is not UTF-8, on a short body, or when `try_send` reports
      the receiver gone, and in every case returns `None`. */
  function ReadParts(input: seq<byte>, pending: Option<nat>, decode: seq<byte> -> Option<Raster.Image>,
                     budget: Option<nat>): (offered: seq<Raster.Image>)
    ensures budget.Some? ==> |offered| <= budget.value
    ensures |input| == 0 ==> offered == []
    decreases |input|
  {
    match LineIo.ReadLine(input)
    case Eof => []
    case Invalid(_) => []
    case Line(text, rest) =>
      var action := Classify(TrimEnd(text), pending);
      if action.ReadBody? then
        match LineIo.ReadExact(rest, action.n)
        case None => []
        case Some((body, after)) =>
          var next := Skip(after, 2);
          match decode(body)
          case None => ReadParts(next, None, decode, budget)
          case Some(image) =>
            if budget == Some(0) then []
            else [image] + ReadParts(next, None, decode, Channel.Spend(budget, 1))
      else ReadParts(rest, NextPending(action, pending), decode, budget)
  }

  // ---- a well-formed stream -------------------------------------------------

  /** The headers of one part as an MJPEG server writes them. */
  function PartHeader(length: nat): string {
    "--frame\r\n" + "Content-Type: image/jpeg\r\n" + ("Content-Length: " + NatToString(length)) + "\r\n" + "\r\n"
  }

  const CRLF: seq<byte> := [13, 10]

  /** One part: headers, the JPEG bytes, and the line break after them. */
  function Part(body: seq<byte>): seq<byte> {
    HeaderAscii(|body|);
    Utf8.AsciiBytes(PartHeader(|body|)) + body + CRLF
  }

  function Parts(bodies: seq<seq<byte>>): seq<byte> {
    if |bodies| == 0 then [] else Part(bodies[0]) + Parts(bodies[1..])
  }

  /** The images of the bodies that decode, in order. */
  function Decoded(bodies: seq<seq<byte>>, decode: seq<byte> -> Option<Raster.Image>): (r: seq<Raster.Image>)
    ensures |r| <= |bodies|
  {
    if |bodies| == 0 then []
    else
      var rest := Decoded(bodies[1..], decode);
      match decode(bodies[0])
      case Some(image) => [image] + rest
      case None => rest
  }

  lemma HeaderAscii(n: nat)
    ensures Utf8.IsAscii(PartHeader(n))
  {
    var d := NatToString(n);
    assert forall i :: 0 <= i < |d| ==> IsDigit(d[i]);
    var boundary, kind, blank := "--frame\r\n", "Content-Type: image/jpeg\r\n", "\r\n";
    Utf8.AsciiAppend("Content-Length: ", d);
    Utf8.AsciiAppend(boundary, kind);
    Utf8.AsciiAppend(boundary + kind, "Content-Length: " + d);
    Utf8.AsciiAppend(boundary + kind + ("Content-Length: " + d), blank);
    Utf8.AsciiAppend(boundary + kind + ("Content-Length: " + d) + blank, blank);
  }

  /** The reader takes a well-formed stream apart into its JPEG bodies: it
      offers the image of every body that decodes, in order, up to the
      budget. */
  lemma {:induction false} ReadsWellFormedStream(bodies: seq<seq<byte>>, decode: seq<byte> -> Option<Raster.Image>,
                                                 budget: Option<nat>)
    requires forall i :: 0 <= i < |bodies| ==> |bodies[i]| <= USIZE_MAX
    ensures ReadParts(Parts(bodies), None, decode, budget) == Channel.Cut(Decoded(bodies, decode), budget)
    decreases |bodies|
  {
    if |bodies| == 0 {
    } else {
      var body := bodies[0];
      var more := Parts(bodies[1..]);
      ReadsPart(body, more, decode, budget);
      assert Parts(bodies) == Part(body) + more;
      var rest := Decoded(bodies[1..], decode);
      match decode(body)
      case None =>
        ReadsWellFormedStream(bodies[1..], decode, budget);
      case Some(image) =>
        if budget != Some(0) {
          ReadsWellFormedStream(bodies[1..], decode, Channel.Spend(budget, 1));
        }
        Channel.CutAppend([image], rest, budget);
    }
  }

  /** What the reader does once a body has been read: offer its image, if
      it decodes and the receiver is there, and go on with `more`. */
  function AfterBody(body: seq<byte>, more: seq<byte>, decode: seq<byte> -> Option<Raster.Image>,
                     budget: Option<nat>): seq<Raster.Image>
  {
    match decode(body)
    case None => ReadParts(more, None, decode, budget)
    case Some(image) =>
      if budget == Some(0) then []
      else [image] + ReadParts(more, None, decode, Channel.Spend(budget, 1))
  }

  /** One part in front of more input is read as its body. */
  lemma ReadsPart(body: seq<byte>, more: seq<byte>, decode: seq<byte> -> Option<Raster.Image>, budget: Option<nat>)
    requires |body| <= USIZE_MAX
    ensures ReadParts(Part(body) + more, None, decode, budget) == AfterBody(body, more, decode, budget)
  {
    var tail := body + CRLF + more;
    HeaderAscii(|body|);
    assert Part(body) + more == Utf8.AsciiBytes(PartHeader(|body|)) + tail;
    ReadsHeader(|body|, tail, decode, budget);
    ReadsBody(body, more, decode, budget);
  }

  /** The header lines leave the body's length pending before the blank
      line. */
  lemma ReadsHeader(n: nat, tail: seq<byte>, decode: seq<byte> -> Option<Raster.Image>, budget: Option<nat>)
    requires n <= USIZE_MAX
    ensures Utf8.IsAscii(PartHeader(n)) && Utf8.IsAscii("\r\n")
    ensures ReadParts(Utf8.AsciiBytes(PartHeader(n)) + tail, None, decode, budget)
         == ReadParts(Utf8.AsciiBytes("\r\n") + tail, Some(n), decode, budget)
  {
    var lengthLine := "Content-Length: " + NatToString(n);
    HeaderBytes(n, tail);
    var afterBlank := Utf8.AsciiBytes("\r\n") + tail;
    var afterLength := Utf8.AsciiBytes(lengthLine + "\r\n") + afterBlank;
    LeadingLines(afterLength, decode, budget);
    LengthLineSets(n, afterBlank, decode, budget);
  }

  /** The boundary and content-type lines leave nothing pending. */
  lemma LeadingLines(rest: seq<byte>, decode: seq<byte> -> Option<Raster.Image>, budget: Option<nat>)
    ensures Utf8.IsAscii("--frame\r\n") && Utf8.IsAscii("Content-Type: image/jpeg\r\n")
    ensures ReadParts(Utf8.AsciiBytes("--frame\r\n") + (Utf8.AsciiBytes("Content-Type: image/jpeg\r\n") + rest), None, decode, budget)
         == ReadParts(rest, None, decode, budget)
  {
    assert Utf8.IsAscii("Content-Type: image/jpeg\r\n")
      && ReadParts(Utf8.AsciiBytes("Content-Type: image/jpeg\r\n") + rest, None, decode, budget)
         == ReadParts(rest, None, decode, budget) by {
      TypeLine(rest, decode, budget);
    }
    var afterBoundary := Utf8.AsciiBytes("Content-Type: image/jpeg\r\n") + rest;
    assert Utf8.IsAscii("--frame\r\n")
      && ReadParts(Utf8.AsciiBytes("--frame\r\n") + afterBoundary, None, decode, budget)
         == ReadParts(afterBoundary, None, decode, budget) by {
      BoundaryLine(afterBoundary, decode, budget);
    }
  }

  /** The `Content-Length` line leaves the length pending. */
  lemma LengthLineSets(n: nat, rest: seq<byte>, decode: seq<byte> -> Option<Raster.Image>, budget: Option<nat>)
    requires n <= USIZE_MAX
    ensures Utf8.IsAscii("Content-Length: " + NatToString(n) + "\r\n")
    ensures ReadParts(Utf8.AsciiBytes("Content-Length: " + NatToString(n) + "\r\n") + rest, None, decode, budget)
         == ReadParts(rest, Some(n), decode, budget)
  {
    LengthLineShape(n);
    LengthLineClassified(n);
    SkipsLine("Content-Length: " + NatToString(n), rest, None, decode, budget);
  }

  lemma BoundaryLine(rest: seq<byte>, decode: seq<byte> -> Option<Raster.Image>, budget: Option<nat>)
    ensures Utf8.IsAscii("--frame\r\n")
    ensures ReadParts(Utf8.AsciiBytes("--frame\r\n") + rest, None, decode, budget)
         == ReadParts(rest, None, decode, budget)
  {
    assert LineIo.IsAsciiLine("--frame\r");
    assert StartsWith("--frame", "--");
    assert Classify("--frame", None) == ClearLength;
    assert "--frame" + "\r\n" == "--frame\r\n";
    SkipsLine("--frame", rest, None, decode, budget);
  }

  lemma TypeLine(rest: seq<byte>, decode: seq<byte> -> Option<Raster.Image>, budget: Option<nat>)
    ensures Utf8.IsAscii("Content-Type: image/jpeg\r\n")
    ensures ReadParts(Utf8.AsciiBytes("Content-Type: image/jpeg\r\n") + rest, None, decode, budget)
         == ReadParts(rest, None, decode, budget)
  {
    TypeLineAscii();
    TypeLineIgnored();
    SkipsLine("Content-Type: image/jpeg", rest, None, decode, budget);
  }

  /** The content-type header is one ASCII line. */
  lemma TypeLineAscii()
    ensures LineIo.IsAsciiLine("Content-Type: image/jpeg" + "\r")
    ensures "Content-Type: image/jpeg" + "\r\n" == "Content-Type: image/jpeg\r\n"
  {
    var t := "Content-Type: image/jpeg";
    assert LineIo.IsAsciiLine(t + "\r");
    assert t + "\r\n" == "Content-Type: image/jpeg\r\n";
  }

  /** The content-type header neither sets nor clears a length. */
  lemma TypeLineIgnored()
    ensures Classify("Content-Type: image/jpeg", None) == Ignore
  {
    var t := "Content-Type: image/jpeg";
    assert AsciiLower(t)[8] == 't';
    assert !StartsWith(AsciiLower(t), "content-length:");
    assert ContentLength(t).None?;
    assert t[..2][0] == 'C';
    assert !StartsWith(t, "--");
  }

  lemma LengthLineShape(n: nat)
    ensures var line := "Content-Length: " + NatToString(n);
      LineIo.IsAsciiLine(line + "\r") && !IsWhitespace(line[|line| - 1])
  {
    var d := NatToString(n);
    assert forall i :: 0 <= i < |d| ==> IsDigit(d[i]);
    var line := "Content-Length: " + d;
    assert line[|line| - 1] == d[|d| - 1];
  }

  /** The header's bytes, line by line. */
  lemma HeaderBytes(n: nat, tail: seq<byte>)
    ensures Utf8.IsAscii(PartHeader(n))
    ensures Utf8.IsAscii("Content-Length: " + NatToString(n) + "\r\n")
    ensures Utf8.AsciiBytes(PartHeader(n)) + tail
         == Utf8.AsciiBytes("--frame\r\n") + (Utf8.AsciiBytes("Content-Type: image/jpeg\r\n")
            + (Utf8.AsciiBytes("Content-Length: " + NatToString(n) + "\r\n") + (Utf8.AsciiBytes("\r\n") + tail)))
  {
    HeaderLines(n);
    SplitBytes4(PartHeader(n), "--frame\r\n", "Content-Type: image/jpeg\r\n",
                "Content-Length: " + NatToString(n) + "\r\n", "\r\n", tail);
  }

  lemma SplitBytes4(h: string, l1: string, l2: string, l3: string, l4: string, tail: seq<byte>)
    requires Utf8.IsAscii(l1) && Utf8.IsAscii(l2) && Utf8.IsAscii(l3) && Utf8.IsAscii(l4)
    requires h == l1 + l2 + l3 + l4
    ensures Utf8.IsAscii(h)
    ensures Utf8.AsciiBytes(h) + tail
         == Utf8.AsciiBytes(l1) + (Utf8.AsciiBytes(l2) + (Utf8.AsciiBytes(l3) + (Utf8.AsciiBytes(l4) + tail)))
  {
    AsciiBytes4(l1, l2, l3, l4);
    var b1, b2, b3, b4 := Utf8.AsciiBytes(l1), Utf8.AsciiBytes(l2), Utf8.AsciiBytes(l3), Utf8.AsciiBytes(l4);
    assert b1 + b2 + b3 + b4 + tail == b1 + (b2 + (b3 + (b4 + tail)));
  }

  lemma HeaderLines(n: nat)
    ensures var l3 := "Content-Length: " + NatToString(n) + "\r\n";
      Utf8.IsAscii(l3) && PartHeader(n) == "--frame\r\n" + "Content-Type: image/jpeg\r\n" + l3 + "\r\n"
  {
    LengthLineShape(n);
  }

  lemma AsciiBytes4(l1: string, l2: string, l3: string, l4: string)
    requires Utf8.IsAscii(l1) && Utf8.IsAscii(l2) && Utf8.IsAscii(l3) && Utf8.IsAscii(l4)
    ensures Utf8.IsAscii(l1 + l2 + l3 + l4)
    ensures Utf8.AsciiBytes(l1 + l2 + l3 + l4)
         == Utf8.AsciiBytes(l1) + Utf8.AsciiBytes(l2) + Utf8.AsciiBytes(l3) + Utf8.AsciiBytes(l4)
  {
    Utf8.AsciiAppend(l1, l2);
    Utf8.AsciiAppend(l1 + l2, l3);
    Utf8.AsciiAppend(l1 + l2 + l3, l4);
  }

  /** A header line other than the blank one moves the reader to the next
      line with the pending length updated. */
  lemma SkipsLine(s: string, rest: seq<byte>, pending: Option<nat>, decode: seq<byte> -> Option<Raster.Image>,
                  budget: Option<nat>)
    requires LineIo.IsAsciiLine(s + "\r") && |s| > 0 && !IsWhitespace(s[|s| - 1])
    ensures Utf8.IsAscii(s + "\r\n")
    ensures ReadParts(Utf8.AsciiBytes(s + "\r\n") + rest, pending, decode, budget)
         == ReadParts(rest, NextPending(Classify(s, pending), pending), decode, budget)
  {
    assert s + "\r\n" == (s + "\r") + "\n";
    LineIo.ReadLineAscii(s + "\r", rest);
    TrimEndCrlf(s);
    ReadPartsOnLine(Utf8.AsciiBytes(s + "\r\n") + rest, s + "\r\n", rest, pending, decode, budget);
  }

  /** One step of the reader on a line that does not start a body. */
  lemma ReadPartsOnLine(input: seq<byte>, text: string, rest: seq<byte>, pending: Option<nat>,
                        decode: seq<byte> -> Option<Raster.Image>, budget: Option<nat>)
    requires LineIo.ReadLine(input) == LineIo.Line(text, rest)
    requires !Classify(TrimEnd(text), pending).ReadBody?
    ensures ReadParts(input, pending, decode, budget)
         == ReadParts(rest, NextPending(Classify(TrimEnd(text), pending), pending), decode, budget)
  {
  }

  lemma TrimEndCrlf(s: string)
    requires |s| > 0 && !IsWhitespace(s[|s| - 1])
    ensures TrimEnd(s + "\r\n") == s
  {
    var t := s + "\r\n";
    assert t[..|t| - 1] == s + "\r";
    assert (s + "\r")[..|s|] == s;
  }

  /** `Content-Length: n`, written by the server, sets the pending length
      to `n`. */
  lemma LengthLineClassified(n: nat)
    requires n <= USIZE_MAX
    ensures Classify("Content-Length: " + NatToString(n), None) == SetLength(n)
  {
    var d := NatToString(n);
    var t := "Content-Length: " + d;
    assert AsciiLower(t) == "content-length:" + (" " + d) by {
      LowerDigits(d);
      LowerAppend("Content-Length: ", d);
    }
    assert (AsciiLower(t))[..15] == "content-length:";
    assert StripPrefix(AsciiLower(t), "content-length:") == Some(" " + d);
    TrimAfterSpace(d);
    ParseFormatted(n, USIZE_MAX);
    assert t[..2][0] == 'C';
    assert !StartsWith(t, "--");
  }

  lemma TrimAfterSpace(d: string)
    requires |d| > 0 && AllDigits(d)
    ensures Trim(" " + d) == d
  {
    assert (" " + d)[1..] == d;
    assert IsDigit(d[0]) && IsDigit(d[|d| - 1]);
    TrimUnchanged(d);
  }

  lemma LowerAppend(a: string, b: string)
    ensures AsciiLower(a + b) == AsciiLower(a) + AsciiLower(b)
  {
  }

  lemma LowerDigits(d: string)
    requires AllDigits(d)
    ensures AsciiLower(d) == d
  {
  }

  /** The blank line reads exactly the pending number of body bytes, then
      two more, and decodes the body. */
  lemma ReadsBody(body: seq<byte>, more: seq<byte>, decode: seq<byte> -> Option<Raster.Image>, budget: Option<nat>)
    ensures Utf8.IsAscii("\r\n")
    ensures ReadParts(Utf8.AsciiBytes("\r\n") + (body + CRLF + more), Some(|body|), decode, budget)
         == AfterBody(body, more, decode, budget)
  {
    var rest := body + CRLF + more;
    BlankLineRead(rest);
    assert LineIo.ReadExact(rest, |body|) == Some((body, CRLF + more)) by {
      assert rest[..|body|] == body && rest[|body|..] == CRLF + more;
    }
    assert Skip(CRLF + more, 2) == more;
    ReadPartsOnBody(Utf8.AsciiBytes("\r\n") + rest, "\r\n", rest, Some(|body|), decode, budget, body, CRLF + more);
  }

  /** One step of the reader on the blank line that starts a body it can
      read in full. */
  lemma ReadPartsOnBody(input: seq<byte>, text: string, rest: seq<byte>, pending: Option<nat>,
                        decode: seq<byte> -> Option<Raster.Image>, budget: Option<nat>,
                        body: seq<byte>, after: seq<byte>)
    requires LineIo.ReadLine(input) == LineIo.Line(text, rest)
    requires Classify(TrimEnd(text), pending).ReadBody?
    requires LineIo.ReadExact(rest, Classify(TrimEnd(text), pending).n) == Some((body, after))
    ensures ReadParts(input, pending, decode, budget) == AfterBody(body, Skip(after, 2), decode, budget)
  {
  }

  /** A blank line whose body is cut short ends the reader. */
  lemma ShortBodyEnds(n: nat, rest: seq<byte>, decode: seq<byte> -> Option<Raster.Image>, budget: Option<nat>)
    requires |rest| < n
    ensures Utf8.IsAscii("\r\n")
    ensures ReadParts(Utf8.AsciiBytes("\r\n") + rest, Some(n), decode, budget) == []
  {
    BlankLineRead(rest);
  }

  /** The blank line is read as one line and trims to nothing. */
  lemma BlankLineRead(rest: seq<byte>)
    ensures Utf8.IsAscii("\r\n")
    ensures LineIo.ReadLine(Utf8.AsciiBytes("\r\n") + rest) == LineIo.Line("\r\n", rest)
    ensures TrimEnd("\r\n") == []
  {
    LineIo.ReadLineAscii("\r", rest);
    assert "\r" + "\n" == "\r\n";
    assert TrimEnd("\r\n") == [];
  }

  // ---- reconnecting ---------------------------------------------------------

  /** What one connection attempt to the stream URL gives: an error, or a
      response whose body is these bytes. */
  datatype Connection = Refused | Connected(body: seq<byte>)

  /** The attempts made, the images offered, and the send budget left. */
  datatype RetryRun = RetryRun(attempts: nat, offered: seq<Raster.Image>, budget: Option<nat>)

  const MAX_ATTEMPTS: nat := 10

  /** `stream_mjpeg_with_retries` on `url` from attempt `attempt` on;
      `connect(url, k)` is the outcome of attempt `k`. The reader never
      reports success, so the loop ends only when the attempts run out, and
      returns `false`. */
  function Retries(url: string, attempt: nat, connect: (string, nat) -> Connection,
                   decode: seq<byte> -> Option<Raster.Image>, budget: Option<nat>): (r: RetryRun)
    requires 1 <= attempt <= MAX_ATTEMPTS
    ensures r.attempts == MAX_ATTEMPTS
    ensures budget.Some? <==> r.budget.Some?
    ensures budget.Some? ==> |r.offered| + r.budget.value == budget.value
    decreases MAX_ATTEMPTS - attempt
  {
    var (offered, left) := match connect(url, attempt)
      case Refused => ([], budget)
      case Connected(body) =>
        var o := ReadParts(body, None, decode, budget);
        (o, Channel.Spend(budget, |o|));
    if attempt >= MAX_ATTEMPTS then RetryRun(attempt, offered, left)
    else
      var later := Retries(url, attempt + 1, connect, decode, left);
      RetryRun(later.attempts, offered + later.offered, later.budget)
  }

  function StreamWithRetries(url: string, connect: (string, nat) -> Connection,
                             decode: seq<byte> -> Option<Raster.Image>, budget: Option<nat>): (r: RetryRun)
    ensures r.attempts == MAX_ATTEMPTS
    ensures budget.Some? <==> r.budget.Some?
    ensures budget.Some? ==> |r.offered| + r.budget.value == budget.value
  {
    Retries(url, 1, connect, decode, budget)
  }

  /** Ten refusals in a row end the loop with nothing offered. */
  lemma {:induction false} AllRefused(url: string, attempt: nat, decode: seq<byte> -> Option<Raster.Image>,
                                      budget: Option<nat>)
    requires 1 <= attempt <= MAX_ATTEMPTS
    ensures Retries(url, attempt, (_, _) => Refused, decode, budget) == RetryRun(MAX_ATTEMPTS, [], budget)
    decreases MAX_ATTEMPTS - attempt
  {
    if attempt < MAX_ATTEMPTS {
      AllRefused(url, attempt + 1, decode, budget);
    }
  }
}
