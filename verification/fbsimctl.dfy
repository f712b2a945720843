/** The raw-surface capture path of the desktop app
    (app/crates/app/src/main.rs): the `fbsimctl stream --bgra` startup banner,
    the geometry check, and the slicing of its stdout into frames. */
module Fbsimctl {
  import opened Wrappers
  import opened Bytes
  import opened Text
  import LineIo
  import Utf8
  import Raster
  import Channel

  /** The surface geometry the banner announces, in bytes and pixels. */
  datatype Attributes = Attributes(width: nat, height: nat, rowSize: nat, frameSize: nat)

  const MARKER: string := "Mounting Surface with Attributes:"

  // ---- the banner line ----------------------------------------------------

  /** The four values while the `;`-separated list is read. */
  datatype Fields = Fields(width: Option<nat>, height: Option<nat>, rowSize: Option<nat>, frameSize: Option<nat>)

  const NO_FIELDS: Fields := Fields(None, None, None, None)

  predicate IsKnownKey(key: string) {
    key == "width" || key == "height" || key == "row_size" || key == "frame_size"
  }

  /** Records `value` under `key`; a later value replaces an earlier one and
      an unknown key changes nothing. */
  function Assign(f: Fields, key: string, value: Option<nat>): (r: Fields)
    ensures !IsKnownKey(key) ==> r == f
    ensures key == "width" ==> r == f.(width := value)
    ensures key == "height" ==> r == f.(height := value)
    ensures key == "row_size" ==> r == f.(rowSize := value)
    ensures key == "frame_size" ==> r == f.(frameSize := value)
  {
    if key == "width" then f.(width := value)
    else if key == "height" then f.(height := value)
    else if key == "row_size" then f.(rowSize := value)
    else if key == "frame_size" then f.(frameSize := value)
    else f
  }

  /** One `;` segment: blank ones are skipped, one without `=` ends the
      parse, and a value that is not a `usize` is recorded as missing. */
  function ApplyPart(f: Fields, part: string): Option<Fields> {
    var p := Trim(part);
    if p == [] then Some(f)
    else
      var (key, value) := SplitOnce(p, '=');
      if value.None? then None
      else Some(Assign(f, TrimChar(Trim(key), '"'), ParseUnsigned(Trim(value.value), USIZE_MAX)))
  }

  /** A blank segment changes nothing; a non-blank one without `=` makes
      the whole line unparsable. */
  lemma ApplyPartOutcomes(f: Fields, part: string)
    ensures Trim(part) == [] ==> ApplyPart(f, part) == Some(f)
    ensures Trim(part) != [] && NoChar(Trim(part), '=') ==> ApplyPart(f, part).None?
  {
  }

  /** Applies `step` to each segment in order, stopping at the first `None`. */
  function Fold<S>(step: (S, string) -> Option<S>, f: S, parts: seq<string>): Option<S>
    decreases |parts|
  {
    if |parts| == 0 then Some(f)
    else match step(f, parts[0])
      case None => None
      case Some(g) => Fold(step, g, parts[1..])
  }

  /** The loop over the `;` segments. */
  function ApplyParts(f: Fields, parts: seq<string>): Option<Fields> {
    Fold(ApplyPart, f, parts)
  }

  /** Width and height are required; the row size defaults to four bytes a
      pixel and the frame size to rows times height, saturating. */
  function Assemble(f: Fields): (r: Option<Attributes>)
    ensures r.Some? <==> f.width.Some? && f.height.Some?
    ensures r.Some? ==> r.value.width == f.width.value && r.value.height == f.height.value
    ensures r.Some? && f.rowSize.None? ==> r.value.rowSize == 4 * r.value.width
    ensures r.Some? && f.frameSize.None? ==> r.value.frameSize == SaturatingMul(r.value.rowSize, r.value.height)
  {
    if f.width.None? || f.height.None? then None
    else
      var width := f.width.value;
      var height := f.height.value;
      var rowSize := f.rowSize.UnwrapOr(width * 4);
      var frameSize := f.frameSize.UnwrapOr(SaturatingMul(rowSize, height));
      Some(Attributes(width, height, rowSize, frameSize))
  }

  /** The `{...}` list that follows the marker, with blanks and braces trimmed. */
  function AttributeList(afterMarker: string): string {
    TrimEndChar(TrimStartChar(Trim(afterMarker), '{'), '}')
  }

  /** `parse_fbsimctl_attributes_line`. */
  function ParseAttributesLine(line: string): (r: Option<Attributes>)
    ensures !Contains(line, MARKER) ==> r.None?
  {
    var start :- Find(line, MARKER);
    var f :- ApplyParts(NO_FIELDS, Split(AttributeList(line[start + |MARKER|..]), ';'));
    Assemble(f)
  }

  /** Reading the segments in order: the state after `parts + [p]` is the
      state after `parts`, then `p` applied. */
  lemma {:induction false} FoldAppend<S>(step: (S, string) -> Option<S>, f: S, parts: seq<string>, p: string)
    ensures Fold(step, f, parts + [p]) ==
      match Fold(step, f, parts) case None => None case Some(g) => step(g, p)
  {
    var q := parts + [p];
    if |parts| > 0 {
      assert q[0] == parts[0];
      assert q[1..] == parts[1..] + [p];
      var o := step(f, parts[0]);
      if o.Some? {
        FoldAppend(step, o.value, parts[1..], p);
      }
    } else {
      assert q[1..] == [];
    }
  }

  // ---- the banner, written out ----------------------------------------------

  /** `key=value`, one segment of the banner. */
  function Segment(key: string, n: nat): string {
    key + "=" + NatToString(n)
  }

  /** The segment for an optional value: none when it is absent. */
  function OptSegment(key: string, n: Option<nat>): seq<string> {
    if n.Some? then [Segment(key, n.value)] else []
  }

  function Segments(width: nat, height: nat, rowSize: Option<nat>, frameSize: Option<nat>): seq<string> {
    [Segment("width", width), Segment("height", height)]
      + OptSegment("row_size", rowSize) + OptSegment("frame_size", frameSize)
  }

  /** The banner line as fbsimctl writes it, with the optional sizes present
      or not. */
  function FormatBanner(width: nat, height: nat, rowSize: Option<nat>, frameSize: Option<nat>): string {
    MARKER + " {" + JoinWith(Segments(width, height, rowSize, frameSize), ';') + "}"
  }

  predicate NoChar(s: string, c: char) {
    forall j :: 0 <= j < |s| ==> s[j] != c
  }

  lemma DigitsHaveNoSeparator(n: nat)
    ensures var d := NatToString(n);
      NoChar(d, ';') && NoChar(d, '=') && !IsWhitespace(d[0]) && !IsWhitespace(d[|d| - 1])
  {
  }

  /** The four keys are plain words: no blanks, quotes, `=` or `;`. */
  lemma KnownKeyShape(key: string)
    requires IsKnownKey(key)
    ensures |key| > 0 && !IsWhitespace(key[0]) && !IsWhitespace(key[|key| - 1])
    ensures key[0] != '"' && key[|key| - 1] != '"'
    ensures NoChar(key, '=') && NoChar(key, ';')
  {
  }

  lemma {:induction false} SegmentParses(f: Fields, key: string, n: nat)
    requires IsKnownKey(key) && n <= USIZE_MAX
    ensures ApplyPart(f, Segment(key, n)) == Some(Assign(f, key, Some(n)))
  {
    var d := NatToString(n);
    var s := Segment(key, n);
    DigitsHaveNoSeparator(n);
    KnownKeyShape(key);
    assert s[0] == key[0] && s[|s| - 1] == d[|d| - 1];
    TrimUnchanged(s);
    assert s == key + ['='] + d;
    SplitOnceAt(key, '=', d);
    TrimUnchanged(key);
    TrimCharUnchanged(key, '"');
    TrimUnchanged(d);
    ParseFormatted(n, USIZE_MAX);
  }

  lemma AppendSegment(l: seq<string>, g: Fields, key: string, n: nat)
    requires IsKnownKey(key) && n <= USIZE_MAX
    requires ApplyParts(NO_FIELDS, l) == Some(g)
    ensures ApplyParts(NO_FIELDS, l + [Segment(key, n)]) == Some(Assign(g, key, Some(n)))
  {
    FoldAppend(ApplyPart, NO_FIELDS, l, Segment(key, n));
    SegmentParses(g, key, n);
  }

  lemma AppendOptSegment(l: seq<string>, g: Fields, key: string, n: Option<nat>)
    requires IsKnownKey(key) && (n.Some? ==> n.value <= USIZE_MAX)
    requires ApplyParts(NO_FIELDS, l) == Some(g)
    ensures ApplyParts(NO_FIELDS, l + OptSegment(key, n)) == Some(if n.Some? then Assign(g, key, n) else g)
  {
    if n.Some? {
      AppendSegment(l, g, key, n.value);
    } else {
      assert l + OptSegment(key, n) == l;
    }
  }

  lemma {:induction false} SegmentsParse(width: nat, height: nat, rowSize: Option<nat>, frameSize: Option<nat>)
    requires width <= USIZE_MAX && height <= USIZE_MAX
    requires rowSize.Some? ==> rowSize.value <= USIZE_MAX
    requires frameSize.Some? ==> frameSize.value <= USIZE_MAX
    ensures ApplyParts(NO_FIELDS, Segments(width, height, rowSize, frameSize))
         == Some(Fields(Some(width), Some(height), rowSize, frameSize))
  {
    var w := Segment("width", width);
    var h := Segment("height", height);
    var f1 := NO_FIELDS.(width := Some(width));
    var f2 := f1.(height := Some(height));
    var f3 := f2.(rowSize := rowSize);
    var f4 := f3.(frameSize := frameSize);
    assert ApplyParts(NO_FIELDS, []) == Some(NO_FIELDS);
    AppendSegment([], NO_FIELDS, "width", width);
    assert [] + [w] == [w];
    AppendSegment([w], f1, "height", height);
    var l2 := [w] + [h];
    AppendOptSegment(l2, f2, "row_size", rowSize);
    var l3 := l2 + OptSegment("row_size", rowSize);
    assert ApplyParts(NO_FIELDS, l3) == Some(f3);
    AppendOptSegment(l3, f3, "frame_size", frameSize);
    var l4 := l3 + OptSegment("frame_size", frameSize);
    assert ApplyParts(NO_FIELDS, l4) == Some(f4);
    assert l2 == [Segment("width", width), Segment("height", height)];
    assert l4 == Segments(width, height, rowSize, frameSize);
  }

  /** A segment holds no `;`, starts with its key and ends with a digit. */
  predicate WellShaped(seg: string) {
    |seg| > 0 && NoChar(seg, ';') && seg[0] != '{' && IsDigit(seg[|seg| - 1])
  }

  lemma SegmentShape(key: string, n: nat)
    requires IsKnownKey(key)
    ensures WellShaped(Segment(key, n)) && Segment(key, n)[0] == key[0]
  {
    KnownKeyShape(key);
    DigitsHaveNoSeparator(n);
    var d := NatToString(n);
    var s := Segment(key, n);
    assert s == key + "=" + d;
    assert s[|s| - 1] == d[|d| - 1];
  }

  lemma OptSegmentShape(key: string, n: Option<nat>)
    requires IsKnownKey(key)
    ensures forall i :: 0 <= i < |OptSegment(key, n)| ==> WellShaped(OptSegment(key, n)[i])
  {
    if n.Some? {
      SegmentShape(key, n.value);
    }
  }

  lemma SegmentsShape(width: nat, height: nat, rowSize: Option<nat>, frameSize: Option<nat>)
    ensures var segs := Segments(width, height, rowSize, frameSize);
      |segs| >= 2 && (forall i :: 0 <= i < |segs| ==> WellShaped(segs[i])) && segs[0][0] == 'w'
  {
    SegmentShape("width", width);
    SegmentShape("height", height);
    OptSegmentShape("row_size", rowSize);
    OptSegmentShape("frame_size", frameSize);
  }

  lemma {:induction false} JoinEnds(segs: seq<string>)
    requires |segs| >= 1 && |segs[0]| > 0 && forall i :: 0 <= i < |segs| ==> WellShaped(segs[i])
    ensures var j := JoinWith(segs, ';');
      |j| > 0 && j[0] == segs[0][0] && IsDigit(j[|j| - 1])
  {
    if |segs| > 1 {
      assert WellShaped(segs[1]);
      JoinEnds(segs[1..]);
    }
  }

  lemma FindAtStart(rest: string)
    ensures Find(MARKER + rest, MARKER) == Some(0)
  {
    assert (MARKER + rest)[..|MARKER|] == MARKER;
    assert OccursAt(MARKER + rest, MARKER, 0);
  }

  lemma ListOfBanner(j: string)
    requires |j| > 0 && j[0] != '{' && IsDigit(j[|j| - 1])
    ensures AttributeList(" {" + j + "}") == j
  {
    var closed := j + "}";
    var braced := "{" + closed;
    assert " {" + j + "}" == [' '] + braced;
    TrimStartPastOne(' ', braced);
    TrimUnchanged(braced);
    TrimStartCharOnce('{', closed);
    TrimEndCharOnce(j, '}');
  }

  /** The line's parse is the assembly of the fields its list yields. */
  lemma ParseThroughList(line: string, j: string, f: Fields)
    requires Find(line, MARKER) == Some(0)
    requires AttributeList(line[|MARKER|..]) == j
    requires ApplyParts(NO_FIELDS, Split(j, ';')) == Some(f)
    ensures ParseAttributesLine(line) == Assemble(f)
  {
  }

  /** Parsing the banner as fbsimctl writes it gives back its values, with
      the documented defaults for the ones left out. */
  lemma BannerRoundTrip(width: nat, height: nat, rowSize: Option<nat>, frameSize: Option<nat>)
    requires width <= USIZE_MAX && height <= USIZE_MAX
    requires rowSize.Some? ==> rowSize.value <= USIZE_MAX
    requires frameSize.Some? ==> frameSize.value <= USIZE_MAX
    ensures var row := rowSize.UnwrapOr(4 * width);
      ParseAttributesLine(FormatBanner(width, height, rowSize, frameSize))
        == Some(Attributes(width, height, row, frameSize.UnwrapOr(SaturatingMul(row, height))))
  {
    var segs := Segments(width, height, rowSize, frameSize);
    var j := JoinWith(segs, ';');
    var rest := " {" + j + "}";
    var line := FormatBanner(width, height, rowSize, frameSize);
    var f := Fields(Some(width), Some(height), rowSize, frameSize);
    assert line == MARKER + rest;
    FindAtStart(rest);
    assert line[|MARKER|..] == rest;
    BannerList(width, height, rowSize, frameSize);
    BannerFields(width, height, rowSize, frameSize);
    ParseThroughList(line, j, f);
    AssembleAll(width, height, rowSize, frameSize);
  }

  /** The attribute list of the banner is its joined segments. */
  lemma BannerList(width: nat, height: nat, rowSize: Option<nat>, frameSize: Option<nat>)
    ensures var j := JoinWith(Segments(width, height, rowSize, frameSize), ';');
      AttributeList(" {" + j + "}") == j
  {
    var segs := Segments(width, height, rowSize, frameSize);
    SegmentsShape(width, height, rowSize, frameSize);
    JoinEnds(segs);
    ListOfBanner(JoinWith(segs, ';'));
  }

  /** The banner's joined segments split and parse back into its fields. */
  lemma BannerFields(width: nat, height: nat, rowSize: Option<nat>, frameSize: Option<nat>)
    requires width <= USIZE_MAX && height <= USIZE_MAX
    requires rowSize.Some? ==> rowSize.value <= USIZE_MAX
    requires frameSize.Some? ==> frameSize.value <= USIZE_MAX
    ensures ApplyParts(NO_FIELDS, Split(JoinWith(Segments(width, height, rowSize, frameSize), ';'), ';'))
         == Some(Fields(Some(width), Some(height), rowSize, frameSize))
  {
    var segs := Segments(width, height, rowSize, frameSize);
    SegmentsShape(width, height, rowSize, frameSize);
    assert forall i, k :: 0 <= i < |segs| && 0 <= k < |segs[i]| ==> segs[i][k] != ';' by {
      forall i, k | 0 <= i < |segs| && 0 <= k < |segs[i]| ensures segs[i][k] != ';' {
        assert WellShaped(segs[i]);
      }
    }
    SplitJoin(segs, ';');
    SegmentsParse(width, height, rowSize, frameSize);
  }

  lemma AssembleAll(width: nat, height: nat, rowSize: Option<nat>, frameSize: Option<nat>)
    ensures var row := rowSize.UnwrapOr(4 * width);
      Assemble(Fields(Some(width), Some(height), rowSize, frameSize))
        == Some(Attributes(width, height, row, frameSize.UnwrapOr(SaturatingMul(row, height))))
  {
  }

  // ---- the stderr scan ------------------------------------------------------

  /** The thread that reads fbsimctl's stderr: it looks for the marker, joins
      the banner's lines until one holds `}`, and reports the first banner
      that parses. It gives up at the end of input or on a read error. */
  function ScanBanner(stderr: seq<byte>, block: Option<string>): (r: Option<Attributes>)
    decreases |stderr|
  {
    match LineIo.ReadLine(stderr)
    case Eof => None
    case Invalid(_) => None
    case Line(text, rest) =>
      var t := TrimEnd(text);
      if block.Some? then
        var joined := if t != [] then block.value + " " + t else block.value;
        if Contains(t, "}") then
          match ParseAttributesLine(joined)
          case Some(a) => Some(a)
          case None => ScanBanner(rest, None)
        else ScanBanner(rest, Some(joined))
      else if Contains(t, MARKER) then
        if Contains(t, "}") then
          match ParseAttributesLine(t)
          case Some(a) => Some(a)
          case None => ScanBanner(rest, None)
        else ScanBanner(rest, Some(t))
      else ScanBanner(rest, None)
  }

  predicate AllAsciiLines(segs: seq<string>) {
    forall i :: 0 <= i < |segs| ==> LineIo.IsAsciiLine(segs[i])
  }

  /** The banner as fbsimctl writes it is one ASCII line. */
  lemma BannerIsAsciiLine(width: nat, height: nat, rowSize: Option<nat>, frameSize: Option<nat>)
    ensures LineIo.IsAsciiLine(FormatBanner(width, height, rowSize, frameSize))
  {
    var segs := Segments(width, height, rowSize, frameSize);
    SegmentsAsciiLines(width, height, rowSize, frameSize);
    JoinAsciiLine(segs);
    var j := JoinWith(segs, ';');
    var head := MARKER + " {";
    HeadIsAsciiLine();
    LineIo.AsciiLineAppend(head, j);
    LineIo.AsciiLineAppend(head + j, "}");
    assert FormatBanner(width, height, rowSize, frameSize) == head + j + "}";
  }

  lemma HeadIsAsciiLine()
    ensures LineIo.IsAsciiLine(MARKER + " {")
  {
  }

  lemma SegmentsAsciiLines(width: nat, height: nat, rowSize: Option<nat>, frameSize: Option<nat>)
    ensures AllAsciiLines(Segments(width, height, rowSize, frameSize))
  {
    SegmentAsciiLine("width", width);
    SegmentAsciiLine("height", height);
    OptSegmentAsciiLine("row_size", rowSize);
    OptSegmentAsciiLine("frame_size", frameSize);
    var a := [Segment("width", width), Segment("height", height)];
    var b := OptSegment("row_size", rowSize);
    var c := OptSegment("frame_size", frameSize);
    assert AllAsciiLines(a);
    assert AllAsciiLines(a + b);
    assert AllAsciiLines(a + b + c);
  }

  lemma OptSegmentAsciiLine(key: string, n: Option<nat>)
    requires IsKnownKey(key)
    ensures AllAsciiLines(OptSegment(key, n))
  {
    if n.Some? {
      SegmentAsciiLine(key, n.value);
    }
  }

  lemma SegmentAsciiLine(key: string, n: nat)
    requires IsKnownKey(key)
    ensures LineIo.IsAsciiLine(Segment(key, n))
  {
    var d := NatToString(n);
    assert forall i :: 0 <= i < |d| ==> IsDigit(d[i]);
    LineIo.AsciiLineAppend(key, "=");
    LineIo.AsciiLineAppend(key + "=", d);
  }

  lemma {:induction false} JoinAsciiLine(segs: seq<string>)
    requires AllAsciiLines(segs)
    ensures LineIo.IsAsciiLine(JoinWith(segs, ';'))
  {
    if |segs| > 1 {
      JoinAsciiLine(segs[1..]);
      LineIo.AsciiLineAppend(segs[0], ";");
      LineIo.AsciiLineAppend(segs[0] + ";", JoinWith(segs[1..], ';'));
    }
  }

  /** A one-line banner at the head of stderr is what the scan reports. */
  lemma ScanFindsBanner(width: nat, height: nat, rowSize: Option<nat>, frameSize: Option<nat>, rest: seq<byte>)
    requires width <= USIZE_MAX && height <= USIZE_MAX
    requires rowSize.Some? ==> rowSize.value <= USIZE_MAX
    requires frameSize.Some? ==> frameSize.value <= USIZE_MAX
    ensures Utf8.IsAscii(FormatBanner(width, height, rowSize, frameSize) + "\n")
    ensures var row := rowSize.UnwrapOr(4 * width);
      ScanBanner(Utf8.AsciiBytes(FormatBanner(width, height, rowSize, frameSize) + "\n") + rest, None)
        == Some(Attributes(width, height, row, frameSize.UnwrapOr(SaturatingMul(row, height))))
  {
    var banner := FormatBanner(width, height, rowSize, frameSize);
    BannerIsAsciiLine(width, height, rowSize, frameSize);
    assert Contains(banner, MARKER) && banner[|banner| - 1] == '}' by {
      var j := JoinWith(Segments(width, height, rowSize, frameSize), ';');
      assert banner == MARKER + (" {" + j + "}");
      FindAtStart(" {" + j + "}");
    }
    BannerRoundTrip(width, height, rowSize, frameSize);
    ScanBannerLine(banner, rest);
  }

  /** An ASCII line that ends in `}`, holds the marker and parses is
      reported when it comes first. */
  lemma ScanBannerLine(banner: string, rest: seq<byte>)
    requires LineIo.IsAsciiLine(banner) && |banner| > 0 && banner[|banner| - 1] == '}'
    requires Contains(banner, MARKER) && ParseAttributesLine(banner).Some?
    ensures Utf8.IsAscii(banner + "\n")
    ensures ScanBanner(Utf8.AsciiBytes(banner + "\n") + rest, None) == ParseAttributesLine(banner)
  {
    LineIo.ReadLineAscii(banner, rest);
    TrimEndNewline(banner);
    LastCharContained(banner);
    ScanFirstLine(Utf8.AsciiBytes(banner + "\n") + rest, banner);
  }

  lemma LastCharContained(s: string)
    requires |s| > 0
    ensures Contains(s, [s[|s| - 1]])
  {
    assert s[|s| - 1..] == [s[|s| - 1]];
    assert OccursAt(s, [s[|s| - 1]], |s| - 1);
  }

  /** A first line that holds the marker and a `}` and parses is reported. */
  lemma ScanFirstLine(stderr: seq<byte>, t: string)
    requires LineIo.ReadLine(stderr).Line? && TrimEnd(LineIo.ReadLine(stderr).text) == t
    requires Contains(t, MARKER) && Contains(t, "}") && ParseAttributesLine(t).Some?
    ensures ScanBanner(stderr, None) == ParseAttributesLine(t)
  {
  }

  /** An ASCII line without the marker, in front of the banner, is passed
      over. */
  lemma ScanSkipsLine(line: string, rest: seq<byte>)
    requires LineIo.IsAsciiLine(line) && !Contains(TrimEnd(line + "\n"), MARKER)
    ensures Utf8.IsAscii(line + "\n")
    ensures ScanBanner(Utf8.AsciiBytes(line + "\n") + rest, None) == ScanBanner(rest, None)
  {
    LineIo.ReadLineAscii(line, rest);
  }

  /** A stderr that ends or fails before any line with the marker yields
      nothing. */
  lemma ScanWithoutMarker(stderr: seq<byte>)
    requires forall i :: 0 <= i < |stderr| ==> stderr[i] != LineIo.NEWLINE
    requires LineIo.ReadLine(stderr).Line? ==> !Contains(TrimEnd(LineIo.ReadLine(stderr).text), MARKER)
    ensures ScanBanner(stderr, None) == None
  {
    if |stderr| > 0 {
      var r := LineIo.ReadLine(stderr);
      assert |r.rest| == 0;
    }
  }

  // ---- the geometry check ---------------------------------------------------

  /** The check as written: rows at least `4 * width` bytes long, and
      `row_size * height` (saturating) no more than `frame_size`. */
  predicate GeometryAcceptedAsWritten(a: Attributes) {
    !(a.rowSize < a.width * 4) && !(SaturatingMul(a.rowSize, a.height) > a.frameSize)
  }

  /** The check the slicing loop needs: rows long enough, every row inside
      the frame by the exact product, and a frame of at least one byte. */
  predicate GeometryOk(a: Attributes) {
    a.rowSize >= 4 * a.width && a.rowSize * a.height <= a.frameSize && a.frameSize > 0
  }

  /** Row `y`'s pixels end inside the frame. */
  predicate RowInFrame(a: Attributes, y: nat) {
    y * a.rowSize + 4 * a.width <= a.frameSize
  }

  /** Under the corrected check every row `read_fbsimctl_stream` copies lies
      inside the frame, so no slice goes out of bounds. */
  lemma RowsFit(a: Attributes)
    requires GeometryOk(a)
    ensures a.height == 0 || (a.height - 1) * a.rowSize + 4 * a.width <= a.frameSize
    ensures forall y :: 0 <= y < a.height ==> RowInFrame(a, y)
  {
    forall y | 0 <= y < a.height ensures RowInFrame(a, y) {
      Raster.MulSucc(y, a.rowSize);
      Raster.MulMonotone(y + 1, a.height, a.rowSize);
    }
    if a.height > 0 {
      assert RowInFrame(a, a.height - 1);
    }
  }

  /** The corrected check differs from the one written only where the
      product saturates or the frame is empty. */
  lemma GeometryCorrection(a: Attributes)
    requires a.rowSize * a.height <= USIZE_MAX
    ensures GeometryOk(a) <==> GeometryAcceptedAsWritten(a) && a.frameSize > 0
  {
  }

  /** A banner of height 0 and no sizes passes the check as written with a
      frame size of 0. */
  lemma ZeroFrameAccepted()
    ensures ParseAttributesLine(FormatBanner(390, 0, None, None)) == Some(Attributes(390, 0, 1560, 0))
    ensures GeometryAcceptedAsWritten(Attributes(390, 0, 1560, 0))
    ensures !GeometryOk(Attributes(390, 0, 1560, 0))
  {
    BannerRoundTrip(390, 0, None, None);
  }

  /** A saturated product passes the check as written although row 1 of
      the frame ends past its end. */
  lemma SaturationAdmitsOverrun()
    ensures var a := Attributes(0x2000_0000_0000_0000, 2, 0x8000_0000_0000_0000, USIZE_MAX);
      GeometryAcceptedAsWritten(a) && !RowInFrame(a, 1) && !GeometryOk(a)
  {
  }

  // ---- slicing stdout into frames -------------------------------------------

  /** How many frames the inner `while` of `read_fbsimctl_stream` takes from
      `remaining` stashed bytes, as written, allowed at most `fuel` turns. */
  function FramesTakenAsWritten(remaining: nat, frameSize: nat, fuel: nat): (n: nat)
    ensures n <= fuel
    decreases fuel
  {
    if fuel == 0 || remaining < frameSize then 0
    else 1 + FramesTakenAsWritten(remaining - frameSize, frameSize, fuel - 1)
  }

  /** With a frame size of 0 the loop uses every turn it is given: it never
      leaves by its own condition. */
  lemma {:induction false} ZeroFrameNeverStops(remaining: nat, fuel: nat)
    ensures FramesTakenAsWritten(remaining, 0, fuel) == fuel
    decreases fuel
  {
    if fuel > 0 {
      ZeroFrameNeverStops(remaining, fuel - 1);
    }
  }

  /** Every frame is `frameSize` bytes long. */
  predicate FramesOfSize(frames: seq<seq<byte>>, frameSize: nat) {
    forall i :: 0 <= i < |frames| ==> |frames[i]| == frameSize
  }

  /** Splits the stash into whole frames and the bytes left over. */
  function Slice(stash: seq<byte>, frameSize: nat): (r: (seq<seq<byte>>, seq<byte>))
    requires frameSize > 0
    ensures FramesOfSize(r.0, frameSize)
    ensures Flatten(r.0) + r.1 == stash
    ensures |r.1| < frameSize
    decreases |stash|
  {
    if |stash| < frameSize then ([], stash)
    else
      var later := Slice(stash[frameSize..], frameSize);
      SliceStep(stash, frameSize, later.0, later.1);
      var frames := [stash[..frameSize]] + later.0;
      (frames, later.1)
  }

  /** One frame cut off the front, in front of the frames of the rest. */
  lemma SliceStep(stash: seq<byte>, frameSize: nat, frames: seq<seq<byte>>, rest: seq<byte>)
    requires 0 < frameSize <= |stash|
    requires FramesOfSize(frames, frameSize) && Flatten(frames) + rest == stash[frameSize..]
    ensures FramesOfSize([stash[..frameSize]] + frames, frameSize)
    ensures Flatten([stash[..frameSize]] + frames) + rest == stash
  {
    var head := stash[..frameSize];
    var all := [head] + frames;
    assert all[1..] == frames;
    assert Flatten(all) == head + Flatten(frames);
    assert stash == head + stash[frameSize..];
    assert forall i :: 0 < i < |all| ==> all[i] == frames[i - 1];
  }

  /** With a positive frame size the loop stops by its own condition after
      taking exactly the frames `Slice` cuts. */
  lemma {:induction false} LoopTakesSlicedFrames(stash: seq<byte>, frameSize: nat, fuel: nat)
    requires frameSize > 0 && fuel > |stash|
    ensures FramesTakenAsWritten(|stash|, frameSize, fuel) == |Slice(stash, frameSize).0|
    decreases |stash|
  {
    if |stash| >= frameSize {
      LoopTakesSlicedFrames(stash[frameSize..], frameSize, fuel - 1);
    }
  }

  /** Whole frames followed by fewer than a frame's bytes slice back into
      those frames and those bytes. */
  lemma {:induction false} SliceOfFrames(frames: seq<seq<byte>>, tail: seq<byte>, frameSize: nat)
    requires frameSize > 0 && |tail| < frameSize
    requires FramesOfSize(frames, frameSize)
    ensures Slice(Flatten(frames) + tail, frameSize) == (frames, tail)
  {
    var s := Flatten(frames) + tail;
    if |frames| == 0 {
      assert s == tail;
    } else {
      var after := Flatten(frames[1..]) + tail;
      assert s == frames[0] + after;
      assert s[..frameSize] == frames[0] && s[frameSize..] == after;
      SliceOfFrames(frames[1..], tail, frameSize);
      assert Slice(s, frameSize) == ([frames[0]] + frames[1..], tail);
      assert [frames[0]] + frames[1..] == frames;
    }
  }

  /** Slicing after more bytes arrive continues from what was left over. */
  lemma SliceAppend(stash: seq<byte>, more: seq<byte>, frameSize: nat)
    requires frameSize > 0
    ensures Slice(stash + more, frameSize)
      == (Slice(stash, frameSize).0 + Slice(Slice(stash, frameSize).1 + more, frameSize).0,
          Slice(Slice(stash, frameSize).1 + more, frameSize).1)
  {
    var first := Slice(stash, frameSize);
    var second := Slice(first.1 + more, frameSize);
    var frames := first.0 + second.0;
    Regroup(Flatten(first.0), first.1, more);
    Regroup(Flatten(first.0), Flatten(second.0), second.1);
    FlattenAppend(first.0, second.0);
    assert stash + more == Flatten(frames) + second.1;
    FramesOfSizeAppend(first.0, second.0, frameSize);
    SliceOfFrames(frames, second.1, frameSize);
  }

  lemma FramesOfSizeAppend(a: seq<seq<byte>>, b: seq<seq<byte>>, frameSize: nat)
    requires FramesOfSize(a, frameSize) && FramesOfSize(b, frameSize)
    ensures FramesOfSize(a + b, frameSize)
  {
    assert forall i :: 0 <= i < |a + b| ==> (a + b)[i] == if i < |a| then a[i] else b[i - |a|];
  }

  // ---- frames into images ---------------------------------------------------

  /** One frame as an image: each row's `4 * width` pixel bytes, padding
      dropped, kept in BGRA order, with the dimensions cast to `u32`.
      `from_raw` fails only when `4 * width * height` overflows. */
  function FrameImage(frame: seq<byte>, a: Attributes): (r: Option<Raster.Image>)
    requires GeometryOk(a) && |frame| == a.frameSize
    ensures r.Some? <==> 4 * AsU32(a.width) * AsU32(a.height) <= USIZE_MAX
    ensures r.Some? ==> r.value.width == AsU32(a.width) && r.value.height == AsU32(a.height)
    ensures r.Some? ==> |r.value.pixels| == a.height * (4 * a.width)
    ensures r.Some? ==> forall y :: 0 <= y < a.height ==>
      Raster.RowCopied(r.value.pixels, frame, 4 * a.width, a.rowSize, y)
  {
    RowsFit(a);
    var packed := Raster.Destride(frame, 4 * a.width, a.height, a.rowSize);
    Raster.DestrideRows(frame, 4 * a.width, a.height, a.rowSize);
    CastFits(a.width, a.height);
    Raster.FromRaw(AsU32(a.width), AsU32(a.height), packed)
  }

  /** The cast dimensions never ask for more bytes than the packed rows. */
  lemma CastFits(width: nat, height: nat)
    ensures 4 * AsU32(width) * AsU32(height) <= height * (4 * width)
  {
    Raster.MulMonotone(AsU32(width), width, AsU32(height));
    Raster.MulMonotone(AsU32(height), height, width);
    assert AsU32(width) * AsU32(height) <= width * height;
  }

  /** The images of the frames, in order, skipping those `from_raw` refuses. */
  function Images(frames: seq<seq<byte>>, a: Attributes): (r: seq<Raster.Image>)
    requires GeometryOk(a) && FramesOfSize(frames, a.frameSize)
    ensures |r| <= |frames|
  {
    if |frames| == 0 then []
    else
      var rest := Images(frames[1..], a);
      match FrameImage(frames[0], a)
      case Some(image) => [image] + rest
      case None => rest
  }

  lemma {:induction false} ImagesAppend(f1: seq<seq<byte>>, f2: seq<seq<byte>>, a: Attributes)
    requires GeometryOk(a) && FramesOfSize(f1, a.frameSize) && FramesOfSize(f2, a.frameSize)
    ensures FramesOfSize(f1 + f2, a.frameSize)
    ensures Images(f1 + f2, a) == Images(f1, a) + Images(f2, a)
  {
    assert FramesOfSize(f1 + f2, a.frameSize);
    if |f1| > 0 {
      assert (f1 + f2)[1..] == f1[1..] + f2;
      ImagesAppend(f1[1..], f2, a);
    } else {
      assert f1 + f2 == f2;
    }
  }

  // ---- reading stdout -------------------------------------------------------

  /** `read_fbsimctl_stream`: `chunks` are the successful chunks of stdout in
      order (an empty one is end of input); `budget` is how many `try_send`
      calls succeed before the receiver is gone (`None`: it never goes).
      The function gives the images offered, in order; the source then
      returns `false` in every case. */
  function ReadStream(chunks: seq<seq<byte>>, stash: seq<byte>, a: Attributes, budget: Option<nat>): (offered: seq<Raster.Image>)
    requires GeometryOk(a)
    ensures budget.Some? ==> |offered| <= budget.value
    decreases |chunks|
  {
    if |chunks| == 0 || |chunks[0]| == 0 then []
    else
      var (frames, rest) := Slice(stash + chunks[0], a.frameSize);
      var images := Images(frames, a);
      if budget.Some? && |images| > budget.value then images[..budget.value]
      else images + ReadStream(chunks[1..], rest, a, Channel.Spend(budget, |images|))
  }

  /** How stdout arrives in chunks does not matter: the images offered are
      those of the whole frames in everything read, up to the budget. */
  lemma {:induction false} StreamIgnoresChunking(chunks: seq<seq<byte>>, stash: seq<byte>, a: Attributes, budget: Option<nat>)
    requires GeometryOk(a) && |stash| < a.frameSize
    requires forall i :: 0 <= i < |chunks| ==> |chunks[i]| > 0
    ensures ReadStream(chunks, stash, a, budget)
         == Channel.Cut(Images(Slice(stash + Flatten(chunks), a.frameSize).0, a), budget)
    decreases |chunks|
  {
    var fs := a.frameSize;
    if |chunks| == 0 {
      assert stash + Flatten(chunks) == stash;
    } else {
      var first := Slice(stash + chunks[0], fs);
      var later := Flatten(chunks[1..]);
      assert stash + Flatten(chunks) == (stash + chunks[0]) + later;
      SliceAppend(stash + chunks[0], later, fs);
      var second := Slice(first.1 + later, fs);
      ImagesAppend(first.0, second.0, a);
      var i1 := Images(first.0, a);
      Channel.CutAppend(i1, Images(second.0, a), budget);
      if !(budget.Some? && |i1| > budget.value) {
        StreamIgnoresChunking(chunks[1..], first.1, a, Channel.Spend(budget, |i1|));
      }
    }
  }

  // ---- the whole fbsimctl attempt -------------------------------------------

  /** The frame rate asked of fbsimctl: `PLASMA_FBSIMCTL_FPS` when it parses
      as a `u32`, else 30. */
  function FbsimctlFps(env: Option<string>): (fps: nat)
    ensures fps <= U32_MAX
    ensures env.None? ==> fps == 30
    ensures env.Some? && ParseUnsigned(env.value, U32_MAX).Some? ==> fps == ParseUnsigned(env.value, U32_MAX).value
  {
    if env.Some? then ParseUnsigned(env.value, U32_MAX).UnwrapOr(30) else 30
  }

  /** A frame rate written into the variable is the one used. */
  lemma FpsFromEnv(n: nat)
    requires n <= U32_MAX
    ensures FbsimctlFps(Some(NatToString(n))) == n
  {
    ParseFormatted(n, U32_MAX);
  }

  /** The arguments fbsimctl is started with. */
  function FbsimctlArgs(udid: string, debugEnv: Option<string>, fps: nat): (args: seq<string>)
    ensures |args| == (if debugEnv == Some("1") then 7 else 6)
    ensures args[|args| - 6..] == [udid, "stream", "--bgra", "--fps", NatToString(fps), "-"]
    ensures debugEnv == Some("1") ==> args[0] == "--debug-logging"
  {
    var tail := [udid, "stream", "--bgra", "--fps", NatToString(fps), "-"];
    if debugEnv == Some("1") then ["--debug-logging"] + tail else tail
  }

  /** What an fbsimctl attempt did: whether it stored capture mode 4, the
      images it offered, and the send budget left. When `spinning` holds an
      image the attempt never returns: after `offered` it keeps offering
      that image for as long as the receiver stays. Otherwise it reports
      failure (`false`) to its caller. */
  datatype FbsimctlRun = FbsimctlRun(modeStored: bool, offered: seq<Raster.Image>, budget: Option<nat>,
                                     spinning: Option<Raster.Image>)

  /** The image every turn of the slicing loop offers when `frame_size` is
      0: the check then forces a width or a height of 0, so the image has no
      pixels. */
  function EmptyFrameImage(a: Attributes): (r: Raster.Image)
    requires GeometryAcceptedAsWritten(a) && a.frameSize == 0
    ensures r.width == AsU32(a.width) && r.height == AsU32(a.height) && r.pixels == []
    ensures r.width == 0 || r.height == 0
  {
    assert a.width == 0 || a.height == 0 by {
      if a.height > 0 {
        Raster.MulMonotone(1, a.height, a.rowSize);
      }
    }
    var made := Raster.FromRaw(AsU32(a.width), AsU32(a.height), []);
    assert made.Some?;
    made.value
  }

  /** `read_fbsimctl_stream` with a `frame_size` of 0: nothing happens
      until a first read brings bytes; from then on the inner `while` never
      leaves by its condition (see `ZeroFrameNeverStops`) and offers the
      empty image on every turn, until the receiver is gone, or forever. */
  function ZeroFrameRun(chunks: seq<seq<byte>>, a: Attributes, budget: Option<nat>): (r: FbsimctlRun)
    requires GeometryAcceptedAsWritten(a) && a.frameSize == 0
    ensures r.modeStored
    ensures (|chunks| == 0 || |chunks[0]| == 0) ==> r == FbsimctlRun(true, [], budget, None)
    ensures |chunks| > 0 && |chunks[0]| > 0 && budget.None? ==>
      r == FbsimctlRun(true, [], None, Some(EmptyFrameImage(a)))
    ensures |chunks| > 0 && |chunks[0]| > 0 && budget.Some? ==>
      r.budget == Some(0) && r.spinning.None? && |r.offered| == budget.value
      && forall i :: 0 <= i < |r.offered| ==> r.offered[i] == EmptyFrameImage(a)
  {
    if |chunks| == 0 || |chunks[0]| == 0 then FbsimctlRun(true, [], budget, None)
    else
      var image := EmptyFrameImage(a);
      match budget
      case None => FbsimctlRun(true, [], None, Some(image))
      case Some(n) => FbsimctlRun(true, seq(n, _ => image), Some(0), None)
  }

  /** `capture_frames_with_fbsimctl`. `stderr` is what fbsimctl writes to
      stderr before the 10-second wait for the banner ends; `chunks` are the
      reads of its stdout. Past the geometry check as written, three cases:
      a geometry the slicing loop can use streams the frames; a
      `frame_size` of 0 spins on empty images; and a saturated product
      (`frame_size` `usize::MAX`) waits for a frame no stash can hold, so
      nothing is offered before stdout ends. */
  function CaptureWithFbsimctl(binaryFound: bool, spawned: bool, stderr: seq<byte>,
                               chunks: seq<seq<byte>>, budget: Option<nat>): (r: FbsimctlRun)
    ensures r.modeStored <==> binaryFound && spawned && ScanBanner(stderr, None).Some?
                              && GeometryAcceptedAsWritten(ScanBanner(stderr, None).value)
    ensures !r.modeStored ==> r.offered == [] && r.budget == budget && r.spinning.None?
    ensures r.spinning.Some? ==> budget.None? && r.offered == [] && ScanBanner(stderr, None).value.frameSize == 0
    ensures budget.Some? ==> r.budget.Some? && |r.offered| + r.budget.value == budget.value
    ensures budget.None? ==> r.budget.None?
  {
    if !binaryFound || !spawned then FbsimctlRun(false, [], budget, None)
    else match ScanBanner(stderr, None)
      case None => FbsimctlRun(false, [], budget, None)
      case Some(a) =>
        if !GeometryAcceptedAsWritten(a) then FbsimctlRun(false, [], budget, None)
        else if GeometryOk(a) then
          var offered := ReadStream(chunks, [], a, budget);
          FbsimctlRun(true, offered, Channel.Spend(budget, |offered|), None)
        else if a.frameSize == 0 then ZeroFrameRun(chunks, a, budget)
        else FbsimctlRun(true, [], budget, None)
  }

  /** Past the check as written, a geometry is one of three kinds: usable
      by the slicing loop, a `frame_size` of 0, or a saturated product with
      `frame_size` `usize::MAX` (the sizes being `usize` values). */
  lemma AcceptedGeometries(a: Attributes)
    requires a.frameSize <= USIZE_MAX
    requires GeometryAcceptedAsWritten(a)
    ensures GeometryOk(a) || a.frameSize == 0
            || (a.frameSize == USIZE_MAX && a.rowSize * a.height > USIZE_MAX)
  {
  }

  /** With a usable geometry, the images offered are those of the whole
      frames in stdout, whatever the reads, up to the budget. */
  lemma CaptureOffersWholeFrames(binaryFound: bool, spawned: bool, stderr: seq<byte>,
                                 chunks: seq<seq<byte>>, budget: Option<nat>)
    requires forall i :: 0 <= i < |chunks| ==> |chunks[i]| > 0
    ensures var r := CaptureWithFbsimctl(binaryFound, spawned, stderr, chunks, budget);
      r.modeStored && GeometryOk(ScanBanner(stderr, None).value) ==>
        && r.spinning.None?
        && r.offered == Channel.Cut(Images(Slice(Flatten(chunks), ScanBanner(stderr, None).value.frameSize).0,
                                           ScanBanner(stderr, None).value), budget)
  {
    var r := CaptureWithFbsimctl(binaryFound, spawned, stderr, chunks, budget);
    if r.modeStored && GeometryOk(ScanBanner(stderr, None).value) {
      var a := ScanBanner(stderr, None).value;
      StreamIgnoresChunking(chunks, [], a, budget);
      assert [] + Flatten(chunks) == Flatten(chunks);
    }
  }

  /** The 390 by 0 banner of `ZeroFrameAccepted` stores mode 4 and, once
      stdout brings any byte, offers an empty 390 by 0 image on every turn:
      forever while the receiver stays, and `n` times when it goes after `n`
      sends. */
  lemma ZeroFrameSpins(stderr: seq<byte>, chunks: seq<seq<byte>>, budget: Option<nat>)
    requires ScanBanner(stderr, None) == Some(Attributes(390, 0, 1560, 0))
    requires |chunks| > 0 && |chunks[0]| > 0
    ensures var r := CaptureWithFbsimctl(true, true, stderr, chunks, budget);
      var empty := Raster.Image(390, 0, []);
      && r.modeStored
      && (budget.None? ==> r.spinning == Some(empty) && r.offered == [])
      && (budget.Some? ==> r.spinning.None? && |r.offered| == budget.value
                           && forall i :: 0 <= i < |r.offered| ==> r.offered[i] == empty)
  {
    var a := Attributes(390, 0, 1560, 0);
    assert GeometryAcceptedAsWritten(a) && !GeometryOk(a);
    assert EmptyFrameImage(a) == Raster.Image(390, 0, []);
    assert CaptureWithFbsimctl(true, true, stderr, chunks, budget) == ZeroFrameRun(chunks, a, budget);
  }
}
