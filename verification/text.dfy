/** The `str` operations the modelled code relies on, with the semantics of
    Rust's standard library. Strings are sequences of Unicode scalar values. */
module Text {
  import opened Wrappers

  /** `char::is_whitespace`: the Unicode White_Space property. */
  predicate IsWhitespace(c: char) {
    || c == ' '
    || ('\t' <= c <= '\r')
    || c == '\U{85}'
    || c == '\U{A0}'
    || c == '\U{1680}'
    || ('\U{2000}' <= c <= '\U{200A}')
    || c == '\U{2028}'
    || c == '\U{2029}'
    || c == '\U{202F}'
    || c == '\U{205F}'
    || c == '\U{3000}'
  }

  predicate IsDigit(c: char) {
    '0' <= c <= '9'
  }

  predicate AllDigits(s: string) {
    forall i :: 0 <= i < |s| ==> IsDigit(s[i])
  }

  predicate StartsWith(s: string, prefix: string) {
    |prefix| <= |s| && s[..|prefix|] == prefix
  }

  predicate EndsWith(s: string, suffix: string) {
    |suffix| <= |s| && s[|s| - |suffix|..] == suffix
  }

  /** `pattern` occurs in `s` starting at index `i`. */
  predicate OccursAt(s: string, pattern: string, i: nat) {
    i + |pattern| <= |s| && s[i..i + |pattern|] == pattern
  }

  /** `str::contains`. */
  predicate Contains(s: string, pattern: string) {
    exists i: nat :: i + |pattern| <= |s| && OccursAt(s, pattern, i)
  }

  /** `str::find` starting the search at `from`. */
  function FindFrom(s: string, pattern: string, from: nat): (r: Option<nat>)
    decreases |s| - from
    ensures r.Some? ==> from <= r.value && OccursAt(s, pattern, r.value)
    ensures r.Some? ==> forall j: nat :: from <= j < r.value ==> !OccursAt(s, pattern, j)
    ensures r.None? ==> forall j: nat :: from <= j ==> !OccursAt(s, pattern, j)
  {
    if from + |pattern| > |s| then None
    else if OccursAt(s, pattern, from) then Some(from)
    else FindFrom(s, pattern, from + 1)
  }

  /** `str::find`: the index of the first occurrence. */
  function Find(s: string, pattern: string): (r: Option<nat>)
    ensures r.Some? <==> Contains(s, pattern)
    ensures r.Some? ==> OccursAt(s, pattern, r.value)
    ensures r.Some? ==> forall j: nat :: j < r.value ==> !OccursAt(s, pattern, j)
  {
    FindFrom(s, pattern, 0)
  }

  lemma PrefixContains(s: string, prefix: string, rest: string)
    requires s == prefix + rest
    ensures Contains(s, prefix)
  {
    assert OccursAt(s, prefix, 0);
  }

  /** An occurrence begins with the pattern's first character. */
  lemma OccursAtHead(s: string, pattern: string, i: nat)
    requires |pattern| > 0
    ensures OccursAt(s, pattern, i) ==> s[i] == pattern[0]
  {
    if OccursAt(s, pattern, i) {
      assert s[i..i + |pattern|][0] == s[i];
    }
  }

  lemma ContainsInSuffix(prefix: string, rest: string, pattern: string)
    requires Contains(rest, pattern)
    ensures Contains(prefix + rest, pattern)
  {
    var i: nat :| i + |pattern| <= |rest| && OccursAt(rest, pattern, i);
    var s := prefix + rest;
    assert s[|prefix| + i..|prefix| + i + |pattern|] == rest[i..i + |pattern|];
    assert OccursAt(s, pattern, |prefix| + i);
  }

  /** `str::strip_prefix`. */
  function StripPrefix(s: string, prefix: string): (r: Option<string>)
    ensures r.Some? <==> StartsWith(s, prefix)
    ensures r.Some? ==> prefix + r.value == s
  {
    if StartsWith(s, prefix) then Some(s[|prefix|..]) else None
  }

  /** `str::trim_end`. */
  function TrimEnd(s: string): (r: string)
    ensures |r| <= |s| && r == s[..|r|]
    ensures r == [] || !IsWhitespace(r[|r| - 1])
    ensures forall i :: |r| <= i < |s| ==> IsWhitespace(s[i])
  {
    if |s| > 0 && IsWhitespace(s[|s| - 1]) then TrimEnd(s[..|s| - 1]) else s
  }

  /** A line's newline goes with `trim_end` when the text before it ends in
      something other than whitespace. */
  lemma TrimEndNewline(s: string)
    requires |s| > 0 && !IsWhitespace(s[|s| - 1])
    ensures TrimEnd(s + "\n") == s
  {
    assert (s + "\n")[..|s|] == s;
  }

  /** `str::trim_start`. */
  function TrimStart(s: string): (r: string)
    ensures |r| <= |s| && r == s[|s| - |r|..]
    ensures r == [] || !IsWhitespace(r[0])
    ensures forall i :: 0 <= i < |s| - |r| ==> IsWhitespace(s[i])
  {
    if |s| > 0 && IsWhitespace(s[0]) then TrimStart(s[1..]) else s
  }

  /** `str::trim`. */
  function Trim(s: string): string {
    TrimEnd(TrimStart(s))
  }

  /** Text that neither starts nor ends with whitespace is its own trim. */
  lemma TrimUnchanged(s: string)
    requires s == [] || (!IsWhitespace(s[0]) && !IsWhitespace(s[|s| - 1]))
    ensures TrimStart(s) == s && TrimEnd(s) == s && Trim(s) == s
  {
  }

  /** `str::trim_start_matches(c)` for a single character. */
  function TrimStartChar(s: string, c: char): (r: string)
    ensures |r| <= |s| && r == s[|s| - |r|..]
    ensures r == [] || r[0] != c
    ensures forall i :: 0 <= i < |s| - |r| ==> s[i] == c
  {
    if |s| > 0 && s[0] == c then TrimStartChar(s[1..], c) else s
  }

  /** `str::trim_end_matches(c)` for a single character. */
  function TrimEndChar(s: string, c: char): (r: string)
    ensures |r| <= |s| && r == s[..|r|]
    ensures r == [] || r[|r| - 1] != c
    ensures forall i :: |r| <= i < |s| ==> s[i] == c
  {
    if |s| > 0 && s[|s| - 1] == c then TrimEndChar(s[..|s| - 1], c) else s
  }

  /** `str::trim_matches(c)` for a single character. */
  function TrimChar(s: string, c: char): string {
    TrimEndChar(TrimStartChar(s, c), c)
  }

  lemma TrimCharUnchanged(s: string, c: char)
    requires s == [] || (s[0] != c && s[|s| - 1] != c)
    ensures TrimChar(s, c) == s
  {
  }

  lemma TrimStartPastOne(c: char, b: string)
    requires IsWhitespace(c) && (b == [] || !IsWhitespace(b[0]))
    ensures TrimStart([c] + b) == b
  {
    assert ([c] + b)[1..] == b;
  }

  lemma TrimStartCharOnce(c: char, b: string)
    requires b == [] || b[0] != c
    ensures TrimStartChar([c] + b, c) == b
  {
    assert ([c] + b)[1..] == b;
  }

  lemma TrimEndCharOnce(b: string, c: char)
    requires b == [] || b[|b| - 1] != c
    ensures TrimEndChar(b + [c], c) == b
  {
    assert (b + [c])[..|b|] == b;
  }

  /** `count` copies of `pattern`, concatenated. */
  function Repeat(pattern: string, count: nat): string {
    if count == 0 then [] else Repeat(pattern, count - 1) + pattern
  }

  /** Strips `pattern` from the end of `s` as often as it occurs there; the
      text left and how many copies went. */
  function StripSuffixes(s: string, pattern: string): (r: (string, nat))
    decreases |s|
    ensures s == r.0 + Repeat(pattern, r.1)
    ensures pattern != [] ==> !EndsWith(r.0, pattern)
  {
    if pattern != [] && EndsWith(s, pattern) then
      var shorter := s[..|s| - |pattern|];
      var (t, k) := StripSuffixes(shorter, pattern);
      assert s == shorter + pattern;
      assert t + Repeat(pattern, k + 1) == (t + Repeat(pattern, k)) + pattern;
      (t, k + 1)
    else
      assert s + Repeat(pattern, 0) == s;
      (s, 0)
  }

  /** `str::trim_end_matches(pattern)`. */
  function TrimEndMatches(s: string, pattern: string): (r: string)
    ensures pattern != [] ==> !EndsWith(r, pattern)
    ensures exists k: nat :: s == r + Repeat(pattern, k)
  {
    var (r, k) := StripSuffixes(s, pattern);
    assert s == r + Repeat(pattern, k);
    r
  }

  /** The index of the first `c` in `s`. */
  function IndexOfChar(s: string, c: char): (r: Option<nat>)
    ensures r.Some? ==> r.value < |s| && s[r.value] == c
    ensures r.Some? ==> forall j :: 0 <= j < r.value ==> s[j] != c
    ensures r.None? ==> forall j :: 0 <= j < |s| ==> s[j] != c
  {
    if |s| == 0 then None
    else if s[0] == c then Some(0)
    else match IndexOfChar(s[1..], c)
      case None => None
      case Some(i) => Some(i + 1)
  }

  /** Joins the segments with `sep` between them (the inverse of `Split`). */
  function JoinWith(parts: seq<string>, sep: char): string {
    if |parts| == 0 then []
    else if |parts| == 1 then parts[0]
    else parts[0] + [sep] + JoinWith(parts[1..], sep)
  }

  /** `str::split(sep)`: every segment, including empty ones. */
  function Split(s: string, sep: char): (r: seq<string>)
    decreases |s|
    ensures |r| >= 1
    ensures forall i, j :: 0 <= i < |r| && 0 <= j < |r[i]| ==> r[i][j] != sep
    ensures JoinWith(r, sep) == s
  {
    match IndexOfChar(s, sep)
    case None => [s]
    case Some(i) =>
      var rest := Split(s[i + 1..], sep);
      assert s == s[..i] + [sep] + s[i + 1..];
      [s[..i]] + rest
  }

  /** Splitting text made by joining separator-free segments gives the
      segments back. */
  lemma {:induction false} SplitJoin(parts: seq<string>, sep: char)
    requires |parts| >= 1
    requires forall i, j :: 0 <= i < |parts| && 0 <= j < |parts[i]| ==> parts[i][j] != sep
    ensures Split(JoinWith(parts, sep), sep) == parts
  {
    var s := JoinWith(parts, sep);
    if |parts| == 1 {
      assert IndexOfChar(s, sep).None?;
    } else {
      var a, b := parts[0], JoinWith(parts[1..], sep);
      assert s == a + [sep] + b;
      assert forall j :: 0 <= j < |a| ==> a[j] != sep;
      FirstSeparator(a, sep, b);
      assert Split(s, sep) == [a] + Split(b, sep);
      SplitJoin(parts[1..], sep);
      assert parts == [a] + parts[1..];
    }
  }

  /** The first `sep` of `a` is also the first of `a + b`. */
  lemma {:induction false} IndexOfCharPrefix(a: string, b: string, c: char)
    requires IndexOfChar(a, c).Some?
    ensures IndexOfChar(a + b, c) == IndexOfChar(a, c)
  {
    if a[0] != c {
      assert (a + b)[1..] == a[1..] + b;
      IndexOfCharPrefix(a[1..], b, c);
    }
  }

  /** `Split` unfolded at the first separator. */
  lemma SplitStep(s: string, sep: char)
    ensures IndexOfChar(s, sep).None? ==> Split(s, sep) == [s]
    ensures IndexOfChar(s, sep).Some? ==> var i := IndexOfChar(s, sep).value;
      Split(s, sep) == [s[..i]] + Split(s[i + 1..], sep)
  {
  }

  /** Splitting at a separator between `a` and `b` splits each side apart. */
  lemma {:induction false} SplitAround(a: string, sep: char, b: string)
    ensures Split(a + [sep] + b, sep) == Split(a, sep) + Split(b, sep)
    decreases |a|
  {
    match IndexOfChar(a, sep)
    case None =>
      SplitAroundLast(a, sep, b);
    case Some(i) =>
      SplitAroundTail(a, sep, b, i);
      SplitAround(a[i + 1..], sep, b);
      ConcatAssoc([a[..i]], Split(a[i + 1..], sep), Split(b, sep));
  }

  /** Concatenation of split lists is associative. */
  lemma ConcatAssoc(x: seq<string>, y: seq<string>, z: seq<string>)
    ensures x + (y + z) == (x + y) + z
  {
  }

  /** With no separator in `a`, the one between `a` and `b` splits first. */
  lemma SplitAroundLast(a: string, sep: char, b: string)
    requires IndexOfChar(a, sep).None?
    ensures Split(a + [sep] + b, sep) == Split(a, sep) + Split(b, sep)
  {
    SplitStep(a, sep);
    FirstSeparator(a, sep, b);
    SplitStep(a + [sep] + b, sep);
  }

  /** The first separator of `a` starts the split of `a + [sep] + b`. */
  lemma SplitAroundTail(a: string, sep: char, b: string, i: nat)
    requires IndexOfChar(a, sep) == Some(i)
    ensures Split(a + [sep] + b, sep) == [a[..i]] + Split(a[i + 1..] + [sep] + b, sep)
    ensures Split(a, sep) == [a[..i]] + Split(a[i + 1..], sep)
  {
    SplitStep(a, sep);
    var s := a + [sep] + b;
    IndexOfCharPrefix(a, [sep] + b, sep);
    assert s == a + ([sep] + b);
    assert s[..i] == a[..i];
    assert s[i + 1..] == a[i + 1..] + [sep] + b;
    SplitStep(s, sep);
  }

  /** `str::splitn(2, sep)`: the text before the first `sep` and, if there
      was one, the text after it. */
  function SplitOnce(s: string, sep: char): (r: (string, Option<string>))
    ensures r.1.None? ==> r.0 == s && forall j :: 0 <= j < |s| ==> s[j] != sep
    ensures r.1.Some? ==> s == r.0 + [sep] + r.1.value && forall j :: 0 <= j < |r.0| ==> r.0[j] != sep
  {
    match IndexOfChar(s, sep)
    case None => (s, None)
    case Some(i) =>
      assert s == s[..i] + [sep] + s[i + 1..];
      (s[..i], Some(s[i + 1..]))
  }

  /** Splitting at the first `sep` of `a + [sep] + b`, where `a` has none,
      gives `a` and `b`. */
  lemma SplitOnceAt(a: string, sep: char, b: string)
    requires forall j :: 0 <= j < |a| ==> a[j] != sep
    ensures SplitOnce(a + [sep] + b, sep) == (a, Some(b))
  {
    FirstSeparator(a, sep, b);
  }

  /** The first `sep` of `a + [sep] + b`, where `a` has none, is the one
      after `a`. */
  lemma FirstSeparator(a: string, sep: char, b: string)
    requires forall j :: 0 <= j < |a| ==> a[j] != sep
    ensures IndexOfChar(a + [sep] + b, sep) == Some(|a|)
    ensures (a + [sep] + b)[..|a|] == a && (a + [sep] + b)[|a| + 1..] == b
  {
    var s := a + [sep] + b;
    assert s[|a|] == sep;
    assert forall j :: 0 <= j < |a| ==> s[j] == a[j];
  }

  /** `str::lines`: lines end at `\n`, a `\r` right before it is dropped, and
      a final empty line is not reported. */
  function Lines(s: string): (r: seq<string>)
    decreases |s|
    ensures forall i, j :: 0 <= i < |r| && 0 <= j < |r[i]| ==> r[i][j] != '\n'
  {
    if |s| == 0 then []
    else match IndexOfChar(s, '\n')
      case None => [s]
      case Some(i) =>
        var line := if i > 0 && s[i - 1] == '\r' then s[..i - 1] else s[..i];
        [line] + Lines(s[i + 1..])
  }

  /** `char::to_ascii_lowercase`. */
  function LowerChar(c: char): char {
    if 'A' <= c <= 'Z' then (c as int + 32) as char else c
  }

  /** `str::to_ascii_lowercase`. */
  function AsciiLower(s: string): (r: string)
    ensures |r| == |s|
    ensures forall i :: 0 <= i < |s| ==> r[i] == LowerChar(s[i])
  {
    seq(|s|, i requires 0 <= i < |s| => LowerChar(s[i]))
  }

  /** The first whitespace-separated token, as `split_whitespace().next()`. */
  function FirstToken(s: string): (r: Option<string>)
    ensures r.None? <==> forall i :: 0 <= i < |s| ==> IsWhitespace(s[i])
    ensures r.Some? ==> |r.value| > 0 && forall i :: 0 <= i < |r.value| ==> !IsWhitespace(r.value[i])
  {
    var t := TrimStart(s);
    if |t| == 0 then None else Some(t[..TokenEnd(t, 0)])
  }

  function TokenEnd(t: string, i: nat): (r: nat)
    requires i <= |t|
    decreases |t| - i
    ensures i <= r <= |t|
    ensures forall j :: i <= j < r ==> !IsWhitespace(t[j])
    ensures r < |t| ==> IsWhitespace(t[r])
  {
    if i == |t| || IsWhitespace(t[i]) then i else TokenEnd(t, i + 1)
  }

  // ---- decimal numbers -------------------------------------------------

  function DigitValue(c: char): nat
    requires IsDigit(c)
  {
    c as int - '0' as int
  }

  function DigitChar(d: nat): (c: char)
    requires d < 10
    ensures IsDigit(c) && DigitValue(c) == d
  {
    ('0' as int + d) as char
  }

  /** The value of a string of decimal digits. */
  function DigitsValue(s: string): nat
    requires AllDigits(s)
  {
    if |s| == 0 then 0 else DigitsValue(s[..|s| - 1]) * 10 + DigitValue(s[|s| - 1])
  }

  /** Rust's `str::parse` for an unsigned integer type whose largest value
      is `max`: an optional `+`, then at least one decimal digit, and a value
      that fits. */
  function ParseUnsigned(s: string, max: nat): (r: Option<nat>)
    ensures r.Some? ==> r.value <= max
  {
    var digits := if |s| > 0 && s[0] == '+' then s[1..] else s;
    if |digits| == 0 || !AllDigits(digits) then None
    else if DigitsValue(digits) > max then None
    else Some(DigitsValue(digits))
  }

  /** `format!("{}", n)`. */
  function NatToString(n: nat): (r: string)
    ensures |r| >= 1 && AllDigits(r)
    ensures r[0] != '+'
    ensures DigitsValue(r) == n
  {
    if n < 10 then [DigitChar(n)]
    else
      var prefix := NatToString(n / 10);
      var r := prefix + [DigitChar(n % 10)];
      assert r[..|r| - 1] == prefix;
      r
  }

  /** Formatting a number and parsing it back gives the number. */
  lemma ParseFormatted(n: nat, max: nat)
    requires n <= max
    ensures ParseUnsigned(NatToString(n), max) == Some(n)
  {
  }
}
