/** Reading the build directory out of `xcodebuild -showBuildSettings`,
    which app/src/xcode/build.rs and app/crates/xcode/src/lib.rs each do
    the same way: the value on the first line that, trimmed, starts with
    `CONFIGURATION_BUILD_DIR = `. */
module BuildSettings {
  import opened Wrappers
  import opened Text
  import Seqs

  const BUILD_DIR_KEY := "CONFIGURATION_BUILD_DIR = "

  predicate IsBuildDirLine(line: string) {
    StartsWith(Trim(line), BUILD_DIR_KEY)
  }

  /** The value on the first build-directory line among `lines`. */
  function BuildDirIn(lines: seq<string>): (r: Option<string>)
    ensures r.None? <==> Seqs.FirstWhere(lines, IsBuildDirLine).None?
    ensures r.Some? ==> BUILD_DIR_KEY + r.value == Trim(lines[Seqs.FirstWhere(lines, IsBuildDirLine).value])
  {
    if |lines| == 0 then None
    else match StripPrefix(Trim(lines[0]), BUILD_DIR_KEY)
      case Some(value) => Some(value)
      case None =>
        var rest := BuildDirIn(lines[1..]);
        FirstWhereTail(lines, IsBuildDirLine);
        rest
  }

  /** When the head does not match, the first match is one further on than
      in the tail. */
  lemma FirstWhereTail(s: seq<string>, p: string -> bool)
    requires |s| > 0 && !p(s[0])
    ensures Seqs.FirstWhere(s, p).None? <==> Seqs.FirstWhere(s[1..], p).None?
    ensures Seqs.FirstWhere(s, p).Some? ==> Seqs.FirstWhere(s, p).value == Seqs.FirstWhere(s[1..], p).value + 1
  {
  }

  /** `extract_build_dir_from_settings` / `extract_build_dir`. */
  function ExtractBuildDir(output: string): Option<string> {
    BuildDirIn(Lines(output))
  }

  /** Some line is a build-directory line exactly when a value is found,
      and the value is what follows the key on such a line. */
  lemma BuildDirInFound(lines: seq<string>)
    ensures BuildDirIn(lines).None? <==> forall i :: 0 <= i < |lines| ==> !IsBuildDirLine(lines[i])
    ensures BuildDirIn(lines).Some? ==> exists i :: 0 <= i < |lines| && Trim(lines[i]) == BUILD_DIR_KEY + BuildDirIn(lines).value
  {
    if BuildDirIn(lines).Some? {
      var k := Seqs.FirstWhere(lines, IsBuildDirLine).value;
      assert Trim(lines[k]) == BUILD_DIR_KEY + BuildDirIn(lines).value;
    }
  }

  /** Trimming text indented with whitespace gives back the text, when it
      neither starts nor ends with whitespace itself. */
  lemma {:induction false} TrimIndented(indent: string, s: string)
    requires forall i :: 0 <= i < |indent| ==> IsWhitespace(indent[i])
    requires |s| > 0 && !IsWhitespace(s[0]) && !IsWhitespace(s[|s| - 1])
    ensures Trim(indent + s) == s
  {
    if |indent| == 0 {
      assert indent + s == s;
      TrimUnchanged(s);
    } else {
      assert (indent + s)[1..] == indent[1..] + s;
      TrimIndented(indent[1..], s);
    }
  }

  /** An indented `CONFIGURATION_BUILD_DIR = <dir>` line, as
      `-showBuildSettings` prints it, yields `<dir>` when no earlier line is
      a build-directory line. */
  lemma SettingLineFound(before: seq<string>, indent: string, dir: string, after: seq<string>)
    requires forall i :: 0 <= i < |before| ==> !IsBuildDirLine(before[i])
    requires forall i :: 0 <= i < |indent| ==> IsWhitespace(indent[i])
    requires |dir| > 0 && !IsWhitespace(dir[|dir| - 1])
    ensures BuildDirIn(before + [indent + BUILD_DIR_KEY + dir] + after) == Some(dir)
  {
    var line := indent + BUILD_DIR_KEY + dir;
    var lines := before + [line] + after;
    assert line == indent + (BUILD_DIR_KEY + dir);
    TrimIndented(indent, BUILD_DIR_KEY + dir);
    assert (BUILD_DIR_KEY + dir)[..|BUILD_DIR_KEY|] == BUILD_DIR_KEY;
    assert IsBuildDirLine(lines[|before|]);
    assert forall i :: 0 <= i < |before| ==> lines[i] == before[i];
    var k := Seqs.FirstWhere(lines, IsBuildDirLine).value;
    assert k == |before|;
  }
}
