/** File-system paths with the semantics of Rust's `std::path::Path`, and a
    file system reduced to what the modelled code asks of it: whether a path
    exists, whether it is a directory, and a directory's entries in listing
    order. */
module Paths {
  import opened Wrappers
  import opened Text

  /** A path as the code holds it (`Path::new`, `PathBuf`): its text,
      exactly as given. Two texts can name the same file ("/a/b", "/a//b",
      "/a/./b/"); `Key` says which file that is. */
  datatype Path = Path(text: string)

  /** The file a path names once `Path::components` has read it: rooted or
      relative, and its components, none empty and none "."; ".." stays as
      it is. */
  datatype Loc = Loc(absolute: bool, parts: seq<string>)

  predicate IsComponent(name: string) {
    name != [] && name != "." && forall i :: 0 <= i < |name| ==> name[i] != '/'
  }

  /** What `read_dir` can list: a name that is a component and not "..". */
  predicate IsEntryName(name: string) {
    IsComponent(name) && name != ".."
  }

  type EntryName = s: string | IsEntryName(s) witness "a"

  /** `Path::new(s)`: the text is kept as it is. */
  function Parse(s: string): (p: Path)
    ensures Display(p) == s
  {
    Path(s)
  }

  /** The path as text, exactly as it was given (`to_string_lossy`,
      `display`; names are valid UTF-8 here, so nothing is lost). */
  function Display(p: Path): string {
    p.text
  }

  /** The file `p` names: separators collapse and "." components vanish. */
  function Key(p: Path): (l: Loc)
    ensures l.absolute <==> |p.text| > 0 && p.text[0] == '/'
    ensures forall i :: 0 <= i < |l.parts| ==> IsComponent(l.parts[i])
  {
    Loc(|p.text| > 0 && p.text[0] == '/', Components(Split(p.text, '/')))
  }

  function Components(segments: seq<string>): (r: seq<string>)
    requires forall i, j :: 0 <= i < |segments| && 0 <= j < |segments[i]| ==> segments[i][j] != '/'
    ensures forall i :: 0 <= i < |r| ==> IsComponent(r[i])
    ensures |r| <= |segments|
  {
    if |segments| == 0 then []
    else
      var rest := Components(segments[1..]);
      if segments[0] == [] || segments[0] == "." then rest else [segments[0]] + rest
  }

  lemma {:induction false} ComponentsAppend(x: seq<string>, y: seq<string>)
    requires forall i, j :: 0 <= i < |x| && 0 <= j < |x[i]| ==> x[i][j] != '/'
    requires forall i, j :: 0 <= i < |y| && 0 <= j < |y[i]| ==> y[i][j] != '/'
    ensures Components(x + y) == Components(x) + Components(y)
  {
    if |x| > 0 {
      assert (x + y)[1..] == x[1..] + y;
      ComponentsAppend(x[1..], y);
    } else {
      assert x + y == y;
    }
  }

  /** `PathBuf::push` of a single name: a '/' goes in between unless the
      text is empty or already ends with one. */
  function JoinText(t: string, name: string): (r: string)
    ensures EndsWith(r, name)
  {
    if t == [] || t[|t| - 1] == '/' then t + name else t + "/" + name
  }

  /** `Path::file_name`: the last component, unless there is none or it is "..". */
  function FileName(p: Path): (r: Option<string>)
    ensures var parts := Key(p).parts;
      && (r.Some? <==> |parts| > 0 && parts[|parts| - 1] != "..")
      && (r.Some? ==> r.value == parts[|parts| - 1])
  {
    var parts := Key(p).parts;
    if |parts| == 0 || parts[|parts| - 1] == ".." then None
    else Some(parts[|parts| - 1])
  }

  // ---- Path::parent, on the text ------------------------------------------

  /** How many leading characters precede the first component: the root
      "/", or the "." that starts a relative path ("." or "./..."), which
      `Path::components` reports as a component of its own. */
  function BodyStart(t: string): (b: nat)
    ensures b <= |t|
    ensures b == 1 ==> |t| > 0 && (t[0] == '/' || t[0] == '.')
  {
    if |t| > 0 && t[0] == '/' then 1
    else if t == "." || (|t| >= 2 && t[0] == '.' && t[1] == '/') then 1
    else 0
  }

  /** Where the last segment of `t` begins, looking no further left than
      `b`: just after the last '/', or `b` when there is none. */
  function SegmentStart(t: string, b: nat): (s: nat)
    requires b <= |t|
    ensures b <= s <= |t|
    ensures s > b ==> t[s - 1] == '/'
    ensures forall j :: s <= j < |t| ==> t[j] != '/'
    decreases |t|
  {
    if |t| == b then b
    else if t[|t| - 1] == '/' then |t|
    else SegmentStart(t[..|t| - 1], b)
  }

  /** The text without its last segment and the '/' before it. */
  function DropSegment(t: string, b: nat): (r: string)
    requires b <= |t|
    ensures b <= |r| <= |t| && r == t[..|r|]
    ensures |t| > b ==> |r| < |t|
  {
    var s := SegmentStart(t, b);
    if s > b then t[..s - 1] else t[..s]
  }

  /** Drops trailing empty and "." segments, as `Components::next_back`
      skips them. */
  function TrimBack(t: string, b: nat): (r: string)
    requires b <= |t|
    ensures b <= |r| <= |t| && r == t[..|r|]
    decreases |t|
  {
    if |t| == b then t
    else
      var seg := t[SegmentStart(t, b)..];
      if seg == "" || seg == "." then TrimBack(DropSegment(t, b), b) else t
  }

  /** `Path::parent`: the text before the last component, trailing
      separators and "." segments trimmed; the root and the empty path have
      none, and a path whose only component is a leading "." has "". */
  function Parent(p: Path): (r: Option<Path>)
    ensures r.Some? ==> |r.value.text| < |p.text| && r.value.text == p.text[..|r.value.text|]
  {
    var t := p.text;
    var b := BodyStart(t);
    var u := TrimBack(t, b);
    if |u| > b then Some(Path(TrimBack(DropSegment(u, b), b)))
    else if b == 1 && t[0] == '.' then Some(Path(""))
    else None
  }

  /** The index of the last `.` in `s`. */
  function LastDot(s: string): (r: Option<nat>)
    ensures r.Some? ==> r.value < |s| && s[r.value] == '.'
    ensures r.Some? ==> forall j :: r.value < j < |s| ==> s[j] != '.'
    ensures r.None? ==> forall j :: 0 <= j < |s| ==> s[j] != '.'
  {
    if |s| == 0 then None
    else if s[|s| - 1] == '.' then Some(|s| - 1)
    else LastDot(s[..|s| - 1])
  }

  /** How `Path::file_stem` and `Path::extension` split a file name: at the
      last dot, except that a name whose only dot leads it (".xcodeproj"),
      or the name "..", has no extension. */
  function SplitAtDot(name: string): (r: (string, Option<string>))
    ensures r.1.None? ==> r.0 == name
    ensures r.1.Some? ==> name == r.0 + "." + r.1.value && r.0 != []
    ensures r.1.Some? ==> forall j :: 0 <= j < |r.1.value| ==> r.1.value[j] != '.'
  {
    if name == ".." then (name, None)
    else match LastDot(name)
      case None => (name, None)
      case Some(i) =>
        if i == 0 then (name, None)
        else
          assert name == name[..i] + "." + name[i + 1..];
          (name[..i], Some(name[i + 1..]))
  }

  /** `Path::extension`. */
  function Extension(p: Path): Option<string> {
    match FileName(p)
    case None => None
    case Some(name) => SplitAtDot(name).1
  }

  /** `Path::file_stem`. */
  function FileStem(p: Path): Option<string> {
    match FileName(p)
    case None => None
    case Some(name) => Some(SplitAtDot(name).0)
  }

  /** A file name made of a non-empty stem, a dot and a dot-free, non-empty
      `ext` has extension `ext` and stem `stem`. */
  lemma ExtensionOfSuffix(p: Path, stem: string, ext: string)
    requires FileName(p) == Some(stem + "." + ext)
    requires stem != [] && ext != [] && forall j :: 0 <= j < |ext| ==> ext[j] != '.'
    ensures Extension(p) == Some(ext)
    ensures FileStem(p) == Some(stem)
  {
    var name := stem + "." + ext;
    assert name[|stem|] == '.';
    assert forall j :: |stem| < j < |name| ==> name[j] == ext[j - |stem| - 1];
    assert name[..|stem|] == stem;
    assert name[|stem| + 1..] == ext;
  }

  /** A trailing '/' changes the text but not the file, its name or its
      parent. */
  lemma TrailingSeparator(t: string)
    requires t != []
    ensures Key(Path(t + "/")) == Key(Path(t))
    ensures FileName(Path(t + "/")) == FileName(Path(t))
    ensures Parent(Path(t + "/")) == Parent(Path(t))
    ensures Display(Path(t + "/")) != Display(Path(t))
  {
    TrailingSeparatorKey(t);
    TrailingSeparatorParent(t);
  }

  lemma TrailingSeparatorKey(t: string)
    requires t != []
    ensures Key(Path(t + "/")) == Key(Path(t))
  {
    assert t + "/" == t + ['/'] + [];
    SplitAround(t, '/', []);
    SplitStep([], '/');
    ComponentsAppend(Split(t, '/'), [[]]);
  }

  lemma TrailingSeparatorParent(t: string)
    requires t != []
    ensures Parent(Path(t + "/")) == Parent(Path(t))
  {
    var u := t + "/";
    var b := BodyStart(t);
    assert BodyStart(u) == b;
    assert SegmentStart(u, b) == |u|;
    assert u[..|t|] == t;
    assert DropSegment(u, b) == t;
    assert TrimBack(u, b) == TrimBack(t, b);
  }

  /** `Path::parent` on the forms Rust's documentation gives: the root
      and the empty path have none, and a single relative name has the
      empty path. */
  lemma ParentExamples()
    ensures Parent(Path("/")) == None && Parent(Path("")) == None
    ensures Parent(Path("a")) == Some(Path(""))
    ensures Parent(Path("/a/b")) == Some(Path("/a"))
  {
    assert SegmentStart("/", 1) == 1;
    assert SegmentStart("a", 0) == 0;
    assert SegmentStart("/a/", 1) == 3;
    assert SegmentStart("/a/b", 1) == 3;
    assert DropSegment("/a/b", 1) == "/a";
    assert SegmentStart("/a", 1) == 1;
  }

  /** Trailing and doubled separators are trimmed from the parent. */
  lemma ParentTrimmed()
    ensures Parent(Path("/a//b/")) == Some(Path("/a"))
  {
    var t := "/a//b/";
    assert SegmentStart(t, 1) == 6;
    assert DropSegment(t, 1) == "/a//b";
    assert SegmentStart("/a//", 1) == 4;
    assert SegmentStart("/a//b", 1) == 4;
    assert TrimBack(t, 1) == "/a//b";
    assert DropSegment("/a//b", 1) == "/a/";
    assert SegmentStart("/a/", 1) == 3;
    assert DropSegment("/a/", 1) == "/a";
    assert SegmentStart("/a", 1) == 1;
    assert TrimBack("/a", 1) == "/a";
  }

  // ---- the file system ---------------------------------------------------

  /** What is at a path: a file, or a directory whose entries are listed in
      `read_dir` order (`None` when listing it fails). */
  datatype Node = File | Dir(listing: Option<seq<EntryName>>)

  /** The file system, by the file each path names. */
  datatype Fs = Fs(nodes: map<Loc, Node>)

  /** `Path::exists`: the empty text names nothing, "." the working
      directory. */
  predicate Exists(fs: Fs, p: Path) {
    p.text != [] && Key(p) in fs.nodes
  }

  predicate IsDir(fs: Fs, p: Path) {
    Exists(fs, p) && fs.nodes[Key(p)].Dir?
  }

  /** The names `fs::read_dir(p)` lists, in listing order, or `None` when
      `p` is not a readable directory. */
  function Listing(fs: Fs, p: Path): (r: Option<seq<string>>)
    ensures r.Some? ==> IsDir(fs, p)
    ensures !IsDir(fs, p) ==> r.None?
    ensures r.Some? ==> forall i :: 0 <= i < |r.value| ==> IsEntryName(r.value[i])
  {
    if IsDir(fs, p) && fs.nodes[Key(p)].listing.Some? then
      var names: seq<string> := fs.nodes[Key(p)].listing.value;
      Some(names)
    else None
  }

  /** The file of the entry `name` of directory `dir`. */
  function EntryKey(dir: Path, name: string): Loc {
    Loc(Key(dir).absolute, Key(dir).parts + [name])
  }

  /** `p` names an entry of directory `dir`. */
  predicate InDir(p: Path, dir: Path) {
    FileName(p).Some? && Key(p) == EntryKey(dir, FileName(p).value)
  }

  /** The path of the entry `name` of directory `p` (`DirEntry::path`,
      which is `p.join(name)`): `p`'s text as given, then `name`. */
  function Child(p: Path, name: string): (r: Path)
    ensures StartsWith(Display(r), Display(p)) && EndsWith(Display(r), name)
    ensures |Display(r)| <= |Display(p)| + 1 + |name|
  {
    Path(JoinText(p.text, name))
  }

  /** The entry `name` of `p` is the file `name` inside the one `p` names,
      and, unless `name` is "..", its file name is `name`. */
  lemma ChildNamed(p: Path, name: string)
    ensures IsComponent(name) ==> Key(Child(p, name)) == EntryKey(p, name)
    ensures IsEntryName(name) ==> FileName(Child(p, name)) == Some(name) && InDir(Child(p, name), p)
  {
    ChildKey(p.text, name);
  }

  /** Joining a component adds it to the file a path names. */
  lemma ChildKey(t: string, name: string)
    ensures IsComponent(name) ==> Key(Path(JoinText(t, name))) == EntryKey(Path(t), name)
  {
    if IsComponent(name) {
      assert Split(name, '/') == [name] by {
        assert IndexOfChar(name, '/').None?;
        SplitStep(name, '/');
      }
      JoinComponents(t, name);
    }
  }

  /** The components of `JoinText(t, name)`: those of `t`, then `name`. */
  lemma JoinComponents(t: string, name: string)
    requires Split(name, '/') == [name] && IsComponent(name)
    ensures Components(Split(JoinText(t, name), '/')) == Components(Split(t, '/')) + [name]
  {
    assert Components([name]) == [name];
    if t == [] {
      assert JoinText(t, name) == name;
      assert Split(t, '/') == [[]] by {
        SplitStep(t, '/');
      }
    } else if t[|t| - 1] == '/' {
      var a := t[..|t| - 1];
      assert a + "/" == t;
      assert JoinText(t, name) == a + "/" + name;
      JoinAfterSeparator(a, name);
    } else {
      assert JoinText(t, name) == t + ['/'] + name;
      JoinWithSeparator(t, name);
    }
  }

  lemma JoinWithSeparator(t: string, name: string)
    requires Split(name, '/') == [name] && Components([name]) == [name]
    ensures Components(Split(t + ['/'] + name, '/')) == Components(Split(t, '/')) + [name]
  {
    SplitAround(t, '/', name);
    ComponentsAppend(Split(t, '/'), [name]);
  }

  lemma JoinAfterSeparator(a: string, name: string)
    requires Split(name, '/') == [name] && Components([name]) == [name]
    ensures Components(Split(a + "/" + name, '/')) == Components(Split(a + "/", '/')) + [name]
  {
    assert a + "/" == a + ['/'] + [];
    assert a + "/" + name == a + ['/'] + name;
    SplitAround(a, '/', []);
    SplitAround(a, '/', name);
    SplitStep([], '/');
    ComponentsAppend(Split(a, '/'), [[]]);
    ComponentsAppend(Split(a, '/'), [name]);
  }
}
