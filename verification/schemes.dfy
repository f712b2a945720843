/** Xcode project discovery for the HTTP server (app/src/xcode/schemes.rs):
    the workspace or project at, in or next to a path, and its schemes,
    targets and configurations as `xcodebuild -list -json` reports them. */
module Schemes {
  import opened Wrappers
  import opened Text
  import opened Process
  import Paths
  import Seqs

  datatype Kind = Project | Workspace

  datatype XcodeProject = XcodeProject(path: Paths.Path, kind: Kind, schemes: seq<string>,
                                       targets: seq<string>, configurations: seq<string>)

  /** One side of the listing `xcodebuild -list -json` prints; a list the
      JSON leaves out reads as empty. */
  datatype ProjectInfo = ProjectInfo(configurations: seq<string>, schemes: seq<string>, targets: seq<string>)

  /** The parsed listing: a project side, a workspace side, or both. */
  datatype BuildList = BuildList(project: Option<ProjectInfo>, workspace: Option<ProjectInfo>)

  const WORKSPACE_EXT := "xcworkspace"
  const PROJECT_EXT := "xcodeproj"

  /** The extension that marks a bundle of kind `k`. */
  function ExtensionOf(k: Kind): string {
    if k == Workspace then WORKSPACE_EXT else PROJECT_EXT
  }

  /** Whether the entry `name` of `dir` has extension `ext`. */
  predicate EntryHas(dir: Paths.Path, ext: string, name: string) {
    Paths.Extension(Paths.Child(dir, name)) == Some(ext)
  }

  /** Where a path that is not itself a bundle is searched: the path when it
      is a directory, else its parent. */
  function SearchDir(fs: Paths.Fs, path: Paths.Path): (r: Option<Paths.Path>)
    ensures Paths.IsDir(fs, path) ==> r == Some(path)
    ensures !Paths.IsDir(fs, path) ==> r == Paths.Parent(path)
  {
    if Paths.IsDir(fs, path) then Some(path) else Paths.Parent(path)
  }

  /** The two passes over a listing of `dir`: the first workspace entry,
      else the first project entry, else the error naming `dir`. */
  function SearchListing(dir: Paths.Path, names: seq<string>): (r: Result<(Paths.Path, Kind), string>)
    ensures Seqs.FirstWhere(names, n => EntryHas(dir, WORKSPACE_EXT, n)).Some? ==>
      r == Ok((Paths.Child(dir, names[Seqs.FirstWhere(names, n => EntryHas(dir, WORKSPACE_EXT, n)).value]), Workspace))
    ensures Seqs.FirstWhere(names, n => EntryHas(dir, WORKSPACE_EXT, n)).None? &&
            Seqs.FirstWhere(names, n => EntryHas(dir, PROJECT_EXT, n)).Some? ==>
      r == Ok((Paths.Child(dir, names[Seqs.FirstWhere(names, n => EntryHas(dir, PROJECT_EXT, n)).value]), Project))
    ensures r.Err? <==> (forall i :: 0 <= i < |names| ==>
                           !EntryHas(dir, WORKSPACE_EXT, names[i]) && !EntryHas(dir, PROJECT_EXT, names[i]))
    ensures r.Err? ==> r.error == "No .xcworkspace or .xcodeproj found in " + Paths.Display(dir)
    ensures r.Ok? && (forall i :: 0 <= i < |names| ==> Paths.IsEntryName(names[i])) ==> Paths.InDir(r.value.0, dir)
    ensures r.Ok? ==> Paths.Extension(r.value.0) == Some(ExtensionOf(r.value.1))
  {
    match Seqs.FirstWhere(names, n => EntryHas(dir, WORKSPACE_EXT, n))
    case Some(i) =>
      Paths.ChildNamed(dir, names[i]);
      Ok((Paths.Child(dir, names[i]), Workspace))
    case None =>
      match Seqs.FirstWhere(names, n => EntryHas(dir, PROJECT_EXT, n))
      case Some(i) =>
        Paths.ChildNamed(dir, names[i]);
        Ok((Paths.Child(dir, names[i]), Project))
      case None => Err("No .xcworkspace or .xcodeproj found in " + Paths.Display(dir))
  }

  /** `find_project_or_workspace`: a missing path is an error; a workspace
      or project path is taken as it is; otherwise its directory (or its
      parent's) is searched. `readError` is the text of the error listing
      that directory fails with. */
  function FindProjectOrWorkspace(fs: Paths.Fs, path: Paths.Path, readError: string)
    : (r: Result<(Paths.Path, Kind), string>)
    ensures !Paths.Exists(fs, path) ==> r == Err("Path does not exist: " + Paths.Display(path))
    ensures Paths.Exists(fs, path) && Paths.Extension(path) == Some(WORKSPACE_EXT) ==> r == Ok((path, Workspace))
    ensures Paths.Exists(fs, path) && Paths.Extension(path) == Some(PROJECT_EXT) ==> r == Ok((path, Project))
    ensures Paths.Exists(fs, path) && Paths.Extension(path) != Some(WORKSPACE_EXT) && Paths.Extension(path) != Some(PROJECT_EXT) ==>
      match SearchDir(fs, path)
      case None => r == Err("Path has no parent directory: " + Paths.Display(path))
      case Some(dir) =>
        match Paths.Listing(fs, dir)
        case None => r == Err("Failed to read directory: " + readError)
        case Some(names) => r == SearchListing(dir, names)
    ensures r.Ok? ==> Paths.Exists(fs, path) && Paths.Extension(r.value.0) == Some(ExtensionOf(r.value.1))
  {
    if !Paths.Exists(fs, path) then Err("Path does not exist: " + Paths.Display(path))
    else if Paths.Extension(path) == Some(WORKSPACE_EXT) then Ok((path, Workspace))
    else if Paths.Extension(path) == Some(PROJECT_EXT) then Ok((path, Project))
    else match SearchDir(fs, path)
      case None => Err("Path has no parent directory: " + Paths.Display(path))
      case Some(dir) =>
        match Paths.Listing(fs, dir)
        case None => Err("Failed to read directory: " + readError)
        case Some(names) => SearchListing(dir, names)
  }

  /** Wherever a workspace is listed among the entries, it is what is found,
      whatever project bundles are listed before it. */
  lemma WorkspaceWins(dir: Paths.Path, names: seq<string>, i: nat)
    requires i < |names| && EntryHas(dir, WORKSPACE_EXT, names[i])
    ensures SearchListing(dir, names).Ok? && SearchListing(dir, names).value.1 == Workspace
  {
  }

  /** A project bundle is found only where no workspace is listed. */
  lemma ProjectOnlyWithoutWorkspace(dir: Paths.Path, names: seq<string>)
    requires SearchListing(dir, names).Ok? && SearchListing(dir, names).value.1 == Project
    ensures forall i :: 0 <= i < |names| ==> !EntryHas(dir, WORKSPACE_EXT, names[i])
  {
  }

  /** The `xcodebuild` arguments that list the schemes of a bundle. */
  function ListArgs(path: Paths.Path, k: Kind): (args: seq<string>)
    ensures |args| == 4 && args[1..] == [Paths.Display(path), "-list", "-json"]
    ensures args[0] == "-workspace" <==> k == Workspace
    ensures args[0] == "-project" <==> k == Project
  {
    [if k == Workspace then "-workspace" else "-project", Paths.Display(path), "-list", "-json"]
  }

  /** The side of the listing that describes a bundle of kind `k`. */
  function InfoFor(list: BuildList, k: Kind): Option<ProjectInfo> {
    if k == Workspace then list.workspace else list.project
  }

  /** What `discover_project` did: its result, and the `xcodebuild`
      arguments it ran with, if it got that far. */
  datatype DiscoverRun = DiscoverRun(result: Result<XcodeProject, string>, command: Option<seq<string>>)

  /** `discover_project`: the bundle `find_project_or_workspace` finds, and
      the lists the matching side of `xcodebuild -list -json` holds.
      `list` is how that command ended and `parse` the JSON decoding. */
  function DiscoverProject(fs: Paths.Fs, path: Paths.Path, readError: string, list: Outcome,
                           parse: string -> Result<BuildList, string>): (r: DiscoverRun)
    ensures FindProjectOrWorkspace(fs, path, readError).Err? ==>
      r.command.None? && r.result == Err(FindProjectOrWorkspace(fs, path, readError).error)
    ensures FindProjectOrWorkspace(fs, path, readError).Ok? ==> var (p, k) := FindProjectOrWorkspace(fs, path, readError).value;
      && r.command == Some(ListArgs(p, k))
      && (list.NotStarted? ==> r.result == Err("Failed to execute xcodebuild: " + list.error))
      && (list.Ran? && !list.success ==> r.result == Err("xcodebuild failed: " + list.stderr))
      && (Succeeded(list) && parse(list.stdout).Err? ==>
            r.result == Err("Failed to parse xcodebuild output: " + parse(list.stdout).error))
      && (Succeeded(list) && parse(list.stdout).Ok? && InfoFor(parse(list.stdout).value, k).None? ==>
            r.result == Err("No project/workspace info in xcodebuild output"))
      && (r.result.Ok? <==> Succeeded(list) && parse(list.stdout).Ok? && InfoFor(parse(list.stdout).value, k).Some?)
      && (r.result.Ok? ==>
            && r.result.value.path == p && r.result.value.kind == k
            && InfoFor(parse(list.stdout).value, k) ==
               Some(ProjectInfo(r.result.value.configurations, r.result.value.schemes, r.result.value.targets)))
  {
    match FindProjectOrWorkspace(fs, path, readError)
    case Err(e) => DiscoverRun(Err(e), None)
    case Ok((p, k)) =>
      DiscoverRun(Described(p, k, list, parse), Some(ListArgs(p, k)))
  }

  /** The bundle `p` of kind `k` described by the listing run's outcome. */
  function Described(p: Paths.Path, k: Kind, list: Outcome, parse: string -> Result<BuildList, string>)
    : Result<XcodeProject, string>
  {
    match list
    case NotStarted(e) => Err("Failed to execute xcodebuild: " + e)
    case Ran(success, stdout, stderr) =>
      if !success then Err("xcodebuild failed: " + stderr)
      else match parse(stdout)
        case Err(e) => Err("Failed to parse xcodebuild output: " + e)
        case Ok(bl) =>
          match InfoFor(bl, k)
          case None => Err("No project/workspace info in xcodebuild output")
          case Some(info) => Ok(XcodeProject(p, k, info.schemes, info.targets, info.configurations))
  }

  /** For a workspace only the workspace side of the listing matters: two
      listings that agree on it describe the workspace alike. */
  lemma WorkspaceReadsWorkspaceSide(fs: Paths.Fs, path: Paths.Path, readError: string, list: Outcome,
                                    parse1: string -> Result<BuildList, string>,
                                    parse2: string -> Result<BuildList, string>)
    requires FindProjectOrWorkspace(fs, path, readError).Ok?
    requires FindProjectOrWorkspace(fs, path, readError).value.1 == Workspace
    requires Succeeded(list) && parse1(list.stdout).Ok? && parse2(list.stdout).Ok?
    requires parse1(list.stdout).value.workspace == parse2(list.stdout).value.workspace
    ensures DiscoverProject(fs, path, readError, list, parse1) == DiscoverProject(fs, path, readError, list, parse2)
  {
  }

  // ---- the cases the source's tests exercise ----------------------------

  /** A missing path is reported as not existing. */
  lemma MissingPathReported(fs: Paths.Fs, path: Paths.Path, readError: string)
    requires !Paths.Exists(fs, path)
    ensures FindProjectOrWorkspace(fs, path, readError).Err?
    ensures Contains(FindProjectOrWorkspace(fs, path, readError).error, "does not exist")
  {
    NotExistText(Paths.Display(path));
  }

  lemma NotExistText(rest: string)
    ensures Contains("Path does not exist: " + rest, "does not exist")
  {
    var s := "Path does not exist: " + rest;
    assert s[5..5 + |"does not exist"|] == "does not exist";
    assert OccursAt(s, "does not exist", 5);
  }

  /** A directory holding only `README.md`, or nothing, has no bundle. */
  lemma NothingToFind(dir: Paths.Path, names: seq<string>)
    requires names == [] || names == ["README.md"]
    ensures SearchListing(dir, names).Err?
    ensures Contains(SearchListing(dir, names).error, "No .xcworkspace or .xcodeproj found")
  {
    forall i | 0 <= i < |names|
      ensures !EntryHas(dir, WORKSPACE_EXT, names[i]) && !EntryHas(dir, PROJECT_EXT, names[i])
    {
      ReadmeIsNoBundle(dir, names[i]);
    }
    NoBundleFound(dir, names);
  }

  lemma ReadmeIsNoBundle(dir: Paths.Path, name: string)
    requires name == "README.md"
    ensures !EntryHas(dir, WORKSPACE_EXT, name) && !EntryHas(dir, PROJECT_EXT, name)
  {
    assert "README" + "." + "md" == name;
    NamedEntry(dir, "README", "md");
  }

  /** A listing without bundles yields the error naming the directory. */
  lemma NoBundleFound(dir: Paths.Path, names: seq<string>)
    requires forall i :: 0 <= i < |names| ==> !EntryHas(dir, WORKSPACE_EXT, names[i]) && !EntryHas(dir, PROJECT_EXT, names[i])
    ensures SearchListing(dir, names).Err?
    ensures Contains(SearchListing(dir, names).error, "No .xcworkspace or .xcodeproj found")
  {
    var rest := Paths.Display(dir);
    assert SearchListing(dir, names) == Err("No .xcworkspace or .xcodeproj found in " + rest);
    NotFoundText(rest);
  }

  lemma NotFoundText(rest: string)
    ensures Contains("No .xcworkspace or .xcodeproj found in " + rest, "No .xcworkspace or .xcodeproj found")
  {
    PrefixContains("No .xcworkspace or .xcodeproj found in " + rest, "No .xcworkspace or .xcodeproj found", " in " + rest);
  }

  /** A directory holding `TestApp.xcodeproj` and `TestWorkspace.xcworkspace`,
      in either order, yields the workspace. */
  lemma TestDirectoryYieldsWorkspace(fs: Paths.Fs, dir: Paths.Path, names: seq<string>)
    requires names == ["TestApp.xcodeproj", "TestWorkspace.xcworkspace"] ||
             names == ["TestWorkspace.xcworkspace", "TestApp.xcodeproj"]
    requires Paths.IsDir(fs, dir) && Paths.Listing(fs, dir) == Some(names)
    requires Paths.Extension(dir) != Some(WORKSPACE_EXT) && Paths.Extension(dir) != Some(PROJECT_EXT)
    ensures FindProjectOrWorkspace(fs, dir, "") == Ok((Paths.Child(dir, "TestWorkspace.xcworkspace"), Workspace))
  {
    assert SearchDir(fs, dir) == Some(dir);
    TestListingYieldsWorkspace(dir, names);
  }

  lemma TestListingYieldsWorkspace(dir: Paths.Path, names: seq<string>)
    requires names == ["TestApp.xcodeproj", "TestWorkspace.xcworkspace"] ||
             names == ["TestWorkspace.xcworkspace", "TestApp.xcodeproj"]
    ensures SearchListing(dir, names) == Ok((Paths.Child(dir, "TestWorkspace.xcworkspace"), Workspace))
  {
    TestAppIsProject(dir);
    TestWorkspaceIsWorkspace(dir);
    WorkspaceBeforeOrAfter(dir, "TestApp.xcodeproj", "TestWorkspace.xcworkspace");
  }

  lemma TestAppIsProject(dir: Paths.Path)
    ensures EntryHas(dir, PROJECT_EXT, "TestApp.xcodeproj")
  {
    assert "TestApp" + "." + PROJECT_EXT == "TestApp.xcodeproj";
    NamedEntry(dir, "TestApp", PROJECT_EXT);
  }

  lemma TestWorkspaceIsWorkspace(dir: Paths.Path)
    ensures EntryHas(dir, WORKSPACE_EXT, "TestWorkspace.xcworkspace")
  {
    assert "TestWorkspace" + "." + WORKSPACE_EXT == "TestWorkspace.xcworkspace";
    NamedEntry(dir, "TestWorkspace", WORKSPACE_EXT);
  }

  /** A project bundle and a workspace, listed in either order, yield the
      workspace. */
  lemma WorkspaceBeforeOrAfter(dir: Paths.Path, project: string, workspace: string)
    requires EntryHas(dir, PROJECT_EXT, project) && EntryHas(dir, WORKSPACE_EXT, workspace)
    ensures SearchListing(dir, [project, workspace]) == Ok((Paths.Child(dir, workspace), Workspace))
    ensures SearchListing(dir, [workspace, project]) == Ok((Paths.Child(dir, workspace), Workspace))
  {
    assert !EntryHas(dir, WORKSPACE_EXT, project);
    WorkspaceAt(dir, [project, workspace], 1);
    WorkspaceAt(dir, [workspace, project], 0);
  }

  /** The listing yields the entry at the first workspace index. */
  lemma WorkspaceAt(dir: Paths.Path, names: seq<string>, k: nat)
    requires Seqs.FirstWhere(names, n => EntryHas(dir, WORKSPACE_EXT, n)) == Some(k)
    ensures SearchListing(dir, names) == Ok((Paths.Child(dir, names[k]), Workspace))
  {
  }

  /** The entry `stem.ext` of `dir` has extension `ext`. */
  lemma NamedEntry(dir: Paths.Path, stem: string, ext: string)
    requires stem != [] && ext != [] && forall j :: 0 <= j < |ext| ==> ext[j] != '.' && ext[j] != '/'
    requires forall j :: 0 <= j < |stem| ==> stem[j] != '/'
    ensures EntryHas(dir, ext, stem + "." + ext)
  {
    var name := stem + "." + ext;
    assert name[|stem|] == '.';
    assert Paths.IsEntryName(name) by {
      assert forall j :: 0 <= j < |name| ==> name[j] == (if j < |stem| then stem[j] else if j == |stem| then '.' else ext[j - |stem| - 1]);
    }
    Paths.ChildNamed(dir, name);
    Paths.ExtensionOfSuffix(Paths.Child(dir, name), stem, ext);
  }
}
