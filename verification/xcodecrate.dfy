/** The standalone Xcode crate (app/crates/xcode/src/lib.rs): project
    discovery, the iOS simulators `simctl` lists, the default simulator, the
    boot decision, and a Debug build for the simulator with the `.app`
    bundles it leaves behind. */
module XcodeCrate {
  import opened Wrappers
  import opened Text
  import opened Process
  import Paths
  import Seqs
  import BuildSettings
  import Schemes

  /** `XcodeError`; `Io` and `JsonError` carry the text of the I/O or
      decoding error they wrap. */
  datatype XcodeError =
    | XcodeNotFound(message: string)
    | ProjectNotFound(path: Paths.Path)
    | InvalidProject(message: string)
    | BuildFailed(message: string)
    | SimulatorError(message: string)
    | Io(message: string)
    | JsonError(message: string)

  datatype XcodeProject = XcodeProject(path: Paths.Path, name: string, kind: Schemes.Kind,
                                       schemes: seq<string>, configurations: seq<string>)

  /** One side of `xcodebuild -list -json`; a list the JSON leaves out reads
      as empty. */
  datatype ProjectInfo = ProjectInfo(configurations: seq<string>, schemes: seq<string>)

  datatype BuildList = BuildList(project: Option<ProjectInfo>, workspace: Option<ProjectInfo>)

  // ---- discover_project ---------------------------------------------------

  /** `find_file_with_extension`: the first entry of `dir` with extension
      `ext`; nothing when `dir` cannot be listed. */
  function FindFileWithExtension(fs: Paths.Fs, dir: Paths.Path, ext: string): (r: Option<Paths.Path>)
    ensures Paths.Listing(fs, dir).None? ==> r.None?
    ensures Paths.Listing(fs, dir).Some? ==> var names := Paths.Listing(fs, dir).value;
      && (r.None? <==> forall i :: 0 <= i < |names| ==> !Schemes.EntryHas(dir, ext, names[i]))
      && (r.Some? ==> r.value == Paths.Child(dir, names[Seqs.FirstWhere(names, n => Schemes.EntryHas(dir, ext, n)).value]))
    ensures r.Some? ==> Paths.Extension(r.value) == Some(ext) && Paths.InDir(r.value, dir)
  {
    match Paths.Listing(fs, dir)
    case None => None
    case Some(names) =>
      match Seqs.FirstWhere(names, n => Schemes.EntryHas(dir, ext, n))
      case None => None
      case Some(i) =>
        Paths.ChildNamed(dir, names[i]);
        Some(Paths.Child(dir, names[i]))
  }

  /** The first half of `discover_project`: the bundle to list, and its
      kind. A path that is neither bundle is searched as a directory, and
      only as one: a plain file finds nothing. */
  function Locate(fs: Paths.Fs, path: Paths.Path): (r: Result<(Paths.Path, Schemes.Kind), XcodeError>)
    ensures !Paths.Exists(fs, path) ==> r == Err(ProjectNotFound(path))
    ensures Paths.Exists(fs, path) && Paths.Extension(path) == Some(Schemes.WORKSPACE_EXT) ==>
      r == Ok((path, Schemes.Workspace))
    ensures Paths.Exists(fs, path) && Paths.Extension(path) == Some(Schemes.PROJECT_EXT) ==>
      r == Ok((path, Schemes.Project))
    ensures Paths.Exists(fs, path) && Paths.Extension(path) != Some(Schemes.WORKSPACE_EXT)
            && Paths.Extension(path) != Some(Schemes.PROJECT_EXT) ==>
      var ws := FindFileWithExtension(fs, path, Schemes.WORKSPACE_EXT);
      var proj := FindFileWithExtension(fs, path, Schemes.PROJECT_EXT);
      && (ws.Some? ==> r == Ok((ws.value, Schemes.Workspace)))
      && (ws.None? && proj.Some? ==> r == Ok((proj.value, Schemes.Project)))
      && (ws.None? && proj.None? ==> r == Err(InvalidProject("No Xcode project found")))
    ensures r.Ok? ==> Paths.Extension(r.value.0) == Some(Schemes.ExtensionOf(r.value.1))
  {
    if !Paths.Exists(fs, path) then Err(ProjectNotFound(path))
    else if Paths.Extension(path) == Some(Schemes.WORKSPACE_EXT) then Ok((path, Schemes.Workspace))
    else if Paths.Extension(path) == Some(Schemes.PROJECT_EXT) then Ok((path, Schemes.Project))
    else
      match FindFileWithExtension(fs, path, Schemes.WORKSPACE_EXT)
      case Some(ws) => Ok((ws, Schemes.Workspace))
      case None =>
        match FindFileWithExtension(fs, path, Schemes.PROJECT_EXT)
        case Some(proj) => Ok((proj, Schemes.Project))
        case None => Err(InvalidProject("No Xcode project found"))
  }

  /** An existing plain file that is no bundle yields no project: unlike
      the server's discovery, the crate does not search its parent. */
  lemma PlainFileNotSearched(fs: Paths.Fs, path: Paths.Path)
    requires Paths.Exists(fs, path) && !Paths.IsDir(fs, path)
    requires Paths.Extension(path) != Some(Schemes.WORKSPACE_EXT) && Paths.Extension(path) != Some(Schemes.PROJECT_EXT)
    ensures Locate(fs, path) == Err(InvalidProject("No Xcode project found"))
  {
  }

  /** A workspace anywhere in the directory wins over every project bundle. */
  lemma CrateWorkspaceWins(fs: Paths.Fs, dir: Paths.Path, i: nat)
    requires Paths.Exists(fs, dir)
    requires Paths.Extension(dir) != Some(Schemes.WORKSPACE_EXT) && Paths.Extension(dir) != Some(Schemes.PROJECT_EXT)
    requires Paths.Listing(fs, dir).Some? && i < |Paths.Listing(fs, dir).value|
    requires Schemes.EntryHas(dir, Schemes.WORKSPACE_EXT, Paths.Listing(fs, dir).value[i])
    ensures Locate(fs, dir).Ok? && Locate(fs, dir).value.1 == Schemes.Workspace
  {
  }

  /** The `xcodebuild` arguments that list a bundle's schemes. */
  function ListArgs(path: Paths.Path, k: Schemes.Kind): (args: seq<string>)
    ensures |args| == 4 && args[1..] == [Paths.Display(path), "-list", "-json"]
    ensures args[0] == "-workspace" <==> k == Schemes.Workspace
    ensures args[0] == "-project" <==> k == Schemes.Project
  {
    [KindFlag(k), Paths.Display(path), "-list", "-json"]
  }

  function KindFlag(k: Schemes.Kind): string {
    if k == Schemes.Workspace then "-workspace" else "-project"
  }

  function InfoFor(list: BuildList, k: Schemes.Kind): Option<ProjectInfo> {
    if k == Schemes.Workspace then list.workspace else list.project
  }

  /** The project's name: the bundle's file stem, or `Unknown`. */
  function ProjectName(p: Paths.Path): string {
    Paths.FileStem(p).UnwrapOr("Unknown")
  }

  /** What `discover_project` did: its result, and the arguments of the
      `xcodebuild -list` it ran, if it got that far. */
  datatype DiscoverRun = DiscoverRun(result: Result<XcodeProject, XcodeError>, command: Option<seq<string>>)

  /** `discover_project`: `list` is how `xcodebuild -list -json` ended and
      `parse` the JSON decoding. */
  function DiscoverProject(fs: Paths.Fs, path: Paths.Path, list: Outcome,
                           parse: string -> Result<BuildList, string>): (r: DiscoverRun)
    ensures Locate(fs, path).Err? ==> r.command.None? && r.result == Err(Locate(fs, path).error)
    ensures Locate(fs, path).Ok? ==> var (p, k) := Locate(fs, path).value;
      && r.command == Some(ListArgs(p, k))
      && (list.NotStarted? ==> r.result == Err(Io(list.error)))
      && (list.Ran? && !list.success ==> r.result == Err(InvalidProject(list.stderr)))
      && (Succeeded(list) && parse(list.stdout).Err? ==> r.result == Err(JsonError(parse(list.stdout).error)))
      && (Succeeded(list) && parse(list.stdout).Ok? && InfoFor(parse(list.stdout).value, k).None? ==>
            r.result == Err(InvalidProject("No project info found")))
      && (r.result.Ok? <==> Succeeded(list) && parse(list.stdout).Ok? && InfoFor(parse(list.stdout).value, k).Some?)
      && (r.result.Ok? ==>
            && r.result.value.path == p && r.result.value.kind == k && r.result.value.name == ProjectName(p)
            && InfoFor(parse(list.stdout).value, k) ==
               Some(ProjectInfo(r.result.value.configurations, r.result.value.schemes)))
  {
    match Locate(fs, path)
    case Err(e) => DiscoverRun(Err(e), None)
    case Ok((p, k)) => DiscoverRun(Listed(p, k, list, parse), Some(ListArgs(p, k)))
  }

  function Listed(p: Paths.Path, k: Schemes.Kind, list: Outcome, parse: string -> Result<BuildList, string>)
    : Result<XcodeProject, XcodeError>
  {
    match list
    case NotStarted(e) => Err(Io(e))
    case Ran(success, stdout, stderr) =>
      if !success then Err(InvalidProject(stderr))
      else match parse(stdout)
        case Err(e) => Err(JsonError(e))
        case Ok(bl) =>
          match InfoFor(bl, k)
          case None => Err(InvalidProject("No project info found"))
          case Some(info) => Ok(XcodeProject(p, ProjectName(p), k, info.schemes, info.configurations))
  }

  /** A bundle `App.xcodeproj` or `App.xcworkspace` given directly is named
      `App`. */
  lemma BundleNamedByStem(fs: Paths.Fs, path: Paths.Path, stem: string, k: Schemes.Kind, list: Outcome,
                          parse: string -> Result<BuildList, string>)
    requires stem != [] && stem != "." && Paths.Exists(fs, path)
    requires Paths.FileName(path) == Some(stem + "." + Schemes.ExtensionOf(k))
    requires DiscoverProject(fs, path, list, parse).result.Ok?
    ensures DiscoverProject(fs, path, list, parse).result.value.name == stem
    ensures DiscoverProject(fs, path, list, parse).result.value.kind == k
  {
    BundleLocated(fs, path, stem, k);
  }

  lemma BundleLocated(fs: Paths.Fs, path: Paths.Path, stem: string, k: Schemes.Kind)
    requires stem != [] && stem != "." && Paths.Exists(fs, path)
    requires Paths.FileName(path) == Some(stem + "." + Schemes.ExtensionOf(k))
    ensures Locate(fs, path) == Ok((path, k)) && ProjectName(path) == stem
  {
    var ext := Schemes.ExtensionOf(k);
    assert forall j :: 0 <= j < |ext| ==> ext[j] != '.';
    Paths.ExtensionOfSuffix(path, stem, ext);
  }

  // ---- list_simulators --------------------------------------------------

  datatype Simulator = Simulator(udid: string, name: string, runtime: string, state: string, isAvailable: bool)

  /** A device as `simctl list devices available --json` describes it. */
  datatype SimctlDevice = SimctlDevice(udid: string, name: string, state: string, isAvailable: bool)

  /** The runtime keys and their devices, in the order the decoded map is
      iterated. */
  type Runtimes = seq<(string, seq<SimctlDevice>)>

  predicate IsIosRuntime(runtime: string) {
    Contains(runtime, "iOS")
  }

  function AsSimulator(runtime: string, d: SimctlDevice): (s: Simulator)
    ensures s.runtime == runtime && s.udid == d.udid && s.name == d.name && s.state == d.state
  {
    Simulator(d.udid, d.name, runtime, d.state, d.isAvailable)
  }

  /** The devices of one runtime, labelled with it. */
  function Labelled(runtime: string, devices: seq<SimctlDevice>): (r: seq<Simulator>)
    ensures |r| == |devices|
    ensures forall j :: 0 <= j < |r| ==> r[j] == AsSimulator(runtime, devices[j])
  {
    seq(|devices|, j requires 0 <= j < |devices| => AsSimulator(runtime, devices[j]))
  }

  /** Every device of every runtime whose key mentions iOS, runtime by
      runtime. */
  function IosSimulators(runtimes: Runtimes): (r: seq<Simulator>)
    ensures forall i :: 0 <= i < |r| ==> IsIosRuntime(r[i].runtime)
  {
    if |runtimes| == 0 then []
    else
      var (runtime, devices) := runtimes[0];
      var rest := IosSimulators(runtimes[1..]);
      if IsIosRuntime(runtime) then Labelled(runtime, devices) + rest else rest
  }

  /** Nothing of an iOS runtime is dropped: each of its devices is listed. */
  lemma {:induction false} IosDevicesKept(runtimes: Runtimes, i: nat, j: nat)
    requires i < |runtimes| && j < |runtimes[i].1| && IsIosRuntime(runtimes[i].0)
    ensures AsSimulator(runtimes[i].0, runtimes[i].1[j]) in IosSimulators(runtimes)
  {
    var (runtime, devices) := runtimes[0];
    if i == 0 {
      assert Labelled(runtime, devices)[j] == AsSimulator(runtimes[i].0, runtimes[i].1[j]);
    } else {
      IosDevicesKept(runtimes[1..], i - 1, j);
    }
  }

  /** Every listed simulator is a device of an iOS runtime, labelled with
      that runtime. */
  lemma {:induction false} ListedFromIosRuntime(runtimes: Runtimes, s: Simulator)
    requires s in IosSimulators(runtimes)
    ensures exists i, j :: 0 <= i < |runtimes| && 0 <= j < |runtimes[i].1| && IsIosRuntime(runtimes[i].0)
                        && s == AsSimulator(runtimes[i].0, runtimes[i].1[j])
  {
    var (runtime, devices) := runtimes[0];
    var rest := IosSimulators(runtimes[1..]);
    if IsIosRuntime(runtime) && s in Labelled(runtime, devices) {
      var j :| 0 <= j < |devices| && Labelled(runtime, devices)[j] == s;
      assert runtimes[0].1[j] == devices[j];
    } else {
      assert s in rest;
      ListedFromIosRuntime(runtimes[1..], s);
      var i, j :| 0 <= i < |runtimes[1..]| && 0 <= j < |runtimes[1..][i].1| && IsIosRuntime(runtimes[1..][i].0)
                  && s == AsSimulator(runtimes[1..][i].0, runtimes[1..][i].1[j]);
      assert runtimes[1..][i] == runtimes[i + 1];
    }
  }

  /** `list_simulators`: `list` is how `xcrun simctl list devices available
      --json` ended and `parse` the JSON decoding. */
  function ListSimulators(list: Outcome, parse: string -> Result<Runtimes, string>): (r: Result<seq<Simulator>, XcodeError>)
    ensures list.NotStarted? ==> r == Err(Io(list.error))
    ensures list.Ran? && !list.success ==> r == Err(SimulatorError(list.stderr))
    ensures Succeeded(list) && parse(list.stdout).Err? ==> r == Err(JsonError(parse(list.stdout).error))
    ensures r.Ok? <==> Succeeded(list) && parse(list.stdout).Ok?
    ensures r.Ok? ==> r.value == IosSimulators(parse(list.stdout).value)
  {
    match list
    case NotStarted(e) => Err(Io(e))
    case Ran(success, stdout, stderr) =>
      if !success then Err(SimulatorError(stderr))
      else match parse(stdout)
        case Err(e) => Err(JsonError(e))
        case Ok(runtimes) => Ok(IosSimulators(runtimes))
  }

  // ---- find_default_simulator -------------------------------------------

  /** The name prefixes tried in turn, newest iPhone first. */
  const DEFAULT_PREFIXES: seq<string> := ["iPhone 16", "iPhone 15", "iPhone 14", "iPhone"]

  predicate NamedLike(s: Simulator, prefix: string) {
    StartsWith(s.name, prefix)
  }

  /** No simulator's name starts with `prefix`. */
  predicate NoneNamedLike(sims: seq<Simulator>, prefix: string) {
    forall i :: 0 <= i < |sims| ==> !NamedLike(sims[i], prefix)
  }

  /** `sims[i]` is the first simulator named like `prefix`. */
  predicate FirstNamedLike(sims: seq<Simulator>, prefix: string, i: int) {
    0 <= i < |sims| && NamedLike(sims[i], prefix) && forall j :: 0 <= j < i ==> !NamedLike(sims[j], prefix)
  }

  /** For the first prefix any simulator's name starts with, the first such
      simulator. */
  function PickByPrefix(sims: seq<Simulator>, prefixes: seq<string>): (r: Option<Simulator>)
    ensures r.None? <==> forall k :: 0 <= k < |prefixes| ==> NoneNamedLike(sims, prefixes[k])
    ensures r.Some? ==> r.value in sims
    ensures r.Some? ==> exists k, i :: 0 <= k < |prefixes| && FirstNamedLike(sims, prefixes[k], i) && r.value == sims[i]
                          && forall k' :: 0 <= k' < k ==> NoneNamedLike(sims, prefixes[k'])
  {
    if |prefixes| == 0 then None
    else match Seqs.FirstWhere(sims, s => NamedLike(s, prefixes[0]))
      case Some(i) =>
        assert FirstNamedLike(sims, prefixes[0], i);
        Some(sims[i])
      case None =>
        var r := PickByPrefix(sims, prefixes[1..]);
        assert forall k :: 1 <= k < |prefixes| ==> prefixes[k] == prefixes[1..][k - 1];
        if r.Some? then
          var k, i :| 0 <= k < |prefixes[1..]| && FirstNamedLike(sims, prefixes[1..][k], i) && r.value == sims[i]
                      && forall k' :: 0 <= k' < k ==> NoneNamedLike(sims, prefixes[1..][k']);
          assert FirstNamedLike(sims, prefixes[k + 1], i);
          r
        else r
  }

  /** `find_default_simulator` over what `list_simulators` returned. */
  function FindDefaultSimulator(listed: Result<seq<Simulator>, XcodeError>): (r: Result<Simulator, XcodeError>)
    ensures listed.Err? ==> r == Err(listed.error)
    ensures listed.Ok? && listed.value == [] ==> r == Err(SimulatorError("No iOS simulators found"))
    ensures listed.Ok? && listed.value != [] ==> r.Ok? && r.value in listed.value
    ensures listed.Ok? ==> var sims := listed.value;
      (PickByPrefix(sims, DEFAULT_PREFIXES).Some? ==> r == Ok(PickByPrefix(sims, DEFAULT_PREFIXES).value))
      && (PickByPrefix(sims, DEFAULT_PREFIXES).None? && sims != [] ==> r == Ok(sims[0]))
  {
    match listed
    case Err(e) => Err(e)
    case Ok(sims) =>
      match PickByPrefix(sims, DEFAULT_PREFIXES)
      case Some(s) => Ok(s)
      case None => if |sims| == 0 then Err(SimulatorError("No iOS simulators found")) else Ok(sims[0])
  }

  /** Every name that starts with a default prefix starts with `iPhone`. */
  lemma PrefixesAreIphones(s: Simulator, k: nat)
    requires k < |DEFAULT_PREFIXES| && NamedLike(s, DEFAULT_PREFIXES[k])
    ensures NamedLike(s, "iPhone")
  {
    assert DEFAULT_PREFIXES[k][..6] == "iPhone";
    assert s.name[..6] == s.name[..|DEFAULT_PREFIXES[k]|][..6];
  }

  /** An iPhone 16 is chosen whenever one is listed: the first of them. */
  lemma NewestIphonePreferred(sims: seq<Simulator>, i: nat)
    requires FirstNamedLike(sims, "iPhone 16", i)
    ensures FindDefaultSimulator(Ok(sims)) == Ok(sims[i])
  {
    assert DEFAULT_PREFIXES[0] == "iPhone 16";
    assert !NoneNamedLike(sims, DEFAULT_PREFIXES[0]);
    var k, i' :| 0 <= k < |DEFAULT_PREFIXES| && FirstNamedLike(sims, DEFAULT_PREFIXES[k], i')
                 && PickByPrefix(sims, DEFAULT_PREFIXES).value == sims[i']
                 && forall k' :: 0 <= k' < k ==> NoneNamedLike(sims, DEFAULT_PREFIXES[k']);
    assert k == 0 && DEFAULT_PREFIXES[k] == "iPhone 16";
    assert FirstNamedLike(sims, "iPhone 16", i');
  }

  /** Without any iPhone the first simulator listed is chosen. */
  lemma NoIphoneTakesFirst(sims: seq<Simulator>)
    requires sims != [] && NoneNamedLike(sims, "iPhone")
    ensures FindDefaultSimulator(Ok(sims)) == Ok(sims[0])
  {
    forall k, i | 0 <= k < |DEFAULT_PREFIXES| && 0 <= i < |sims|
      ensures !NamedLike(sims[i], DEFAULT_PREFIXES[k])
    {
      if NamedLike(sims[i], DEFAULT_PREFIXES[k]) {
        PrefixesAreIphones(sims[i], k);
      }
    }
  }

  // ---- boot_simulator ---------------------------------------------------

  const ALREADY_BOOTED := "current state: Booted"

  /** The first listed simulator with this udid is already booted. */
  predicate AlreadyBooted(sims: seq<Simulator>, udid: string) {
    match Seqs.FirstWhere(sims, (s: Simulator) => s.udid == udid)
    case None => false
    case Some(i) => sims[i].state == "Booted"
  }

  /** What `boot_simulator` did: its result, and the `xcrun` arguments of
      the boot it ran, if it ran one. */
  datatype BootRun = BootRun(result: Result<(), XcodeError>, command: Option<seq<string>>)

  /** `boot_simulator`: `listed` is what `list_simulators` returned and
      `boot` how `xcrun simctl boot <udid>` ended. */
  function BootSimulator(listed: Result<seq<Simulator>, XcodeError>, udid: string, boot: Outcome): (r: BootRun)
    ensures listed.Err? ==> r == BootRun(Err(listed.error), None)
    ensures listed.Ok? ==> (r.command.None? <==> AlreadyBooted(listed.value, udid))
    ensures r.command.None? ==> r.result == Ok(()) || listed.Err?
    ensures r.command.Some? ==> r.command.value == ["simctl", "boot", udid]
    ensures r.command.Some? ==>
      && (r.result.Ok? <==> Succeeded(boot) || (boot.Ran? && Contains(boot.stderr, ALREADY_BOOTED)))
      && (boot.NotStarted? ==> r.result == Err(Io(boot.error)))
      && (boot.Ran? && !boot.success && !Contains(boot.stderr, ALREADY_BOOTED) ==>
            r.result == Err(SimulatorError(boot.stderr)))
  {
    match listed
    case Err(e) => BootRun(Err(e), None)
    case Ok(sims) =>
      if AlreadyBooted(sims, udid) then BootRun(Ok(()), None)
      else BootRun(BootOutcome(boot), Some(["simctl", "boot", udid]))
  }

  /** How a boot that ran ends: a refusal because the device is already
      booted counts as success. */
  function BootOutcome(boot: Outcome): Result<(), XcodeError> {
    match boot
    case NotStarted(e) => Err(Io(e))
    case Ran(success, _, stderr) =>
      if success || Contains(stderr, ALREADY_BOOTED) then Ok(()) else Err(SimulatorError(stderr))
  }

  /** Booting is idempotent: a booted simulator is not booted again, and
      `simctl`'s complaint that it is already booted is no error. */
  lemma BootIdempotent(sims: seq<Simulator>, udid: string, boot: Outcome, rest: string)
    requires boot.Ran? && !boot.success && boot.stderr == "Unable to boot device in current state: Booted" + rest
    ensures BootSimulator(Ok(sims), udid, boot).result == Ok(())
  {
    var s := boot.stderr;
    assert s[25..25 + |ALREADY_BOOTED|] == ALREADY_BOOTED;
    assert OccursAt(s, ALREADY_BOOTED, 25);
  }

  // ---- build_scheme -----------------------------------------------------

  datatype Product = Product(name: string, path: Paths.Path)

  datatype BuildResult = BuildResult(success: bool, buildDir: Paths.Path, products: seq<Product>)

  predicate IsAppName(name: string) {
    EndsWith(name, ".app")
  }

  /** The `.app` entries of `dir`, in listing order. */
  function AppProducts(dir: Paths.Path, names: seq<string>): (r: seq<Product>)
    ensures forall i :: 0 <= i < |r| ==> IsAppName(r[i].name) && r[i].path == Paths.Child(dir, r[i].name)
    ensures forall i :: 0 <= i < |r| ==> r[i].name in names
    ensures forall n :: n in names && IsAppName(n) <==> Product(n, Paths.Child(dir, n)) in r
    ensures |r| == |Seqs.Filter(names, IsAppName)|
  {
    if |names| == 0 then []
    else
      var rest := AppProducts(dir, names[1..]);
      Seqs.FilterCons(names, IsAppName);
      var r := if IsAppName(names[0]) then [Product(names[0], Paths.Child(dir, names[0]))] + rest else rest;
      AppProductsCons(dir, names, rest, r);
      r
  }

  /** The membership step of `AppProducts`: the `.app` entries of a listing
      are those of its tail, and its head when that is one. */
  lemma AppProductsCons(dir: Paths.Path, names: seq<string>, rest: seq<Product>, r: seq<Product>)
    requires |names| > 0
    requires r == if IsAppName(names[0]) then [Product(names[0], Paths.Child(dir, names[0]))] + rest else rest
    requires forall i :: 0 <= i < |rest| ==> rest[i].name in names[1..]
    requires forall n :: n in names[1..] && IsAppName(n) <==> Product(n, Paths.Child(dir, n)) in rest
    ensures forall i :: 0 <= i < |r| ==> r[i].name in names
    ensures forall n :: n in names && IsAppName(n) <==> Product(n, Paths.Child(dir, n)) in r
  {
    assert forall n :: n in names <==> n == names[0] || n in names[1..];
    forall n
      ensures n in names && IsAppName(n) <==> Product(n, Paths.Child(dir, n)) in r
    {
      var entry := Product(n, Paths.Child(dir, n));
      if n in names && IsAppName(n) && n != names[0] {
        assert entry in rest;
      }
      if entry in r && !(entry in rest) {
        assert entry == r[0];
      }
    }
  }

  /** `find_build_products`: nothing for a missing directory, the listing
      error for one that cannot be listed, else its `.app` entries. */
  function FindBuildProducts(fs: Paths.Fs, buildDir: string, ioError: string): (r: Result<seq<Product>, XcodeError>)
    ensures !Paths.Exists(fs, Paths.Parse(buildDir)) ==> r == Ok([])
    ensures Paths.Exists(fs, Paths.Parse(buildDir)) && Paths.Listing(fs, Paths.Parse(buildDir)).None? ==>
      r == Err(Io(ioError))
    ensures Paths.Listing(fs, Paths.Parse(buildDir)).Some? ==>
      r == Ok(AppProducts(Paths.Parse(buildDir), Paths.Listing(fs, Paths.Parse(buildDir)).value))
  {
    var dir := Paths.Parse(buildDir);
    if !Paths.Exists(fs, dir) then Ok([])
    else match Paths.Listing(fs, dir)
      case None => Err(Io(ioError))
      case Some(names) => Ok(AppProducts(dir, names))
  }

  /** The arguments of the Debug simulator build of `scheme`. */
  function BuildArgs(project: XcodeProject, scheme: string): (args: seq<string>)
    ensures |args| == 13 && args[0] == KindFlag(project.kind) && args[1] == Paths.Display(project.path)
    ensures args[2..4] == ["-scheme", scheme] && args[4..6] == ["-configuration", "Debug"]
  {
    [KindFlag(project.kind), Paths.Display(project.path), "-scheme", scheme, "-configuration", "Debug",
     "-sdk", "iphonesimulator", "-destination", "generic/platform=iOS Simulator",
     "CODE_SIGN_IDENTITY=", "CODE_SIGNING_REQUIRED=NO", "CODE_SIGNING_ALLOWED=NO"]
  }

  /** What `build_scheme` did: its result and the `xcodebuild` argument
      lists it ran, in order. */
  datatype BuildRun = BuildRun(result: Result<BuildResult, XcodeError>, commands: seq<seq<string>>)

  /** `build_scheme`: `settings` is how the `-showBuildSettings` run ended,
      `build` how the build ended, and `ioError` the error listing the
      build directory fails with. The settings run's exit status is not
      looked at: only its output. */
  function BuildScheme(fs: Paths.Fs, project: XcodeProject, scheme: string, settings: Outcome, build: Outcome,
                       ioError: string): (r: BuildRun)
    ensures 1 <= |r.commands| <= 2 && r.commands[0] == BuildArgs(project, scheme) + ["-showBuildSettings"]
    ensures |r.commands| == 2 <==> settings.Ran? && BuildSettings.ExtractBuildDir(settings.stdout).Some?
    ensures |r.commands| == 2 ==> r.commands[1] == BuildArgs(project, scheme)
    ensures settings.NotStarted? ==> r.result == Err(Io(settings.error))
    ensures settings.Ran? && BuildSettings.ExtractBuildDir(settings.stdout).None? ==>
      r.result == Err(BuildFailed("Could not determine build directory"))
    ensures |r.commands| == 2 && build.NotStarted? ==> r.result == Err(Io(build.error))
    ensures |r.commands| == 2 && build.Ran? && !build.success ==> r.result == Err(BuildFailed(build.stderr))
    ensures r.result.Ok? <==> (|r.commands| == 2 && Succeeded(build) &&
                               FindBuildProducts(fs, BuildSettings.ExtractBuildDir(settings.stdout).value, ioError).Ok?)
    ensures r.result.Ok? ==> var dir := BuildSettings.ExtractBuildDir(settings.stdout).value;
      && r.result.value.success
      && r.result.value.buildDir == Paths.Parse(dir)
      && r.result.value.products == FindBuildProducts(fs, dir, ioError).value
  {
    var showSettings := BuildArgs(project, scheme) + ["-showBuildSettings"];
    match settings
    case NotStarted(e) => BuildRun(Err(Io(e)), [showSettings])
    case Ran(_, stdout, _) =>
      match BuildSettings.ExtractBuildDir(stdout)
      case None => BuildRun(Err(BuildFailed("Could not determine build directory")), [showSettings])
      case Some(dir) => BuildRun(Built(fs, dir, build, ioError), [showSettings, BuildArgs(project, scheme)])
  }

  /** The build step, once the build directory is known. */
  function Built(fs: Paths.Fs, dir: string, build: Outcome, ioError: string): Result<BuildResult, XcodeError> {
    match build
    case NotStarted(e) => Err(Io(e))
    case Ran(success, _, stderr) =>
      if !success then Err(BuildFailed(stderr))
      else match FindBuildProducts(fs, dir, ioError)
        case Err(e) => Err(e)
        case Ok(products) => Ok(BuildResult(true, Paths.Parse(dir), products))
  }

  /** A settings run that fails but still prints the build directory leads
      to a build all the same. */
  lemma SettingsStatusIgnored(fs: Paths.Fs, project: XcodeProject, scheme: string, stdout: string, stderr: string,
                              build: Outcome, ioError: string)
    requires BuildSettings.ExtractBuildDir(stdout).Some?
    ensures |BuildScheme(fs, project, scheme, Ran(false, stdout, stderr), build, ioError).commands| == 2
  {
  }
}
