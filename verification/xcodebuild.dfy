/** Building a scheme for the simulator from the web backend
    (app/src/xcode/build.rs): the project check, the two `xcodebuild` runs
    and their results, the classification of what lands in the build
    directory, and the events of the streaming variant. */
module XcodeBuild {
  import opened Wrappers
  import opened Text
  import opened Process
  import Paths
  import Seqs
  import BuildSettings
  import ProjectEntity
  import ProjectService

  /** The errors the modelled paths produce. */
  datatype BuildError =
    | ProjectNotFound
    | NotXcodeProject(projectType: ProjectEntity.ProjectType)
    | XcodebuildExecution(message: string)
    | ParseError(message: string)

  datatype ProductType = Application | Framework | StaticLibrary | DynamicLibrary | Bundle | UnitTest | UITest | AppExtension

  datatype BuildProduct = BuildProduct(name: string, path: string, productType: ProductType, isLaunchable: bool)

  datatype BuildResult = BuildResult(success: bool, buildDir: string, products: seq<BuildProduct>, stdout: string, stderr: string)

  // ---- build products -----------------------------------------------------

  /** What a build-directory entry is, judged by the end of its name; `None`
      for an entry that is skipped. The suffixes are tried in a fixed order
      and a test bundle is a UI test when its lower-cased name mentions
      "uitest". */
  function Classify(name: string): (r: Option<ProductType>)
    ensures r == Some(Application) <==> EndsWith(name, ".app")
    ensures r.None? <==> (!EndsWith(name, ".app") && !EndsWith(name, ".framework") && !EndsWith(name, ".a")
                          && !EndsWith(name, ".dylib") && !EndsWith(name, ".bundle") && !EndsWith(name, ".xctest")
                          && !EndsWith(name, ".appex"))
  {
    if EndsWith(name, ".app") then Some(Application)
    else if EndsWith(name, ".framework") then Some(Framework)
    else if EndsWith(name, ".a") then Some(StaticLibrary)
    else if EndsWith(name, ".dylib") then Some(DynamicLibrary)
    else if EndsWith(name, ".bundle") then Some(Bundle)
    else if EndsWith(name, ".xctest") then
      if Contains(AsciiLower(name), "uitest") then Some(UITest) else Some(UnitTest)
    else if EndsWith(name, ".appex") then Some(AppExtension)
    else None
  }

  predicate Recognised(name: string) {
    Classify(name).Some?
  }

  lemma LastChar(s: string, suffix: string)
    requires |suffix| > 0 && |s| > 0 && s[|s| - 1] != suffix[|suffix| - 1]
    ensures !EndsWith(s, suffix)
  {
  }

  /** Each suffix yields its product type whatever comes before it. */
  lemma ClassifiedBySuffix(stem: string)
    ensures Classify(stem + ".app") == Some(Application)
    ensures Classify(stem + ".framework") == Some(Framework)
    ensures Classify(stem + ".a") == Some(StaticLibrary)
    ensures Classify(stem + ".dylib") == Some(DynamicLibrary)
    ensures Classify(stem + ".bundle") == Some(Bundle)
    ensures Classify(stem + ".appex") == Some(AppExtension)
    ensures Classify(stem + ".xctest") == if Contains(AsciiLower(stem + ".xctest"), "uitest") then Some(UITest) else Some(UnitTest)
  {
    assert Classify(stem + ".app") == Some(Application) by {
      EndsWithOwn(stem, ".app");
    }
    assert Classify(stem + ".framework") == Some(Framework) by {
      EndsWithOwn(stem, ".framework");
      LastChar(stem + ".framework", ".app");
    }
    assert Classify(stem + ".a") == Some(StaticLibrary) by {
      EndsWithOwn(stem, ".a");
      LastChar(stem + ".a", ".app");
      LastChar(stem + ".a", ".framework");
    }
    assert Classify(stem + ".dylib") == Some(DynamicLibrary) by {
      EndsWithOwn(stem, ".dylib");
      LastChar(stem + ".dylib", ".app");
      LastChar(stem + ".dylib", ".framework");
      LastChar(stem + ".dylib", ".a");
    }
    assert Classify(stem + ".bundle") == Some(Bundle) by {
      EndsWithOwn(stem, ".bundle");
      LastChar(stem + ".bundle", ".app");
      LastChar(stem + ".bundle", ".framework");
      LastChar(stem + ".bundle", ".a");
      LastChar(stem + ".bundle", ".dylib");
    }
    assert Classify(stem + ".xctest") == if Contains(AsciiLower(stem + ".xctest"), "uitest") then Some(UITest) else Some(UnitTest) by {
      EndsWithOwn(stem, ".xctest");
      LastChar(stem + ".xctest", ".app");
      LastChar(stem + ".xctest", ".framework");
      LastChar(stem + ".xctest", ".a");
      LastChar(stem + ".xctest", ".dylib");
      LastChar(stem + ".xctest", ".bundle");
    }
    assert Classify(stem + ".appex") == Some(AppExtension) by {
      EndsWithOwn(stem, ".appex");
      LastChar(stem + ".appex", ".app");
      LastChar(stem + ".appex", ".framework");
      LastChar(stem + ".appex", ".a");
      LastChar(stem + ".appex", ".dylib");
      LastChar(stem + ".appex", ".bundle");
      LastChar(stem + ".appex", ".xctest");
    }
  }

  lemma EndsWithOwn(stem: string, suffix: string)
    ensures EndsWith(stem + suffix, suffix)
  {
    assert (stem + suffix)[|stem|..] == suffix;
  }

  /** `p` is the product entry `name` of directory `dir` becomes. */
  predicate ProductFor(dir: Paths.Path, name: string, p: BuildProduct) {
    && p.name == name
    && Some(p.productType) == Classify(name)
    && p.path == Paths.Display(Paths.Child(dir, name))
    && (p.isLaunchable <==> p.productType == Application)
  }

  /** The products made of the recognised entries among `names` of
      directory `dir`, in listing order. */
  function ProductsOf(dir: Paths.Path, names: seq<string>): (r: seq<BuildProduct>)
    ensures |r| == |Seqs.Filter(names, Recognised)|
    ensures forall i :: 0 <= i < |r| ==> ProductFor(dir, Seqs.Filter(names, Recognised)[i], r[i])
  {
    if |names| == 0 then []
    else
      var rest := ProductsOf(dir, names[1..]);
      Seqs.FilterCons(names, Recognised);
      var c := Classify(names[0]);
      if c.None? then rest
      else
        var p := BuildProduct(names[0], Paths.Display(Paths.Child(dir, names[0])), c.value, c.value == Application);
        assert ProductFor(dir, names[0], p);
        [p] + rest
  }

  /** `find_build_products`: nothing for a build directory that does not
      exist; a `ParseError` carrying `ioError` when it cannot be listed. */
  function FindBuildProducts(fs: Paths.Fs, buildDir: string, ioError: string): (r: Result<seq<BuildProduct>, BuildError>)
    ensures !Paths.Exists(fs, Paths.Parse(buildDir)) ==> r == Ok([])
    ensures Paths.Exists(fs, Paths.Parse(buildDir)) && Paths.Listing(fs, Paths.Parse(buildDir)).None? ==>
      r == Err(ParseError(ioError))
    ensures r.Ok? && Paths.Exists(fs, Paths.Parse(buildDir)) ==>
      r.value == ProductsOf(Paths.Parse(buildDir), Paths.Listing(fs, Paths.Parse(buildDir)).value)
  {
    var dir := Paths.Parse(buildDir);
    if !Paths.Exists(fs, dir) then Ok([])
    else match Paths.Listing(fs, dir)
      case None => Err(ParseError(ioError))
      case Some(names) => Ok(ProductsOf(dir, names))
  }

  predicate IsLaunchable(p: BuildProduct) {
    p.isLaunchable
  }

  /** `get_launchable_products`: the launchable products, in order. */
  function GetLaunchableProducts(products: seq<BuildProduct>): (r: seq<BuildProduct>)
    ensures forall p :: p in r <==> p in products && p.isLaunchable
    ensures |r| <= |products|
    ensures |r| == |Seqs.KeptAt(products, IsLaunchable)|
    ensures forall k :: 0 <= k < |r| ==> r[k] == products[Seqs.KeptAt(products, IsLaunchable)[k]]
  {
    Seqs.FilterAt(products, IsLaunchable);
    Seqs.Filter(products, IsLaunchable)
  }

  /** What a build directory offers to launch are its `.app` bundles, and
      every one of them. */
  lemma LaunchableAreApps(dir: Paths.Path, names: seq<string>)
    ensures forall p :: p in GetLaunchableProducts(ProductsOf(dir, names)) ==> EndsWith(p.name, ".app")
    ensures forall i :: 0 <= i < |names| && EndsWith(names[i], ".app") ==>
      exists p :: p in GetLaunchableProducts(ProductsOf(dir, names)) && p.name == names[i]
  {
    LaunchableNamedApp(dir, names);
    AppsLaunchable(dir, names);
  }

  lemma LaunchableNamedApp(dir: Paths.Path, names: seq<string>)
    ensures forall p :: p in GetLaunchableProducts(ProductsOf(dir, names)) ==> EndsWith(p.name, ".app")
  {
    var all := ProductsOf(dir, names);
    var kept := Seqs.Filter(names, Recognised);
    forall p | p in GetLaunchableProducts(all) ensures EndsWith(p.name, ".app") {
      var k :| 0 <= k < |all| && all[k] == p;
      assert ProductFor(dir, kept[k], all[k]);
    }
  }

  lemma AppsLaunchable(dir: Paths.Path, names: seq<string>)
    ensures forall i :: 0 <= i < |names| && EndsWith(names[i], ".app") ==>
      exists p :: p in GetLaunchableProducts(ProductsOf(dir, names)) && p.name == names[i]
  {
    var all := ProductsOf(dir, names);
    var kept := Seqs.Filter(names, Recognised);
    forall i | 0 <= i < |names| && EndsWith(names[i], ".app")
      ensures exists p :: p in GetLaunchableProducts(all) && p.name == names[i]
    {
      assert Recognised(names[i]);
      assert names[i] in kept;
      var k :| 0 <= k < |kept| && kept[k] == names[i];
      assert ProductFor(dir, kept[k], all[k]);
      assert all[k] in all && all[k].isLaunchable;
    }
  }

  /** The two cases the source's own tests check. */
  lemma LaunchableExamples()
    ensures var app := BuildProduct("MyApp.app", "/path/to/MyApp.app", Application, true);
      var framework := BuildProduct("MyFramework.framework", "/path/to/MyFramework.framework", Framework, false);
      var tests := BuildProduct("MyTests.xctest", "/path/to/MyTests.xctest", UnitTest, false);
      && GetLaunchableProducts([app, framework, tests]) == [app]
      && GetLaunchableProducts([framework]) == []
  {
    var app := BuildProduct("MyApp.app", "/path/to/MyApp.app", Application, true);
    var framework := BuildProduct("MyFramework.framework", "/path/to/MyFramework.framework", Framework, false);
    var tests := BuildProduct("MyTests.xctest", "/path/to/MyTests.xctest", UnitTest, false);
    assert [app, framework, tests][1..] == [framework, tests];
    assert [framework, tests][1..] == [tests];
    assert [tests][1..] == [];
    assert [framework][1..] == [];
  }

  // ---- build_scheme -------------------------------------------------------

  /** The arguments of both `xcodebuild` runs: the container, the scheme,
      a Debug build for the simulator, signing off; `-showBuildSettings`
      ends the first run's list. */
  function XcodebuildArgs(isWorkspace: bool, projectPath: string, scheme: string, showSettings: bool): (args: seq<string>)
    ensures |args| >= 4 && args[1] == projectPath && args[2] == "-scheme" && args[3] == scheme
    ensures args[0] == "-workspace" <==> isWorkspace
    ensures args[0] == "-project" <==> !isWorkspace
    ensures args[|args| - 1] == "-showBuildSettings" <==> showSettings
  {
    var common := ["-scheme", scheme, "-configuration", "Debug", "-sdk", "iphonesimulator",
                   "-destination", "generic/platform=iOS Simulator",
                   "CODE_SIGN_IDENTITY=", "CODE_SIGNING_REQUIRED=NO", "CODE_SIGNING_ALLOWED=NO"];
    (if isWorkspace then ["-workspace", projectPath] else ["-project", projectPath])
    + common + (if showSettings then ["-showBuildSettings"] else [])
  }

  /** The outcome of `build_scheme` and the argument lists of the
      `xcodebuild` runs it made, in order. */
  datatype BuildRun = BuildRun(result: Result<BuildResult, BuildError>, commands: seq<seq<string>>)

  /** The two `xcodebuild` runs for an Xcode project at `projectPath`: a
      run that fails is a result with `success == false`, no build
      directory and no products; success needs both runs to succeed and a
      build directory in the settings. */
  function RunXcodebuild(fs: Paths.Fs, projectPath: string, isWorkspace: bool, scheme: string,
                         settings: Outcome, build: Outcome, ioError: string): (r: BuildRun)
    ensures r.result.Ok? && !r.result.value.success ==> r.result.value.buildDir == [] && r.result.value.products == []
    ensures r.result.Ok? && r.result.value.success ==>
      && Succeeded(settings) && Succeeded(build)
      && BuildSettings.ExtractBuildDir(settings.stdout) == Some(r.result.value.buildDir)
      && FindBuildProducts(fs, r.result.value.buildDir, ioError) == Ok(r.result.value.products)
    ensures r.result.Err? ==> r.result.error.XcodebuildExecution? || r.result.error.ParseError?
    ensures 1 <= |r.commands| <= 2
    ensures r.commands[0] == XcodebuildArgs(isWorkspace, projectPath, scheme, true)
    ensures |r.commands| == 2 ==> r.commands[1] == XcodebuildArgs(isWorkspace, projectPath, scheme, false)
    ensures |r.commands| == 2 <==> Succeeded(settings) && BuildSettings.ExtractBuildDir(settings.stdout).Some?
  {
    var settingsArgs := XcodebuildArgs(isWorkspace, projectPath, scheme, true);
    var buildArgs := XcodebuildArgs(isWorkspace, projectPath, scheme, false);
    match settings
    case NotStarted(e) => BuildRun(Err(XcodebuildExecution(e)), [settingsArgs])
    case Ran(ok, out, err) =>
      if !ok then BuildRun(Ok(BuildResult(false, "", [], out, err)), [settingsArgs])
      else match BuildSettings.ExtractBuildDir(out)
        case None => BuildRun(Err(ParseError("Could not find build directory")), [settingsArgs])
        case Some(buildDir) => BuildRun(BuildStep(fs, buildDir, build, ioError), [settingsArgs, buildArgs])
  }

  /** The second run, once the build directory is known. */
  function BuildStep(fs: Paths.Fs, buildDir: string, build: Outcome, ioError: string): (r: Result<BuildResult, BuildError>)
    ensures r.Err? ==> r.error.XcodebuildExecution? || r.error.ParseError?
    ensures r.Ok? && !r.value.success ==> r.value.buildDir == [] && r.value.products == []
    ensures r.Ok? && r.value.success ==>
      Succeeded(build) && r.value.buildDir == buildDir && FindBuildProducts(fs, buildDir, ioError) == Ok(r.value.products)
  {
    match build
    case NotStarted(e) => Err(XcodebuildExecution(e))
    case Ran(built, out, err) =>
      if !built then Ok(BuildResult(false, "", [], out, err))
      else match FindBuildProducts(fs, buildDir, ioError)
        case Err(e) => Err(e)
        case Ok(products) => Ok(BuildResult(true, buildDir, products, out, err))
  }

  /** `build_scheme`: a path that is no project, or no Xcode project, is an
      error before anything runs; otherwise the runs use `-workspace`
      exactly when the detected path ends with `.xcworkspace`. */
  function BuildScheme(fs: Paths.Fs, projectPath: Paths.Path, scheme: string,
                       settings: Outcome, build: Outcome, ioError: string): (r: BuildRun)
    ensures ProjectService.DetectProject(fs, projectPath).None? <==> r.result == Err(ProjectNotFound)
    ensures r.result.Err? && r.result.error.NotXcodeProject? ==> r.commands == []
    ensures |r.commands| > 0 ==> var p := ProjectService.DetectProject(fs, projectPath);
      && p.Some? && p.value.projectType == ProjectEntity.Xcode
      && |r.commands[0]| >= 4 && r.commands[0][1] == p.value.path
      && (r.commands[0][0] == "-workspace" <==> EndsWith(p.value.path, ".xcworkspace"))
  {
    BuildDetected(fs, ProjectService.DetectProject(fs, projectPath), scheme, settings, build, ioError)
  }

  /** `build_scheme` once `detect_project` has given `detected`. */
  function BuildDetected(fs: Paths.Fs, detected: Option<ProjectService.Project>, scheme: string,
                         settings: Outcome, build: Outcome, ioError: string): (r: BuildRun)
    ensures detected.None? <==> r.result == Err(ProjectNotFound)
    ensures detected.Some? && detected.value.projectType != ProjectEntity.Xcode
            <==> r.result.Err? && r.result.error.NotXcodeProject?
    ensures detected.None? || detected.value.projectType != ProjectEntity.Xcode ==> r.commands == []
    ensures detected.Some? && detected.value.projectType == ProjectEntity.Xcode ==>
      r == RunXcodebuild(fs, detected.value.path, EndsWith(detected.value.path, ".xcworkspace"), scheme, settings, build, ioError)
  {
    match detected
    case None => BuildRun(Err(ProjectNotFound), [])
    case Some(project) =>
      if project.projectType != ProjectEntity.Xcode then BuildRun(Err(NotXcodeProject(project.projectType)), [])
      else RunXcodebuild(fs, project.path, EndsWith(project.path, ".xcworkspace"), scheme, settings, build, ioError)
  }

  /** The `xcodebuild` arguments open a workspace rather than a project. */
  predicate OpensWorkspace(args: seq<string>) {
    |args| > 0 && args[0] == "-workspace"
  }

  /** A workspace found in a directory is built as a workspace. */
  lemma DirectoryWorkspaceBuiltAsWorkspace(fs: Paths.Fs, dir: Paths.Path, i: nat, scheme: string,
                                           settings: Outcome, build: Outcome, ioError: string)
    requires !ProjectService.IsProjectPath(dir) && Paths.IsDir(fs, dir)
    requires Paths.Listing(fs, dir).Some? && i < |Paths.Listing(fs, dir).value|
    requires ProjectService.IsWorkspaceEntry(Paths.Listing(fs, dir).value[i])
    ensures var run := BuildScheme(fs, dir, scheme, settings, build, ioError);
      |run.commands| > 0 && forall k :: 0 <= k < |run.commands| ==> OpensWorkspace(run.commands[k])
  {
    var detected := ProjectService.DetectProject(fs, dir);
    DirectoryWorkspaceDetected(fs, dir, i);
    DetectedWorkspaceBuiltAsWorkspace(fs, detected, scheme, settings, build, ioError);
    assert BuildScheme(fs, dir, scheme, settings, build, ioError)
        == BuildDetected(fs, detected, scheme, settings, build, ioError);
  }

  /** `detect_project` on a directory that lists a workspace finds an
      Xcode project at a path ending in `.xcworkspace`. */
  lemma DirectoryWorkspaceDetected(fs: Paths.Fs, dir: Paths.Path, i: nat)
    requires !ProjectService.IsProjectPath(dir) && Paths.IsDir(fs, dir)
    requires Paths.Listing(fs, dir).Some? && i < |Paths.Listing(fs, dir).value|
    requires ProjectService.IsWorkspaceEntry(Paths.Listing(fs, dir).value[i])
    ensures var detected := ProjectService.DetectProject(fs, dir);
      detected.Some? && detected.value.projectType == ProjectEntity.Xcode
      && EndsWith(detected.value.path, ".xcworkspace")
  {
    ProjectService.WorkspaceWins(fs, dir, i);
    assert ProjectService.DetectProject(fs, dir) == ProjectService.DetectFromDirectory(fs, dir);
  }

  /** A detected workspace is built with `-workspace` in every run. */
  lemma DetectedWorkspaceBuiltAsWorkspace(fs: Paths.Fs, detected: Option<ProjectService.Project>, scheme: string,
                                          settings: Outcome, build: Outcome, ioError: string)
    requires detected.Some? && detected.value.projectType == ProjectEntity.Xcode
    requires EndsWith(detected.value.path, ".xcworkspace")
    ensures var run := BuildDetected(fs, detected, scheme, settings, build, ioError);
      |run.commands| > 0 && forall k :: 0 <= k < |run.commands| ==> OpensWorkspace(run.commands[k])
  {
    var path := detected.value.path;
    assert BuildDetected(fs, detected, scheme, settings, build, ioError)
        == RunXcodebuild(fs, path, true, scheme, settings, build, ioError);
    WorkspaceRunsOpenWorkspace(fs, path, scheme, settings, build, ioError);
    AllOpenWorkspace(RunXcodebuild(fs, path, true, scheme, settings, build, ioError).commands);
  }

  lemma AllOpenWorkspace(commands: seq<seq<string>>)
    requires 1 <= |commands| <= 2 && OpensWorkspace(commands[0])
    requires |commands| == 2 ==> OpensWorkspace(commands[1])
    ensures forall k :: 0 <= k < |commands| ==> OpensWorkspace(commands[k])
  {
  }

  lemma WorkspaceRunsOpenWorkspace(fs: Paths.Fs, path: string, scheme: string,
                                   settings: Outcome, build: Outcome, ioError: string)
    ensures var run := RunXcodebuild(fs, path, true, scheme, settings, build, ioError);
      1 <= |run.commands| <= 2 && OpensWorkspace(run.commands[0])
      && (|run.commands| == 2 ==> OpensWorkspace(run.commands[1]))
  {
    assert OpensWorkspace(XcodebuildArgs(true, path, scheme, true));
    assert OpensWorkspace(XcodebuildArgs(true, path, scheme, false));
  }

  // ---- build_scheme_stream --------------------------------------------------

  datatype BuildEvent =
    | Started(scheme: string, projectPath: string)
    | Output(line: string)
    | Completed(success: bool, buildDir: string, products: seq<BuildProduct>)
    | Error(message: string)

  /** One read from the build's output pipes: a line, or a read error. */
  datatype LineRead = Read(line: string) | ReadFailed(message: string)

  /** The events for the lines read, up to and including the first read
      error, which ends the reading. */
  function OutputEvents(pipeReads: seq<LineRead>): (r: seq<Result<BuildEvent, BuildError>>)
    ensures |r| <= |pipeReads|
    ensures forall i :: 0 <= i < |r| ==> (r[i].Ok? && r[i].value.Output?) || (r[i].Err? && r[i].error.ParseError?)
    ensures forall i :: 0 <= i < |r| - 1 ==> r[i].Ok?
    ensures (forall i :: 0 <= i < |pipeReads| ==> pipeReads[i].Read?) ==>
      |r| == |pipeReads| && forall i :: 0 <= i < |r| ==> r[i] == Ok(Output(pipeReads[i].line))
  {
    if |pipeReads| == 0 then []
    else match pipeReads[0]
      case ReadFailed(m) => [Err(ParseError(m))]
      case Read(line) => [Ok(Output(line))] + OutputEvents(pipeReads[1..])
  }

  /** `build_scheme_stream`: the errors raised before the stream exists,
      then the stream itself. `pipeReads` are the output lines in the order the
      pipes delivered them, `waited` the exit status or the error waiting
      for it, and `products` what listing the build directory gives. Unlike
      `build_scheme`, the settings run's exit status is not looked at. */
  function BuildSchemeStream(fs: Paths.Fs, projectPath: Paths.Path, scheme: string, settings: Outcome,
                             spawnError: Option<string>, pipeReads: seq<LineRead>, waited: Result<bool, string>,
                             ioError: string): (r: Result<seq<Result<BuildEvent, BuildError>>, BuildError>)
    ensures ProjectService.DetectProject(fs, projectPath).None? <==> r == Err(ProjectNotFound)
    ensures r.Ok? ==> |r.value| >= 2 && r.value[0] == Ok(Started(scheme, Paths.Display(projectPath)))
    ensures r.Ok? ==> settings.Ran? && BuildSettings.ExtractBuildDir(settings.stdout).Some?
    ensures r.Ok? ==> r.value[1..|r.value| - 1] == OutputEvents(pipeReads)
    ensures r.Ok? ==>
      r.value[|r.value| - 1] == Ok(Finished(fs, BuildSettings.ExtractBuildDir(settings.stdout).value, waited, ioError))
  {
    StreamDetected(fs, ProjectService.DetectProject(fs, projectPath), Paths.Display(projectPath), scheme, settings,
                   spawnError, pipeReads, waited, ioError)
  }

  /** `build_scheme_stream` once `detect_project` has given `detected`;
      `shown` is how the project path is displayed. */
  function StreamDetected(fs: Paths.Fs, detected: Option<ProjectService.Project>, shown: string, scheme: string,
                          settings: Outcome, spawnError: Option<string>, pipeReads: seq<LineRead>,
                          waited: Result<bool, string>, ioError: string)
    : (r: Result<seq<Result<BuildEvent, BuildError>>, BuildError>)
    ensures detected.None? <==> r == Err(ProjectNotFound)
    ensures r.Ok? ==> |r.value| >= 2 && r.value[0] == Ok(Started(scheme, shown))
    ensures r.Ok? ==> var last := r.value[|r.value| - 1];
      last.Ok? && (last.value.Completed? || last.value.Error?)
      && (last.value.Completed? ==> waited.Ok? && last.value.success == waited.value)
      && (last.value.Completed? && !last.value.success ==> last.value.products == [])
      && (last.value.Error? ==> waited.Err?)
    ensures r.Ok? ==> forall i :: 1 <= i < |r.value| - 1 ==> !(r.value[i].Ok? && r.value[i].value.Started?)
    ensures r.Ok? ==> settings.Ran? && BuildSettings.ExtractBuildDir(settings.stdout).Some?
    ensures r.Ok? ==> r.value[1..|r.value| - 1] == OutputEvents(pipeReads)
    ensures r.Ok? ==>
      r.value[|r.value| - 1] == Ok(Finished(fs, BuildSettings.ExtractBuildDir(settings.stdout).value, waited, ioError))
  {
    match detected
    case None => Err(ProjectNotFound)
    case Some(project) =>
      if project.projectType != ProjectEntity.Xcode then Err(NotXcodeProject(project.projectType))
      else match settings
        case NotStarted(e) => Err(XcodebuildExecution(e))
        case Ran(_, out, _) =>
          match BuildSettings.ExtractBuildDir(out)
          case None => Err(ParseError("Could not find build directory"))
          case Some(buildDir) =>
            if spawnError.Some? then Err(XcodebuildExecution(spawnError.value))
            else Ok(Events(fs, shown, scheme, buildDir, pipeReads, waited, ioError))
  }

  /** The stream once the build is running: `Started`, an `Output` or a
      read error per line read, then the final event. */
  function Events(fs: Paths.Fs, shown: string, scheme: string, buildDir: string, pipeReads: seq<LineRead>,
                  waited: Result<bool, string>, ioError: string): (events: seq<Result<BuildEvent, BuildError>>)
    ensures |events| >= 2 && events[0] == Ok(Started(scheme, shown))
    ensures var last := events[|events| - 1];
      last.Ok? && (last.value.Completed? || last.value.Error?)
      && (last.value.Completed? ==> waited.Ok? && last.value.success == waited.value)
      && (last.value.Completed? && !last.value.success ==> last.value.products == [])
      && (last.value.Error? ==> waited.Err?)
    ensures forall i :: 1 <= i < |events| - 1 ==> !(events[i].Ok? && events[i].value.Started?)
    ensures events[1..|events| - 1] == OutputEvents(pipeReads)
    ensures events[|events| - 1] == Ok(Finished(fs, buildDir, waited, ioError))
  {
    var outputs := OutputEvents(pipeReads);
    var events := Framed(Started(scheme, shown), outputs, Finished(fs, buildDir, waited, ioError));
    assert forall i :: 1 <= i < |events| - 1 ==> events[i] == outputs[i - 1];
    events
  }

  /** When every read yields a line, the stream is `Started`, one
      `Output` per line in the order read, then the final event. */
  lemma EveryLineStreamed(fs: Paths.Fs, shown: string, scheme: string, buildDir: string, pipeReads: seq<LineRead>,
                          waited: Result<bool, string>, ioError: string)
    requires forall i :: 0 <= i < |pipeReads| ==> pipeReads[i].Read?
    ensures var events := Events(fs, shown, scheme, buildDir, pipeReads, waited, ioError);
      && |events| == |pipeReads| + 2
      && forall i :: 0 <= i < |pipeReads| ==> events[i + 1] == Ok(Output(pipeReads[i].line))
  {
    var events := Events(fs, shown, scheme, buildDir, pipeReads, waited, ioError);
    var mid := events[1..|events| - 1];
    assert forall i :: 0 <= i < |mid| ==> mid[i] == events[i + 1];
  }

  /** A read error ends the output: the lines read before it, the error,
      then the final event, whatever the pipes would have delivered
      after. */
  lemma ReadErrorEndsOutput(fs: Paths.Fs, shown: string, scheme: string, buildDir: string, pipeReads: seq<LineRead>,
                            waited: Result<bool, string>, ioError: string, k: nat)
    requires k < |pipeReads| && pipeReads[k].ReadFailed?
    requires forall i :: 0 <= i < k ==> pipeReads[i].Read?
    ensures var events := Events(fs, shown, scheme, buildDir, pipeReads, waited, ioError);
      && |events| == k + 3
      && (forall i :: 0 <= i < k ==> events[i + 1] == Ok(Output(pipeReads[i].line)))
      && events[k + 1] == Err(ParseError(pipeReads[k].message))
  {
    var events := Events(fs, shown, scheme, buildDir, pipeReads, waited, ioError);
    OutputsUpToError(pipeReads, k);
    var mid := events[1..|events| - 1];
    assert forall i :: 0 <= i < |mid| ==> mid[i] == events[i + 1];
  }

  lemma {:induction false} OutputsUpToError(pipeReads: seq<LineRead>, k: nat)
    requires k < |pipeReads| && pipeReads[k].ReadFailed?
    requires forall i :: 0 <= i < k ==> pipeReads[i].Read?
    ensures var r := OutputEvents(pipeReads);
      && |r| == k + 1
      && (forall i :: 0 <= i < k ==> r[i] == Ok(Output(pipeReads[i].line)))
      && r[k] == Err(ParseError(pipeReads[k].message))
  {
    if k > 0 {
      OutputsUpToError(pipeReads[1..], k - 1);
    }
  }

  /** The event that ends the stream: completion with the exit status, and
      the products only after a successful build; or the error waiting for
      the build. */
  function Finished(fs: Paths.Fs, buildDir: string, waited: Result<bool, string>, ioError: string): (e: BuildEvent)
    ensures e.Completed? || e.Error?
    ensures e.Completed? <==> waited.Ok?
    ensures e.Completed? ==> e.success == waited.value && e.buildDir == buildDir
    ensures e.Completed? && !e.success ==> e.products == []
    ensures e.Completed? && e.success && FindBuildProducts(fs, buildDir, ioError).Ok? ==>
      e.products == FindBuildProducts(fs, buildDir, ioError).value
  {
    match waited
    case Ok(success) =>
      var found := FindBuildProducts(fs, buildDir, ioError);
      Completed(success, buildDir, if success && found.Ok? then found.value else [])
    case Err(e) => Error(e)
  }

  /** The stream: the start event, the output events, the final event. */
  function Framed(first: BuildEvent, outputs: seq<Result<BuildEvent, BuildError>>, last: BuildEvent)
    : (r: seq<Result<BuildEvent, BuildError>>)
    ensures |r| == |outputs| + 2
    ensures r[0] == Ok(first) && r[|r| - 1] == Ok(last)
    ensures forall i :: 1 <= i < |r| - 1 ==> r[i] == outputs[i - 1]
  {
    [Ok(first)] + outputs + [Ok(last)]
  }
}
