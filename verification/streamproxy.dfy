/** The web server's simulator endpoints (app/src/simulator/mod.rs): the
    frame-rate and quality settings of `stream_simulator`, the choice of
    streamer, the skipping of the streamer's HTTP preamble, the log stream's
    handling of a lagging subscriber, the simulator list and the
    install-and-launch sequence. */
module StreamProxy {
  import opened Wrappers
  import opened Bytes
  import opened Text
  import LineIo
  import Utf8
  import Sorting
  import Seqs
  import opened Process

  // ---- frame rate and quality ----------------------------------------------

  const MAX_FPS: nat := 60
  const DEFAULT_FPS: nat := 30

  /** The frame rate: the query's, else `PLASMA_STREAM_FPS` when it parses
      as a `u32`, else 30; then capped at 60. */
  function StreamFps(query: Option<nat>, env: Option<string>): (fps: nat)
    requires query.Some? ==> query.value <= U32_MAX
    ensures fps <= MAX_FPS
    ensures query.Some? ==> fps == if query.value < MAX_FPS then query.value else MAX_FPS
    ensures query.None? && env.Some? && ParseUnsigned(env.value, U32_MAX).Some? ==>
      fps == if ParseUnsigned(env.value, U32_MAX).value < MAX_FPS then ParseUnsigned(env.value, U32_MAX).value else MAX_FPS
    ensures query.None? && (env.None? || ParseUnsigned(env.value, U32_MAX).None?) ==> fps == DEFAULT_FPS
  {
    var chosen :=
      if query.Some? then query.value
      else if env.Some? then ParseUnsigned(env.value, U32_MAX).UnwrapOr(DEFAULT_FPS)
      else DEFAULT_FPS;
    if chosen < MAX_FPS then chosen else MAX_FPS
  }

  /** A query frame rate within the cap is used as is, and one above it is
      cut to the cap, whatever the environment says. */
  lemma QueryFpsWins(q: nat, env: Option<string>)
    requires q <= U32_MAX
    ensures q <= MAX_FPS ==> StreamFps(Some(q), env) == q
    ensures q > MAX_FPS ==> StreamFps(Some(q), env) == MAX_FPS
  {
  }

  /** The quality: the query's, else the parsed `PLASMA_STREAM_QUALITY`,
      else 0.6; then clamped into [0.1, 1.0]. `envParsed` is the variable's
      value when it is set and parses as an `f32`. */
  function StreamQuality(query: Option<real>, envParsed: Option<real>): (q: real)
    ensures 0.1 <= q <= 1.0
    ensures var chosen := if query.Some? then query.value else envParsed.UnwrapOr(0.6);
      0.1 <= chosen <= 1.0 ==> q == chosen
    ensures query.None? && envParsed.None? ==> q == 0.6
  {
    var chosen := if query.Some? then query.value else envParsed.UnwrapOr(0.6);
    if chosen < 0.1 then 0.1 else if chosen > 1.0 then 1.0 else chosen
  }

  /** axe's `--quality`: the quality as a percentage, truncated, capped at
      80 (above that axe writes PNG). */
  function AxeQuality(quality: real): (n: nat)
    requires 0.1 <= quality <= 1.0
    ensures 10 <= n <= 80
    ensures n < 80 ==> n as real <= quality * 100.0 < n as real + 1.0
  {
    var percent := (quality * 100.0).Floor;
    if percent < 80 then percent else 80
  }

  // ---- choosing and starting the streamer ----------------------------------

  /** The two streamers, with where they were found. */
  datatype Streamer = PlasmaStream(path: string) | Axe(path: string)

  function StreamerName(s: Streamer): string {
    if s.PlasmaStream? then "plasma-stream" else "axe"
  }

  /** plasma-stream whenever it was found; axe only without it. */
  function ChooseStreamer(plasmaStream: Option<string>, axe: Option<string>): (r: Option<Streamer>)
    ensures r.None? <==> plasmaStream.None? && axe.None?
    ensures plasmaStream.Some? ==> r == Some(PlasmaStream(plasmaStream.value))
    ensures plasmaStream.None? && axe.Some? ==> r == Some(Axe(axe.value))
  {
    if plasmaStream.Some? then Some(PlasmaStream(plasmaStream.value))
    else if axe.Some? then Some(Axe(axe.value))
    else None
  }

  /** The streamer's arguments. `qualityText` is the `f32` quality as
      Rust prints it. */
  function StreamerArgs(s: Streamer, udid: string, fps: nat, quality: real, qualityText: string): (args: seq<string>)
    requires 0.1 <= quality <= 1.0
    ensures s.PlasmaStream? ==> args == ["--udid", udid, "--fps", NatToString(fps), "--quality", qualityText]
    ensures s.Axe? ==> |args| == 9 && args[0] == "stream-video" && args[1..7] == ["--udid", udid, "--format", "mjpeg", "--fps", NatToString(fps)]
    ensures s.Axe? ==> args[7] == "--quality" && ParseUnsigned(args[8], U32_MAX) == Some(AxeQuality(quality))
  {
    match s
    case PlasmaStream(_) => ["--udid", udid, "--fps", NatToString(fps), "--quality", qualityText]
    case Axe(_) =>
      var n := AxeQuality(quality);
      ParseFormatted(n, U32_MAX);
      ["stream-video", "--udid", udid, "--format", "mjpeg", "--fps", NatToString(fps), "--quality", NatToString(n)]
  }

  // ---- the preamble skip ---------------------------------------------------

  /** What the proxy does with the streamer's stdout: whether it found the
      `HTTP/1.1` status line, and the bytes it forwards. */
  datatype Proxied = Proxied(foundHttp: bool, forwarded: seq<byte>)

  /** Reads lines until one whose trimmed text starts with `HTTP/1.1`,
      skips the header lines after it up to the first blank one, and then
      forwards every remaining byte, unchanged. End of output or a line that
      is not UTF-8 before the status line forwards nothing (and the child
      is killed). */
  function SkipPreamble(output: seq<byte>): (r: Proxied)
    ensures !r.foundHttp ==> r.forwarded == []
    ensures r.foundHttp ==> |r.forwarded| < |output|
    ensures r.forwarded == output[|output| - |r.forwarded|..]
    decreases |output|
  {
    match LineIo.ReadLine(output)
    case Eof => Proxied(false, [])
    case Invalid(_) => Proxied(false, [])
    case Line(text, rest) =>
      if IsStatusLine(text) then Proxied(true, SkipHeaders(rest))
      else SkipPreamble(rest)
  }

  /** The status line of the streamer's HTTP response. */
  predicate IsStatusLine(text: string) {
    StartsWith(TrimEnd(text), "HTTP/1.1")
  }

  /** Skips header lines through the first blank one; a line that is not
      UTF-8, or the end of output, ends the skipping too. */
  function SkipHeaders(input: seq<byte>): (rest: seq<byte>)
    ensures |rest| <= |input| && rest == input[|input| - |rest|..]
    decreases |input|
  {
    match LineIo.ReadLine(input)
    case Eof => []
    case Invalid(rest) => rest
    case Line(text, rest) => if TrimEnd(text) == [] then rest else SkipHeaders(rest)
  }

  /** A line that reads back as itself: ASCII, no newline, and no trailing
      whitespace, so trimming it changes nothing. */
  predicate PlainLine(l: string) {
    LineIo.IsAsciiLine(l) && (l == [] || !IsWhitespace(l[|l| - 1]))
  }

  /** The bytes of a plain line and its `\n`. */
  function LineBytes(l: string): (r: seq<byte>)
    requires PlainLine(l)
    ensures |r| == |l| + 1
  {
    assert Utf8.IsAscii("\n");
    Utf8.AsciiAppend(l, "\n");
    Utf8.AsciiBytes(l + "\n")
  }

  /** The bytes of lines, each followed by `\n`. */
  function LinesBytes(ls: seq<string>): seq<byte>
    requires forall i :: 0 <= i < |ls| ==> PlainLine(ls[i])
  {
    if |ls| == 0 then [] else LineBytes(ls[0]) + LinesBytes(ls[1..])
  }

  /** An HTTP response as the streamer writes it: the status line, the
      header lines, a blank line, then the body. */
  function HttpResponse(status: string, headers: seq<string>, body: seq<byte>): seq<byte>
    requires PlainLine(status) && forall i :: 0 <= i < |headers| ==> PlainLine(headers[i])
  {
    assert forall i :: 0 <= i < |headers + [""]| ==> PlainLine((headers + [""])[i]);
    LinesBytes([status]) + (LinesBytes(headers + [""]) + body)
  }

  /** Whatever lines the streamer prints first, the status line, the
      headers and the blank line are dropped, and the body after them is
      forwarded byte for byte. */
  lemma {:induction false} PreambleSkipped(intro: seq<string>, status: string, headers: seq<string>, body: seq<byte>)
    requires forall i :: 0 <= i < |intro| ==> PlainLine(intro[i]) && !StartsWith(intro[i], "HTTP/1.1")
    requires PlainLine(status) && StartsWith(status, "HTTP/1.1")
    requires forall i :: 0 <= i < |headers| ==> PlainLine(headers[i]) && headers[i] != []
    ensures SkipPreamble(LinesBytes(intro) + HttpResponse(status, headers, body)) == Proxied(true, body)
    decreases |intro|
  {
    var response := HttpResponse(status, headers, body);
    if |intro| == 0 {
      assert LinesBytes(intro) + response == response;
      StatusLineSkipped(status, headers, body);
    } else {
      FirstLine(intro, response);
      ReadPlainLine(intro[0], LinesBytes(intro[1..]) + response);
      PreambleSkipped(intro[1..], status, headers, body);
    }
  }

  lemma StatusLineSkipped(status: string, headers: seq<string>, body: seq<byte>)
    requires PlainLine(status) && StartsWith(status, "HTTP/1.1")
    requires forall i :: 0 <= i < |headers| ==> PlainLine(headers[i]) && headers[i] != []
    ensures SkipPreamble(HttpResponse(status, headers, body)) == Proxied(true, body)
  {
    var tail := LinesBytes(headers + [""]) + body;
    FirstLine([status], tail);
    assert LinesBytes([status][1..]) + tail == tail;
    ReadPlainLine(status, tail);
    HeadersSkipped(headers, body);
  }

  /** The bytes of a list of lines start with those of its first line. */
  lemma FirstLine(ls: seq<string>, tail: seq<byte>)
    requires |ls| > 0 && forall i :: 0 <= i < |ls| ==> PlainLine(ls[i])
    ensures LinesBytes(ls) + tail == LineBytes(ls[0]) + (LinesBytes(ls[1..]) + tail)
  {
    var first, others := LineBytes(ls[0]), LinesBytes(ls[1..]);
    assert LinesBytes(ls) == first + others;
    Bytes.Regroup(first, others, tail);
  }

  /** A plain line reads back as itself plus its newline, and trims to
      itself. */
  lemma ReadPlainLine(l: string, rest: seq<byte>)
    requires PlainLine(l)
    ensures LineIo.ReadLine(LineBytes(l) + rest) == LineIo.Line(l + "\n", rest)
    ensures TrimEnd(l + "\n") == l
  {
    LineIo.ReadLineAscii(l, rest);
    if l == [] {
      assert l + "\n" == "\n";
    } else {
      TrimEndNewline(l);
    }
  }

  lemma {:induction false} HeadersSkipped(headers: seq<string>, body: seq<byte>)
    requires forall i :: 0 <= i < |headers| ==> PlainLine(headers[i]) && headers[i] != []
    ensures SkipHeaders(LinesBytes(headers + [""]) + body) == body
    decreases |headers|
  {
    var ls := headers + [""];
    FirstLine(ls, body);
    ReadPlainLine(ls[0], LinesBytes(ls[1..]) + body);
    if |headers| == 0 {
      assert LinesBytes(ls[1..]) == [];
      assert LinesBytes(ls[1..]) + body == body;
    } else {
      assert ls[1..] == headers[1..] + [""];
      HeadersSkipped(headers[1..], body);
    }
  }

  /** Output that never shows a status line forwards nothing. */
  lemma {:induction false} NoStatusNothingForwarded(intro: seq<string>)
    requires forall i :: 0 <= i < |intro| ==> PlainLine(intro[i]) && !StartsWith(intro[i], "HTTP/1.1")
    ensures SkipPreamble(LinesBytes(intro)) == Proxied(false, [])
    decreases |intro|
  {
    if |intro| > 0 {
      FirstLine(intro, []);
      assert LinesBytes(intro) + [] == LinesBytes(intro);
      assert LinesBytes(intro[1..]) + [] == LinesBytes(intro[1..]);
      ReadPlainLine(intro[0], LinesBytes(intro[1..]));
      NoStatusNothingForwarded(intro[1..]);
    }
  }

  /** The endpoint's response: a 500 with its message, or the multipart
      stream of the forwarded bytes. */
  datatype Response = ServerError(message: string) | Multipart(streamer: Streamer, args: seq<string>, body: seq<byte>)

  /** `stream_simulator`. `spawnError` is the error `spawn` reports, if
      any; `output` is what the streamer writes to stdout before its end or
      a read error. */
  function StreamSimulator(udid: string, queryFps: Option<nat>, fpsEnv: Option<string>,
                           queryQuality: Option<real>, qualityEnv: Option<real>, qualityText: string,
                           plasmaStream: Option<string>, axe: Option<string>,
                           spawnError: Option<string>, output: seq<byte>): (r: Response)
    requires queryFps.Some? ==> queryFps.value <= U32_MAX
    ensures plasmaStream.None? && axe.None? ==> r == ServerError("No streaming binary found (plasma-stream or axe)")
    ensures r.Multipart? ==> spawnError.None? && Some(r.streamer) == ChooseStreamer(plasmaStream, axe)
    ensures r.Multipart? ==> r.body == SkipPreamble(output).forwarded
    ensures r.ServerError? <==> ChooseStreamer(plasmaStream, axe).None? || spawnError.Some?
  {
    match ChooseStreamer(plasmaStream, axe)
    case None => ServerError("No streaming binary found (plasma-stream or axe)")
    case Some(s) =>
      var fps := StreamFps(queryFps, fpsEnv);
      var quality := StreamQuality(queryQuality, qualityEnv);
      var args := StreamerArgs(s, udid, fps, quality, qualityText);
      if spawnError.Some? then ServerError("Failed to spawn " + StreamerName(s) + ": " + spawnError.value)
      else Multipart(s, args, SkipPreamble(output).forwarded)
  }

  // ---- the log stream --------------------------------------------------------

  /** The events the capture side broadcasts. */
  datatype LogEvent = Info(message: string) | Error(message: string) | Debug(message: string) | Frame(frameNumber: nat)

  /** What a subscriber's `recv` returns. */
  datatype Received = Event(event: LogEvent) | Lagged(skipped: nat) | Closed

  function LagMessage(n: nat): string {
    "Skipped " + NatToString(n) + " log messages due to buffer overflow"
  }

  /** `stream_logs`: each event is passed on; a lag becomes a `Debug`
      event that says how many were skipped; the stream ends at `Closed`. */
  function LogStream(rs: seq<Received>): (out: seq<LogEvent>)
    ensures |out| <= |rs|
    decreases |rs|
  {
    if |rs| == 0 then []
    else match rs[0]
      case Closed => []
      case Event(e) => [e] + LogStream(rs[1..])
      case Lagged(n) => [Debug(LagMessage(n))] + LogStream(rs[1..])
  }

  /** The position of the first `Closed`, or the length. */
  function FirstClosed(rs: seq<Received>): (k: nat)
    ensures k <= |rs|
    ensures forall i :: 0 <= i < k ==> !rs[i].Closed?
    ensures k < |rs| ==> rs[k].Closed?
  {
    if |rs| == 0 then 0 else if rs[0].Closed? then 0 else 1 + FirstClosed(rs[1..])
  }

  /** Only `Closed` ends the stream: one event comes out for everything
      received before it, in order, lags turned into notices. */
  lemma {:induction false} LogStreamUntilClosed(rs: seq<Received>)
    ensures |LogStream(rs)| == FirstClosed(rs)
    ensures forall i :: 0 <= i < FirstClosed(rs) ==>
      LogStream(rs)[i] == match rs[i] case Event(e) => e case Lagged(n) => Debug(LagMessage(n)) case Closed => Debug("")
    decreases |rs|
  {
    if |rs| > 0 && !rs[0].Closed? {
      LogStreamUntilClosed(rs[1..]);
      var out := LogStream(rs);
      forall i | 1 <= i < FirstClosed(rs)
        ensures out[i] == LogStream(rs[1..])[i - 1]
      {
      }
    }
  }

  // ---- the simulator list ----------------------------------------------------

  /** A device as `simctl list devices -j` describes it; absent fields are
      read as empty strings. */
  datatype Device = Device(udid: string, name: string, state: string)

  datatype Simulator = Simulator(udid: string, name: string, state: string, runtime: string)

  /** Keeps devices with a udid that are not `Unavailable`, runtime by
      runtime in the order of the listing. */
  function Collect(runtimes: seq<(string, seq<Device>)>): (r: seq<Simulator>)
    ensures forall i :: 0 <= i < |r| ==> r[i].udid != [] && r[i].state != "Unavailable"
    decreases |runtimes|
  {
    if |runtimes| == 0 then []
    else CollectDevices(runtimes[0].0, runtimes[0].1) + Collect(runtimes[1..])
  }

  function CollectDevices(runtime: string, ds: seq<Device>): (r: seq<Simulator>)
    ensures forall i :: 0 <= i < |r| ==> r[i].udid != [] && r[i].state != "Unavailable" && r[i].runtime == runtime
    ensures forall d :: d in ds && d.udid != [] && d.state != "Unavailable" ==>
      Simulator(d.udid, d.name, d.state, runtime) in r
    ensures forall s :: s in r ==> Device(s.udid, s.name, s.state) in ds
  {
    if |ds| == 0 then []
    else
      var d := ds[0];
      var rest := CollectDevices(runtime, ds[1..]);
      if d.udid != [] && d.state != "Unavailable" then [Simulator(d.udid, d.name, d.state, runtime)] + rest else rest
  }

  predicate Booted(s: Simulator) {
    s.state == "Booted"
  }

  /** The listing's order: booted simulators first, then by name. */
  predicate ListOrder(a: Simulator, b: Simulator) {
    if Booted(a) != Booted(b) then Booted(a) else Sorting.LexLe(a.name, b.name)
  }

  lemma ListOrderIsPreorder()
    ensures Sorting.TotalPreorder(ListOrder)
  {
    forall a, b ensures ListOrder(a, b) || ListOrder(b, a) {
      Sorting.LexLeTotal(a.name, b.name);
    }
    forall a, b, c | ListOrder(a, b) && ListOrder(b, c) ensures ListOrder(a, c) {
      if Booted(a) == Booted(b) == Booted(c) {
        Sorting.LexLeTransitive(a.name, b.name, c.name);
      }
    }
  }

  /** `get_simulators` once the JSON is read: the kept devices, sorted. */
  function ListSimulators(runtimes: seq<(string, seq<Device>)>): (r: seq<Simulator>)
    ensures multiset(r) == multiset(Collect(runtimes))
    ensures forall i, j :: 0 <= i < j < |r| && Booted(r[j]) ==> Booted(r[i])
    ensures forall i, j :: 0 <= i < j < |r| && Booted(r[i]) == Booted(r[j]) ==> Sorting.LexLe(r[i].name, r[j].name)
  {
    ListOrderIsPreorder();
    var r := Sorting.SortBy(Collect(runtimes), ListOrder);
    assert forall i, j :: 0 <= i < j < |r| ==> ListOrder(r[i], r[j]);
    r
  }

  /** The sort is stable: simulators the order cannot tell apart (the same
      boot state and name) are listed in the order they were collected. */
  lemma ListSimulatorsStable(runtimes: seq<(string, seq<Device>)>, z: Simulator)
    ensures Seqs.Filter(ListSimulators(runtimes), Sorting.TiedWith(ListOrder, z))
         == Seqs.Filter(Collect(runtimes), Sorting.TiedWith(ListOrder, z))
  {
    ListOrderIsPreorder();
    Sorting.SortByStable(Collect(runtimes), ListOrder, z);
  }

  /** A simulator is listed exactly when it was kept. */
  lemma ListedIffKept(runtimes: seq<(string, seq<Device>)>, s: Simulator)
    ensures s in ListSimulators(runtimes) <==> s in Collect(runtimes)
  {
    var r := ListSimulators(runtimes);
    assert s in r <==> s in multiset(r);
  }

  // ---- install and launch ----------------------------------------------------

  /** The result of `do_install_and_launch` and the `simctl` commands it
      ran, in order. */
  datatype InstallRun = InstallRun(result: Result<string, string>, commands: seq<seq<string>>)

  /** `extract_bundle_id`: the trimmed stdout of PlistBuddy. */
  function ExtractBundleId(plistBuddy: Outcome): (r: Result<string, string>)
    ensures plistBuddy.Ran? && plistBuddy.success ==> r == Ok(Trim(plistBuddy.stdout))
    ensures !(plistBuddy.Ran? && plistBuddy.success) ==> r.Err? && StartsWith(r.error, "Failed to read bundle ID: ")
  {
    match plistBuddy
    case NotStarted(e) => Err("Failed to read bundle ID: " + e)
    case Ran(ok, out, err) => if ok then Ok(Trim(out)) else Err("Failed to read bundle ID: " + err)
  }

  /** Boots (a failing boot is only logged), installs, finds the bundle id
      and launches, returning the first error. */
  function InstallAndLaunch(udid: string, appPath: string, bundleId: Option<string>,
                            boot: Outcome, install: Outcome, plistBuddy: Outcome, launch: Outcome): (r: InstallRun)
    ensures boot.NotStarted? ==> r == InstallRun(Err("Failed to boot simulator: " + boot.error), [["simctl", "boot", udid]])
    ensures boot.Ran? ==> |r.commands| >= 2 && r.commands[..2] == [["simctl", "boot", udid], ["simctl", "install", udid, appPath]]
    ensures boot.Ran? && install.Ran? && !install.success ==>
      r == InstallRun(Err("Install failed: " + install.stderr), [["simctl", "boot", udid], ["simctl", "install", udid, appPath]])
    ensures |r.commands| == 3 ==> (bundleId.Some? || ExtractBundleId(plistBuddy).Ok?) && r.commands[2] == ["simctl", "launch", udid,
                                                   if bundleId.Some? then bundleId.value else ExtractBundleId(plistBuddy).value]
    ensures r.result.Ok? <==> boot.Ran? && install.Ran? && install.success
                              && (bundleId.Some? || ExtractBundleId(plistBuddy).Ok?) && launch.Ran? && launch.success
  {
    var bootCmd, installCmd := ["simctl", "boot", udid], ["simctl", "install", udid, appPath];
    if boot.NotStarted? then InstallRun(Err("Failed to boot simulator: " + boot.error), [bootCmd])
    else if install.NotStarted? then InstallRun(Err("Failed to install app: " + install.error), [bootCmd, installCmd])
    else if !install.success then InstallRun(Err("Install failed: " + install.stderr), [bootCmd, installCmd])
    else
      var id := if bundleId.Some? then Ok(bundleId.value) else ExtractBundleId(plistBuddy);
      if id.Err? then InstallRun(Err(id.error), [bootCmd, installCmd])
      else
        var cmds := [bootCmd, installCmd, ["simctl", "launch", udid, id.value]];
        match launch
        case NotStarted(e) => InstallRun(Err("Failed to launch app: " + e), cmds)
        case Ran(ok, _, err) =>
          if ok then InstallRun(Ok("App " + id.value + " launched successfully"), cmds)
          else InstallRun(Err("Launch failed: " + err), cmds)
  }

  /** However the boot went, once it ran the rest goes the same way. */
  lemma BootFailureIgnored(udid: string, appPath: string, bundleId: Option<string>,
                           s1: bool, o1: string, e1: string, s2: bool, o2: string, e2: string,
                           install: Outcome, plistBuddy: Outcome, launch: Outcome)
    ensures InstallAndLaunch(udid, appPath, bundleId, Ran(s1, o1, e1), install, plistBuddy, launch)
         == InstallAndLaunch(udid, appPath, bundleId, Ran(s2, o2, e2), install, plistBuddy, launch)
  {
  }
}
