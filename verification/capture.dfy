/** The capture thread and the UI's view of it (app/crates/app/src/main.rs):
    the shared capture-mode flag, the label the UI derives from it on each
    tick, the window-capture and screenshot fallback loop, and
    `capture_frames`, which tries fbsimctl, then the simulator server, then
    the fallback. */
module Capture {
  import opened Wrappers
  import opened Bytes
  import Raster
  import Channel
  import CgImage
  import Fbsimctl
  import SimServer
  import Mjpeg

  // ---- the capture-mode flag and its labels -------------------------------

  /** The values the capture paths store in the flag; it starts at 0. */
  const STARTING: nat := 0
  const SIM_SERVER: nat := 1
  const WINDOW: nat := 2
  const SCREENSHOT: nat := 3
  const FBSIMCTL: nat := 4

  const STARTING_LABEL: string := "Streaming: starting..."

  /** The label the UI shows for a flag value. */
  function ModeLabel(mode: nat): (shown: string)
    ensures shown == STARTING_LABEL <==> !(1 <= mode <= 4)
  {
    match mode
    case 1 => "Streaming: sim-server"
    case 2 => "Streaming: window capture"
    case 3 => "Streaming: simctl fallback"
    case 4 => "Streaming: fbsimctl"
    case _ => STARTING_LABEL
  }

  /** Each capture path has a label of its own. */
  lemma LabelsDistinct(m1: nat, m2: nat)
    requires m1 <= 4 && m2 <= 4 && m1 != m2
    ensures ModeLabel(m1) != ModeLabel(m2)
  {
  }

  // ---- the UI tick ----------------------------------------------------------

  /** What the view holds: the frame on screen, the label, and the last
      flag value the label was computed from. */
  datatype View<T> = View(frame: Option<T>, caption: string, lastMode: nat)

  /** The label agrees with the flag value it was computed from. */
  predicate InSync<T>(v: View<T>) {
    v.caption == ModeLabel(v.lastMode)
  }

  /** A fresh view: no frame, the starting label, flag value 0. */
  function InitialView<T>(): (v: View<T>)
    ensures InSync(v) && v.frame.None?
  {
    View(None, STARTING_LABEL, STARTING)
  }

  /** One 16 ms tick: `drained` are the frames `try_iter` yields and `mode`
      the flag's value. Without frames nothing changes; otherwise the last
      frame is shown and the label follows the flag when it moved. */
  function Tick<T>(v: View<T>, drained: seq<T>, mode: nat): (r: View<T>)
    ensures |drained| == 0 ==> r == v
    ensures |drained| > 0 ==> r.frame == Some(drained[|drained| - 1]) && r.lastMode == mode
    ensures InSync(v) ==> InSync(r)
  {
    if |drained| == 0 then v
    else View(Channel.LatestOf(drained), if mode != v.lastMode then ModeLabel(mode) else v.caption, mode)
  }

  /** A tick's inputs. */
  datatype TickInput<T> = TickInput(drained: seq<T>, mode: nat)

  /** The view after a run of ticks. */
  function Ticks<T>(v: View<T>, ts: seq<TickInput<T>>): View<T>
    decreases |ts|
  {
    if |ts| == 0 then v else Ticks(Tick(v, ts[0].drained, ts[0].mode), ts[1..])
  }

  /** The last tick that drained any frame. */
  function LastFed<T>(ts: seq<TickInput<T>>): (k: Option<nat>)
    ensures k.Some? ==> k.value < |ts| && |ts[k.value].drained| > 0
    ensures k.Some? ==> forall j :: k.value < j < |ts| ==> |ts[j].drained| == 0
    ensures k.None? ==> forall j :: 0 <= j < |ts| ==> |ts[j].drained| == 0
  {
    if |ts| == 0 then None
    else if |ts[|ts| - 1].drained| > 0 then Some(|ts| - 1)
    else LastFed(ts[..|ts| - 1])
  }

  lemma {:induction false} TicksSnoc<T>(v: View<T>, ts: seq<TickInput<T>>, t: TickInput<T>)
    ensures Ticks(v, ts + [t]) == Tick(Ticks(v, ts), t.drained, t.mode)
    decreases |ts|
  {
    if |ts| > 0 {
      assert (ts + [t])[1..] == ts[1..] + [t];
      TicksSnoc(Tick(v, ts[0].drained, ts[0].mode), ts[1..], t);
    }
  }

  /** After any run of ticks from an in-sync view, the screen holds the last
      frame of the last tick that drained any, and the label names the flag
      value read on that tick; with no frames at all, nothing changed. */
  lemma {:induction false} TicksShowLastFed<T>(v: View<T>, ts: seq<TickInput<T>>)
    requires InSync(v)
    ensures var r := Ticks(v, ts);
      match LastFed(ts)
      case None => r == v
      case Some(k) =>
        r.frame == Channel.LatestOf(ts[k].drained) && r.lastMode == ts[k].mode
        && r.caption == ModeLabel(ts[k].mode)
    decreases |ts|
  {
    if |ts| > 0 {
      var init, t := ts[..|ts| - 1], ts[|ts| - 1];
      assert ts == init + [t];
      TicksSnoc(v, init, t);
      TicksShowLastFed(v, init);
      TicksInSync(v, init);
      if |t.drained| == 0 {
        assert LastFed(ts) == LastFed(init);
      }
    }
  }

  lemma {:induction false} TicksInSync<T>(v: View<T>, ts: seq<TickInput<T>>)
    requires InSync(v)
    ensures InSync(Ticks(v, ts))
    decreases |ts|
  {
    if |ts| > 0 {
      TicksInSync(Tick(v, ts[0].drained, ts[0].mode), ts[1..]);
    }
  }

  // ---- the fallback loop ----------------------------------------------------

  /** One pass of the fallback loop. `Window(grab)`: a Simulator window is
      known and `grab` is what CoreGraphics returns for it (`None` when it
      returns no image). `NoWindow(shot)`: no window was found, and `shot`
      is the stdout of `xcrun simctl io <udid> screenshot --type=jpeg -`
      when that ran and exited successfully. */
  datatype Step = Window(grab: Option<CgImage.CgImage>) | NoWindow(shot: Option<seq<byte>>)

  /** A frame a pass produces, with the flag value stored for it. */
  datatype Produced = Produced(mode: nat, image: Raster.Image)

  /** What one pass produces: the converted window image (mode 2), or the
      decoded non-empty screenshot (mode 3), or nothing. */
  function StepFrame(step: Step, decode: seq<byte> -> Option<Raster.Image>): (r: Option<Produced>)
    ensures r.Some? && step.Window? ==> r.value.mode == WINDOW && step.grab.Some?
                                        && CgImage.ToRgbaChecked(step.grab.value) == Some(r.value.image)
    ensures r.Some? && step.NoWindow? ==> r.value.mode == SCREENSHOT && step.shot.Some? && |step.shot.value| > 0
                                          && decode(step.shot.value) == Some(r.value.image)
    ensures r.None? ==> match step
                        case Window(g) => g.None? || CgImage.ToRgbaChecked(g.value).None?
                        case NoWindow(s) => s.None? || |s.value| == 0 || decode(s.value).None?
  {
    match step
    case Window(grab) =>
      if grab.None? then None
      else
        var img := CgImage.ToRgbaChecked(grab.value);
        if img.None? then None else Some(Produced(WINDOW, img.value))
    case NoWindow(shot) =>
      if shot.None? || |shot.value| == 0 then None
      else
        var img := decode(shot.value);
        if img.None? then None else Some(Produced(SCREENSHOT, img.value))
  }

  /** Every frame the passes produce, in order: the reference the loop is
      measured against. */
  function AllProduced(steps: seq<Step>, decode: seq<byte> -> Option<Raster.Image>): (r: seq<Produced>)
    ensures |r| <= |steps|
    ensures forall i :: 0 <= i < |r| ==> r[i].mode == WINDOW || r[i].mode == SCREENSHOT
    decreases |steps|
  {
    if |steps| == 0 then []
    else
      var rest := AllProduced(steps[1..], decode);
      match StepFrame(steps[0], decode)
      case None => rest
      case Some(p) => [p] + rest
  }

  /** What the loop did: the flag values it stored, the images it offered,
      whether it returned (on `Disconnected`), and the budget left. */
  datatype LoopRun = LoopRun(stores: seq<nat>, offered: seq<Raster.Image>, returned: bool, budget: Option<nat>)

  /** `r` is what the loop does with the frames `all` under `budget`: it
      returns exactly when the frames outnumber the budget; it stores the
      flag value of each frame it reaches and offers each image it sends,
      one store ahead when it returned; and the budget left is the budget
      less the images offered. */
  predicate Tracks(r: LoopRun, all: seq<Produced>, budget: Option<nat>) {
    && (r.returned <==> budget.Some? && |all| > budget.value)
    && |r.stores| == |r.offered| + (if r.returned then 1 else 0)
    && |r.stores| <= |all|
    && (forall i :: 0 <= i < |r.stores| ==> r.stores[i] == all[i].mode)
    && (forall i :: 0 <= i < |r.offered| ==> r.offered[i] == all[i].image)
    && (budget.Some? <==> r.budget.Some?)
    && (budget.Some? ==> |r.offered| + r.budget.value == budget.value)
    && (budget.None? ==> |r.offered| == |all|)
  }

  /** The loop over a finite run of passes: each produced frame stores its
      flag value and is then offered; the loop returns at the first send that
      finds the receiver gone. */
  function FallbackLoop(steps: seq<Step>, decode: seq<byte> -> Option<Raster.Image>, budget: Option<nat>): (r: LoopRun)
    ensures Tracks(r, AllProduced(steps, decode), budget)
    decreases |steps|
  {
    if |steps| == 0 then LoopRun([], [], false, budget)
    else
      var tail := AllProduced(steps[1..], decode);
      match StepFrame(steps[0], decode)
      case None =>
        assert AllProduced(steps, decode) == tail;
        FallbackLoop(steps[1..], decode, budget)
      case Some(p) =>
        assert AllProduced(steps, decode) == [p] + tail;
        if budget == Some(0) then
          assert ([p] + tail)[0] == p;
          LoopRun([p.mode], [], true, budget)
        else
          var rest := FallbackLoop(steps[1..], decode, Channel.Spend(budget, 1));
          TracksOffer(p, tail, rest, budget);
          LoopRun([p.mode] + rest.stores, [p.image] + rest.offered, rest.returned, rest.budget)
  }

  /** Offering one frame, then running on with the budget spent by one. */
  lemma TracksOffer(p: Produced, tail: seq<Produced>, rest: LoopRun, budget: Option<nat>)
    requires budget != Some(0) && Tracks(rest, tail, Channel.Spend(budget, 1))
    ensures Tracks(LoopRun([p.mode] + rest.stores, [p.image] + rest.offered, rest.returned, rest.budget),
                   [p] + tail, budget)
  {
    var all := [p] + tail;
    var stores, offered := [p.mode] + rest.stores, [p.image] + rest.offered;
    assert forall i :: 0 < i < |all| ==> all[i] == tail[i - 1];
    assert forall i :: 0 < i < |stores| ==> stores[i] == rest.stores[i - 1];
    assert forall i :: 0 < i < |offered| ==> offered[i] == rest.offered[i - 1];
  }

  // ---- capture_frames ------------------------------------------------------

  /** The inputs of the fbsimctl attempt (see `Fbsimctl.CaptureWithFbsimctl`). */
  datatype FbsimctlInputs = FbsimctlInputs(found: bool, spawned: bool, stderr: seq<byte>, chunks: seq<seq<byte>>)

  /** The inputs of the simulator-server attempt (see
      `SimServer.CaptureWithSimServer`). */
  datatype SimServerInputs = SimServerInputs(found: bool, spawned: bool, stdout: seq<byte>,
                                             connect: (string, nat) -> Mjpeg.Connection)

  /** What the capture thread did: every flag value stored, in order, every
      image offered, and whether the thread ended. When `spinning` holds an
      image the thread never gets past the fbsimctl attempt: after
      `offered` it offers that image for as long as the receiver stays. */
  datatype CaptureRun = CaptureRun(stores: seq<nat>, offered: seq<Raster.Image>, returned: bool,
                                   spinning: Option<Raster.Image>)

  /** `capture_frames`. Neither helper ever reports success, so both run
      in turn and the fallback loop follows them, unless the fbsimctl
      attempt spins and never returns. */
  function CaptureFrames(fb: FbsimctlInputs, ss: SimServerInputs, steps: seq<Step>,
                         decode: seq<byte> -> Option<Raster.Image>, budget: Option<nat>): (r: CaptureRun)
    ensures PathsInOrder(r.stores)
    ensures budget.Some? ==> |r.offered| <= budget.value
    ensures r.returned ==> budget.Some?
    ensures r.spinning.Some? ==> r.stores == [FBSIMCTL] && !r.returned && budget.None?
  {
    var f := Fbsimctl.CaptureWithFbsimctl(fb.found, fb.spawned, fb.stderr, fb.chunks, budget);
    if f.spinning.Some? then
      assert PathsInOrder([FBSIMCTL]);
      CaptureRun([FBSIMCTL], f.offered, false, f.spinning)
    else
      var s := SimServer.CaptureWithSimServer(ss.found, ss.spawned, ss.stdout, ss.connect, decode, f.budget);
      var l := FallbackLoop(steps, decode, s.budget);
      HelpersThenLoop(f.modeStored, s.modeStored, l.stores);
      CaptureRun(HelperStores(f.modeStored, s.modeStored) + l.stores, f.offered + s.offered + l.offered, l.returned, None)
  }

  /** The flag values the helpers store: 4 when fbsimctl got going, then 1
      when the simulator server did. */
  function HelperStores(fbsimctl: bool, simServer: bool): seq<nat> {
    (if fbsimctl then [FBSIMCTL] else []) + (if simServer then [SIM_SERVER] else [])
  }

  /** A trace of flag stores that follows the order of the paths: only the
      values 1 to 4, fbsimctl's only first, and the simulator server's only
      right after it. */
  predicate PathsInOrder(stores: seq<nat>) {
    && (forall i :: 0 <= i < |stores| ==> 1 <= stores[i] <= 4)
    && (forall i :: 0 <= i < |stores| && stores[i] == FBSIMCTL ==> i == 0)
    && (forall i, j :: 0 <= i < j < |stores| && stores[j] == SIM_SERVER ==> stores[i] == FBSIMCTL)
  }

  lemma HelpersThenLoop(fbsimctl: bool, simServer: bool, tail: seq<nat>)
    requires forall i :: 0 <= i < |tail| ==> tail[i] == WINDOW || tail[i] == SCREENSHOT
    ensures PathsInOrder(HelperStores(fbsimctl, simServer) + tail)
  {
    var head := HelperStores(fbsimctl, simServer);
    var all := head + tail;
    assert forall i :: |head| <= i < |all| ==> all[i] == tail[i - |head|];
    assert forall i :: 0 <= i < |head| ==> all[i] == head[i];
  }

  /** The value the UI reads from the flag after the stores so far. */
  function FlagValue(stores: seq<nat>): (mode: nat)
    ensures |stores| == 0 ==> mode == STARTING
    ensures |stores| > 0 ==> mode == stores[|stores| - 1]
  {
    if |stores| == 0 then STARTING else stores[|stores| - 1]
  }

  /** The flag names the path that stored last: it still reads "starting"
      only when no path got going; it reads fbsimctl when that attempt
      spins, or got going and nothing after it did; the simulator server
      when it got going and the loop produced no frame; and otherwise the
      kind of the last frame the loop produced. */
  lemma FlagNamesLastPath(fb: FbsimctlInputs, ss: SimServerInputs, steps: seq<Step>,
                          decode: seq<byte> -> Option<Raster.Image>, budget: Option<nat>)
    ensures var f := Fbsimctl.CaptureWithFbsimctl(fb.found, fb.spawned, fb.stderr, fb.chunks, budget);
      var s := SimServer.CaptureWithSimServer(ss.found, ss.spawned, ss.stdout, ss.connect, decode, f.budget);
      var l := FallbackLoop(steps, decode, s.budget);
      var mode := FlagValue(CaptureFrames(fb, ss, steps, decode, budget).stores);
      && (mode == STARTING <==> !f.modeStored && !s.modeStored && |l.stores| == 0)
      && (mode == FBSIMCTL <==> f.modeStored && (f.spinning.Some? || (!s.modeStored && |l.stores| == 0)))
      && (mode == SIM_SERVER <==> f.spinning.None? && s.modeStored && |l.stores| == 0)
      && (f.spinning.None? && |l.stores| > 0 ==> mode == AllProduced(steps, decode)[|l.stores| - 1].mode)
  {
    var f := Fbsimctl.CaptureWithFbsimctl(fb.found, fb.spawned, fb.stderr, fb.chunks, budget);
    var s := SimServer.CaptureWithSimServer(ss.found, ss.spawned, ss.stdout, ss.connect, decode, f.budget);
    var l := FallbackLoop(steps, decode, s.budget);
    StoresOfCapture(fb, ss, steps, decode, budget);
    FlagStory(f.modeStored, f.spinning.Some?, s.modeStored, l.stores, AllProduced(steps, decode),
              CaptureFrames(fb, ss, steps, decode, budget).stores);
  }

  /** The stores of a capture run: fbsimctl's alone when it spins, else
      the helpers' and then the loop's. */
  lemma StoresOfCapture(fb: FbsimctlInputs, ss: SimServerInputs, steps: seq<Step>,
                        decode: seq<byte> -> Option<Raster.Image>, budget: Option<nat>)
    ensures var f := Fbsimctl.CaptureWithFbsimctl(fb.found, fb.spawned, fb.stderr, fb.chunks, budget);
      var s := SimServer.CaptureWithSimServer(ss.found, ss.spawned, ss.stdout, ss.connect, decode, f.budget);
      var l := FallbackLoop(steps, decode, s.budget);
      && (f.spinning.Some? ==> f.modeStored)
      && (forall i :: 0 <= i < |l.stores| ==> l.stores[i] == AllProduced(steps, decode)[i].mode)
      && CaptureFrames(fb, ss, steps, decode, budget).stores
         == if f.spinning.Some? then [FBSIMCTL] else HelperStores(f.modeStored, s.modeStored) + l.stores
  {
  }

  /** The flag's story told on the stores alone. */
  lemma FlagStory(fbsimctl: bool, spins: bool, simServer: bool, loopStores: seq<nat>, all: seq<Produced>,
                  stores: seq<nat>)
    requires spins ==> fbsimctl
    requires |loopStores| <= |all|
    requires forall i :: 0 <= i < |all| ==> all[i].mode == WINDOW || all[i].mode == SCREENSHOT
    requires forall i :: 0 <= i < |loopStores| ==> loopStores[i] == all[i].mode
    requires stores == if spins then [FBSIMCTL] else HelperStores(fbsimctl, simServer) + loopStores
    ensures var mode := FlagValue(stores);
      && (mode == STARTING <==> !fbsimctl && !simServer && |loopStores| == 0)
      && (mode == FBSIMCTL <==> fbsimctl && (spins || (!simServer && |loopStores| == 0)))
      && (mode == SIM_SERVER <==> !spins && simServer && |loopStores| == 0)
      && (!spins && |loopStores| > 0 ==> mode == all[|loopStores| - 1].mode)
  {
    if !spins {
      FlagAfterHelpers(fbsimctl, simServer, loopStores);
    }
  }

  /** The flag after the helpers' stores and then the loop's. */
  lemma FlagAfterHelpers(fbsimctl: bool, simServer: bool, tail: seq<nat>)
    requires forall i :: 0 <= i < |tail| ==> tail[i] == WINDOW || tail[i] == SCREENSHOT
    ensures var mode := FlagValue(HelperStores(fbsimctl, simServer) + tail);
      && (mode == STARTING <==> !fbsimctl && !simServer && |tail| == 0)
      && (mode == FBSIMCTL <==> fbsimctl && !simServer && |tail| == 0)
      && (mode == SIM_SERVER <==> simServer && |tail| == 0)
      && (|tail| > 0 ==> mode == tail[|tail| - 1])
  {
    var all := HelperStores(fbsimctl, simServer) + tail;
    if |tail| > 0 {
      assert all[|all| - 1] == tail[|tail| - 1];
    } else {
      assert all == HelperStores(fbsimctl, simServer);
    }
  }

  /** With neither helper binary found, the capture is the fallback loop
      alone, and the flag only ever holds window capture or the screenshot
      fallback. */
  lemma WithoutHelpers(fb: FbsimctlInputs, ss: SimServerInputs, steps: seq<Step>,
                       decode: seq<byte> -> Option<Raster.Image>, budget: Option<nat>)
    requires !fb.found && !ss.found
    ensures var r := CaptureFrames(fb, ss, steps, decode, budget);
      var l := FallbackLoop(steps, decode, budget);
      r == CaptureRun(l.stores, l.offered, l.returned, None)
    ensures var r := CaptureFrames(fb, ss, steps, decode, budget);
      forall n :: 0 < n <= |r.stores| ==> FlagValue(r.stores[..n]) == WINDOW || FlagValue(r.stores[..n]) == SCREENSHOT
  {
    var l := FallbackLoop(steps, decode, budget);
    assert Fbsimctl.CaptureWithFbsimctl(fb.found, fb.spawned, fb.stderr, fb.chunks, budget).budget == budget;
    assert Fbsimctl.CaptureWithFbsimctl(fb.found, fb.spawned, fb.stderr, fb.chunks, budget).spinning.None?;
    assert HelperStores(false, false) == [];
    assert [] + l.stores == l.stores;
    assert [] + [] + l.offered == l.offered;
  }

  /** A receiver that never goes keeps the thread alive: over any run of
      passes the loop offers every frame produced. */
  lemma NeverReturnsWhileWatched(steps: seq<Step>, decode: seq<byte> -> Option<Raster.Image>)
    ensures var l := FallbackLoop(steps, decode, None);
      !l.returned && |l.offered| == |AllProduced(steps, decode)|
      && forall i :: 0 <= i < |l.offered| ==> l.offered[i] == AllProduced(steps, decode)[i].image
  {
  }
}
