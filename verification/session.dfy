/** The simulator crate (app/crates/simulator/src/lib.rs): the session
    manager, which holds at most one session, and the frame decoder's
    counter. */
module Session {
  import opened Wrappers
  import opened Bytes
  import Raster

  /** The errors the crate reports that the modelled code can produce. */
  datatype SimulatorError = Io(message: string) | ImageError

  /** A session: the simulator, the project, the stream URL and the
      screen size. */
  datatype SessionInfo = SessionInfo(udid: string, projectPath: string, streamUrl: Option<string>,
                                     width: nat, height: nat)

  /** A simulator-server child process, described by what killing it and
      waiting for it report. */
  datatype Child = Child(killError: Option<string>, waitError: Option<string>)

  datatype SessionManager = SessionManager(current: Option<SessionInfo>, server: Option<Child>)

  const STREAM_URL: string := "http://localhost:8080/stream.mjpeg"

  function New(): (m: SessionManager)
    ensures m.current.None? && StreamUrl(m).None?
  {
    SessionManager(None, None)
  }

  /** `stop_session`: takes the server process out, kills it and waits for
      it, and then forgets the session; a failure to kill or to wait
      returns the error with the session still recorded. */
  function StopSession(m: SessionManager): (r: (Result<(), SimulatorError>, SessionManager))
    ensures r.1.server.None?
    ensures r.0.Ok? <==> m.server.None? || (m.server.value.killError.None? && m.server.value.waitError.None?)
    ensures r.0.Ok? ==> r.1.current.None?
    ensures r.0.Err? ==> r.1.current == m.current
  {
    var taken := m.(server := None);
    match m.server
    case None => (Ok(()), taken.(current := None))
    case Some(c) =>
      if c.killError.Some? then (Err(Io(c.killError.value)), taken)
      else if c.waitError.Some? then (Err(Io(c.waitError.value)), taken)
      else (Ok(()), taken.(current := None))
  }

  /** Stopping twice is stopping once: the second stop always succeeds and
      changes nothing. */
  lemma StopIdempotent(m: SessionManager)
    ensures var once := StopSession(m).1;
      StopSession(once).0.Ok? && (StopSession(m).0.Ok? ==> StopSession(once).1 == once)
  {
  }

  /** `start_session`: stops any session first (its error is returned,
      with nothing started), then records the new one with the fixed
      stream URL, which it returns. */
  function StartSession(m: SessionManager, udid: string, projectPath: string, width: nat, height: nat)
    : (r: (Result<string, SimulatorError>, SessionManager))
    ensures r.0.Ok? <==> StopSession(m).0.Ok?
    ensures r.0.Ok? ==> (r.0.value == STREAM_URL
                         && r.1.current == Some(SessionInfo(udid, projectPath, Some(STREAM_URL), width, height)))
    ensures r.0.Err? ==> r.1 == StopSession(m).1
  {
    var (stopped, m1) := StopSession(m);
    if stopped.Err? then (Err(stopped.error), m1)
    else (Ok(STREAM_URL), m1.(current := Some(SessionInfo(udid, projectPath, Some(STREAM_URL), width, height))))
  }

  /** `stream_url`: the current session's URL. */
  function StreamUrl(m: SessionManager): (url: Option<string>)
    ensures m.current.None? ==> url.None?
    ensures m.current.Some? ==> url == m.current.value.streamUrl
  {
    if m.current.Some? then m.current.value.streamUrl else None
  }

  /** After a successful start the manager hands out the URL it returned. */
  lemma StartThenUrl(m: SessionManager, udid: string, projectPath: string, width: nat, height: nat)
    ensures var (res, m1) := StartSession(m, udid, projectPath, width, height);
      res.Ok? ==> StreamUrl(m1) == Some(res.value)
  {
  }

  /** The manager's operations, for traces. */
  datatype Op = Start(udid: string, projectPath: string, width: nat, height: nat) | Stop | Touch | Button

  /** `send_touch` and `send_button` succeed and change nothing. */
  function Apply(m: SessionManager, op: Op): (r: (Result<(), SimulatorError>, SessionManager))
    ensures op.Touch? || op.Button? ==> r == (Ok(()), m)
  {
    match op
    case Start(u, p, w, h) =>
      var (res, m1) := StartSession(m, u, p, w, h);
      (if res.Ok? then Ok(()) else Err(res.error), m1)
    case Stop => StopSession(m)
    case Touch => (Ok(()), m)
    case Button => (Ok(()), m)
  }

  function Run(m: SessionManager, ops: seq<Op>): SessionManager
    decreases |ops|
  {
    if |ops| == 0 then m else Run(Apply(m, ops[0]).1, ops[1..])
  }

  /** Nothing ever starts a server process, so from a new manager no
      operation fails, and there is a session exactly when the last start
      came after the last stop. */
  lemma {:induction false} NothingFails(m: SessionManager, ops: seq<Op>)
    requires m.server.None?
    ensures Run(m, ops).server.None?
    ensures forall i :: 0 <= i < |ops| ==> Apply(Run(m, ops[..i]), ops[i]).0.Ok?
    ensures Run(m, ops).current.Some? <==> match LastSessionOp(ops)
                                          case None => m.current.Some?
                                          case Some(k) => ops[k].Start?
    decreases |ops|
  {
    if |ops| > 0 {
      var m1 := Apply(m, ops[0]).1;
      NothingFails(m1, ops[1..]);
      forall i | 0 <= i < |ops| ensures Apply(Run(m, ops[..i]), ops[i]).0.Ok? {
        if i > 0 {
          assert ops[..i][1..] == ops[1..][..i - 1];
          assert ops[1..][i - 1] == ops[i];
        }
      }
    }
  }

  /** The last start or stop in a trace. */
  function LastSessionOp(ops: seq<Op>): (k: Option<nat>)
    ensures k.Some? ==> k.value < |ops| && (ops[k.value].Start? || ops[k.value].Stop?)
    ensures k.Some? ==> forall j :: k.value < j < |ops| ==> ops[j].Touch? || ops[j].Button?
    ensures k.None? ==> forall j :: 0 <= j < |ops| ==> ops[j].Touch? || ops[j].Button?
  {
    if |ops| == 0 then None
    else match LastSessionOp(ops[1..])
      case Some(k) => Some(k + 1)
      case None => if ops[0].Start? || ops[0].Stop? then Some(0) else None
  }

  // ---- the frame decoder ---------------------------------------------------

  /** A decoded frame: the image and its number (its timestamp is not
      modelled). */
  datatype Frame = Frame(image: Raster.Image, frameNumber: nat)

  datatype FrameDecoder = FrameDecoder(frameNumber: nat)

  function NewDecoder(): (d: FrameDecoder)
    ensures d.frameNumber == 0
  {
    FrameDecoder(0)
  }

  /** `decode` (and `decode_from_path`, with the file read and decoded by
      `decode`): a frame numbered one past the last, or the image error with
      the counter untouched. */
  function Decode(d: FrameDecoder, data: seq<byte>, decode: seq<byte> -> Option<Raster.Image>)
    : (r: (Result<Frame, SimulatorError>, FrameDecoder))
    ensures decode(data).None? ==> r == (Err(ImageError), d)
    ensures decode(data).Some? ==> r.1.frameNumber == d.frameNumber + 1
                                   && r.0 == Ok(Frame(decode(data).value, r.1.frameNumber))
  {
    match decode(data)
    case None => (Err(ImageError), d)
    case Some(img) =>
      var next := FrameDecoder(d.frameNumber + 1);
      (Ok(Frame(img, next.frameNumber)), next)
  }

  /** Decodes every input in turn. */
  function DecodeAll(d: FrameDecoder, inputs: seq<seq<byte>>, decode: seq<byte> -> Option<Raster.Image>)
    : (r: (seq<Frame>, FrameDecoder))
    decreases |inputs|
  {
    if |inputs| == 0 then ([], d)
    else
      var (res, d1) := Decode(d, inputs[0], decode);
      var (rest, d2) := DecodeAll(d1, inputs[1..], decode);
      ((if res.Ok? then [res.value] else []) + rest, d2)
  }

  /** The frames a fresh decoder returns are numbered 1, 2, 3, ... without
      gaps, one per decodable input, and the counter ends at their count. */
  lemma {:induction false} FramesNumberedInOrder(d: FrameDecoder, inputs: seq<seq<byte>>,
                                                 decode: seq<byte> -> Option<Raster.Image>)
    ensures var (frames, d1) := DecodeAll(d, inputs, decode);
      && d1.frameNumber == d.frameNumber + |frames|
      && (forall i :: 0 <= i < |frames| ==> frames[i].frameNumber == d.frameNumber + i + 1)
    decreases |inputs|
  {
    if |inputs| > 0 {
      var (res, d1) := Decode(d, inputs[0], decode);
      FramesNumberedInOrder(d1, inputs[1..], decode);
    }
  }
}
