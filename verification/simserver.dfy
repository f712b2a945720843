/** The simulator-server capture path of the desktop app
    (app/crates/app/src/main.rs): the server's arguments, the scan of its
    stdout for the `stream_ready` line and its URL, and the MJPEG stream
    read from that URL. */
module SimServer {
  import opened Wrappers
  import opened Bytes
  import opened Text
  import LineIo
  import Utf8
  import Raster
  import Channel
  import Mjpeg

  /** The server's arguments: `ios --id <udid>`, then `--device-set <dir>`
      when `PLASMA_SIM_DEVICE_SET` is set and not empty. */
  function SimServerArgs(udid: string, deviceSet: Option<string>): (args: seq<string>)
    ensures |args| >= 3 && args[..3] == ["ios", "--id", udid]
    ensures |args| == 5 <==> deviceSet.Some? && deviceSet.value != []
    ensures |args| == 5 ==> args[3..] == ["--device-set", deviceSet.value]
    ensures |args| == 3 || |args| == 5
  {
    var base := ["ios", "--id", udid];
    if deviceSet.Some? && deviceSet.value != [] then base + ["--device-set", deviceSet.value] else base
  }

  /** The line written to the server's stdin: the license token from
      `PLASMA_SIM_SERVER_TOKEN`, when it is set and not empty. */
  function TokenLine(token: Option<string>): (line: Option<string>)
    ensures line.Some? <==> token.Some? && token.value != []
    ensures line.Some? ==> line.value == "token " + token.value + "\n"
  {
    if token.Some? && token.value != [] then Some("token " + token.value + "\n") else None
  }

  /** The stdout thread: the URL on the first line that mentions
      `stream_ready` and holds `http://`, as the first whitespace-free run
      from there. */
  function StreamReadyUrl(stdout: seq<byte>): (r: Option<string>)
    ensures r.Some? ==> StartsWith(r.value, "http://")
    ensures r.Some? ==> forall i :: 0 <= i < |r.value| ==> !IsWhitespace(r.value[i])
    decreases |stdout|
  {
    match LineIo.ReadLine(stdout)
    case Eof => None
    case Invalid(_) => None
    case Line(text, rest) =>
      var start := Find(text, "http://");
      if Contains(TrimEnd(text), "stream_ready") && start.Some? then
        UrlToken(text[start.value..]);
        FirstToken(text[start.value..])
      else StreamReadyUrl(rest)
  }

  /** The token at the head of text that starts with `http://` starts with
      `http://` as well. */
  lemma UrlToken(s: string)
    requires StartsWith(s, "http://")
    ensures FirstToken(s).Some? && StartsWith(FirstToken(s).value, "http://")
  {
    assert s[..7] == "http://";
    assert forall j :: 0 <= j < 7 ==> s[j] == "http://"[j];
    assert !IsWhitespace(s[0]);
    assert TrimStart(s) == s;
    assert forall j :: 0 <= j < 7 ==> !IsWhitespace(s[j]);
    assert TokenEnd(s, 0) >= 7;
    assert FirstToken(s).value[..7] == s[..7];
  }

  /** A `stream_ready <url>` line hands over exactly that URL. */
  lemma ReadyLineGivesUrl(url: string, rest: seq<byte>)
    requires StartsWith(url, "http://") && LineIo.IsAsciiLine(url)
    requires forall i :: 0 <= i < |url| ==> !IsWhitespace(url[i])
    ensures Utf8.IsAscii("stream_ready " + url + "\n")
    ensures StreamReadyUrl(Utf8.AsciiBytes("stream_ready " + url + "\n") + rest) == Some(url)
  {
    var line := "stream_ready " + url;
    LineIo.AsciiLineAppend("stream_ready ", url);
    LineIo.ReadLineAscii(line, rest);
    var text := line + "\n";
    ReadyLineFacts(url);
    ReadyUrlPosition(url);
    UrlFollowedByNewline(url);
    ReadyStep(Utf8.AsciiBytes(text) + rest, text, 13);
  }

  /** A first line that mentions `stream_ready` with `http://` at `k` gives
      the token from `k`. */
  lemma ReadyStep(stdout: seq<byte>, text: string, k: nat)
    requires LineIo.ReadLine(stdout).Line? && LineIo.ReadLine(stdout).text == text
    requires Contains(TrimEnd(text), "stream_ready") && Find(text, "http://") == Some(k)
    ensures StreamReadyUrl(stdout) == FirstToken(text[k..])
  {
  }

  lemma ReadyLineFacts(url: string)
    requires StartsWith(url, "http://")
    requires forall i :: 0 <= i < |url| ==> !IsWhitespace(url[i])
    ensures TrimEnd("stream_ready " + url + "\n") == "stream_ready " + url
    ensures Contains("stream_ready " + url, "stream_ready")
  {
    var line := "stream_ready " + url;
    assert line[|line| - 1] == url[|url| - 1];
    TrimEndNewline(line);
    ReadyKeywordLeads(url);
  }

  lemma ReadyKeywordLeads(url: string)
    ensures Contains("stream_ready " + url, "stream_ready")
  {
    var line := "stream_ready " + url;
    assert line == "stream_ready" + line[12..];
    PrefixContains(line, "stream_ready", line[12..]);
  }

  /** In `stream_ready <url>\n` the first `http://` is where the URL
      begins. */
  lemma ReadyUrlPosition(url: string)
    requires StartsWith(url, "http://")
    ensures Find("stream_ready " + url + "\n", "http://") == Some(13)
    ensures ("stream_ready " + url + "\n")[13..] == url + "\n"
  {
    var text := "stream_ready " + url + "\n";
    assert text == "stream_ready " + (url + "\n");
    assert text[13..20] == url[..7];
    assert OccursAt(text, "http://", 13);
    forall j: nat | j < 13 ensures !OccursAt(text, "http://", j) {
      OccursAtHead(text, "http://", j);
      assert text[j] == "stream_ready "[j];
    }
  }

  lemma UrlFollowedByNewline(url: string)
    requires StartsWith(url, "http://")
    requires forall i :: 0 <= i < |url| ==> !IsWhitespace(url[i])
    ensures FirstToken(url + "\n") == Some(url)
  {
    var s := url + "\n";
    assert !IsWhitespace(s[0]);
    assert TrimStart(s) == s;
    var e := TokenEnd(s, 0);
    assert IsWhitespace(s[|url|]);
    assert forall j :: 0 <= j < |url| ==> !IsWhitespace(s[j]);
    assert e == |url|;
    assert s[..e] == url;
  }

  /** What a simulator-server attempt did: whether it stored capture mode 1,
      the URL it streamed from, the images offered and the budget left. It
      always reports failure (`false`) to its caller. */
  datatype SimServerRun = SimServerRun(modeStored: bool, url: Option<string>, offered: seq<Raster.Image>,
                                       budget: Option<nat>)

  /** `capture_frames_with_sim_server`: `stdout` is what the server writes
      before the 15-second wait for `stream_ready` ends, and `connect(url, k)`
      the outcome of connection attempt `k` to `url`. */
  function CaptureWithSimServer(binaryFound: bool, spawned: bool, stdout: seq<byte>,
                                connect: (string, nat) -> Mjpeg.Connection,
                                decode: seq<byte> -> Option<Raster.Image>, budget: Option<nat>): (r: SimServerRun)
    ensures r.modeStored <==> binaryFound && spawned && StreamReadyUrl(stdout).Some?
    ensures r.modeStored ==> r.url == StreamReadyUrl(stdout)
    ensures !r.modeStored ==> r.offered == [] && r.budget == budget
    ensures budget.Some? <==> r.budget.Some?
    ensures budget.Some? ==> |r.offered| + r.budget.value == budget.value
  {
    if !binaryFound || !spawned then SimServerRun(false, None, [], budget)
    else match StreamReadyUrl(stdout)
      case None => SimServerRun(false, None, [], budget)
      case Some(url) =>
        var run := Mjpeg.StreamWithRetries(url, connect, decode, budget);
        SimServerRun(true, Some(url), run.offered, run.budget)
  }
}
