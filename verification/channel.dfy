/** The capacity-1 `sync_channel` that carries decoded frames from the
    capture thread to the UI, and the UI's drain on each tick
    (app/crates/app/src/main.rs). */
module Channel {
  import opened Wrappers

  /** What `try_send` reports. */
  datatype SendOutcome = Sent | Full | Disconnected

  /** The channel: the one buffered frame, if any, and whether the receiving
      side still exists. */
  datatype Slot<T> = Slot(buffered: Option<T>, receiverAlive: bool)

  function NewSlot<T>(): (s: Slot<T>)
    ensures s.buffered.None? && s.receiverAlive
  {
    Slot(None, true)
  }

  /** `try_send(x)`: a gone receiver is reported first; a full buffer keeps
      the frame already in it and drops `x`. */
  function TrySend<T>(s: Slot<T>, x: T): (r: (SendOutcome, Slot<T>))
    ensures r.0 == Disconnected <==> !s.receiverAlive
    ensures r.0 == Full <==> s.receiverAlive && s.buffered.Some?
    ensures r.0 == Sent ==> r.1 == s.(buffered := Some(x))
    ensures r.0 != Sent ==> r.1 == s
  {
    if !s.receiverAlive then (Disconnected, s)
    else if s.buffered.Some? then (Full, s)
    else (Sent, s.(buffered := Some(x)))
  }

  /** Sends every frame in order, stopping at the first `Disconnected`; the
      outcomes and the channel afterwards. */
  function SendAll<T>(s: Slot<T>, xs: seq<T>): (r: (seq<SendOutcome>, Slot<T>))
    ensures |r.0| <= |xs|
    ensures r.1.receiverAlive == s.receiverAlive
    decreases |xs|
  {
    if |xs| == 0 then ([], s)
    else
      var (o, s1) := TrySend(s, xs[0]);
      if o == Disconnected then ([o], s1)
      else
        var (os, s2) := SendAll(s1, xs[1..]);
        ([o] + os, s2)
  }

  /** With nobody draining, the first frame sent into an empty channel is the
      one that stays: every later frame is dropped as `Full`. */
  lemma {:induction false} OldestFrameWins<T>(s: Slot<T>, xs: seq<T>)
    requires s.receiverAlive && s.buffered.None? && |xs| > 0
    ensures SendAll(s, xs).1.buffered == Some(xs[0])
    ensures SendAll(s, xs).0 == [Sent] + Fulls(|xs| - 1)
  {
    var s1 := s.(buffered := Some(xs[0]));
    FullDropsAll(s1, xs[1..]);
  }

  /** Into a full slot whose receiver lives, every send reports `Full` and
      nothing changes. */
  lemma {:induction false} FullDropsAll<T>(s: Slot<T>, xs: seq<T>)
    requires s.receiverAlive && s.buffered.Some?
    ensures SendAll(s, xs) == (Fulls(|xs|), s)
  {
    if |xs| > 0 {
      FullDropsAll(s, xs[1..]);
    }
  }

  /** `n` outcomes, all `Full`. */
  function Fulls(n: nat): (r: seq<SendOutcome>)
    ensures |r| == n && forall i :: 0 <= i < n ==> r[i] == Full
  {
    if n == 0 then [] else [Full] + Fulls(n - 1)
  }

  /** Takes the buffered frame out (`try_recv`). */
  function Receive<T>(s: Slot<T>): (r: (Option<T>, Slot<T>))
    ensures r.0 == s.buffered
    ensures r.1.buffered.None? && r.1.receiverAlive == s.receiverAlive
  {
    (s.buffered, s.(buffered := None))
  }

  /** A frame sent into an empty slot is the frame the next receive takes,
      and the receive leaves the slot as it was before the send. */
  lemma SendThenReceive<T>(s: Slot<T>, x: T)
    requires s.receiverAlive && s.buffered.None?
    ensures TrySend(s, x).0 == Sent
    ensures Receive(TrySend(s, x).1) == (Some(x), s)
  {
  }

  /** A receive makes room: the next send into a live slot goes through,
      whatever was waiting before. */
  lemma ReceiveMakesRoom<T>(s: Slot<T>, x: T)
    requires s.receiverAlive
    ensures TrySend(Receive(s).1, x) == (Sent, s.(buffered := Some(x)))
  {
  }

  /** One UI tick's drain: of the frames `try_iter` yields, only the last is
      kept; with none, `latest` is `None`. */
  function LatestOf<T>(drained: seq<T>): (latest: Option<T>)
    ensures latest.None? <==> |drained| == 0
    ensures latest.Some? ==> latest.value == drained[|drained| - 1]
  {
    if |drained| == 0 then None else Some(drained[|drained| - 1])
  }

  /** Draining in two parts keeps the last frame of the second part, unless
      it is empty. */
  lemma LatestOfAppend<T>(a: seq<T>, b: seq<T>)
    ensures LatestOf(a + b) == if |b| == 0 then LatestOf(a) else LatestOf(b)
  {
    if |b| == 0 {
      assert a + b == a;
    }
  }

  // ---- the receiver's lifetime, counted in sends -------------------------
  //
  // A producer does not see when the UI drops the receiver, only that some
  // `try_send` reports `Disconnected`. The model counts it in sends: a
  // budget of `Some(n)` lets `n` more `try_send` calls find the receiver
  // alive (each `Sent` or `Full`), after which every call is
  // `Disconnected`; `None` is a receiver that never goes.

  /** The items a sender offers before `try_send` first reports the
      receiver gone: all of them, or the first `budget` when it is set. */
  function Cut<T>(xs: seq<T>, budget: Option<nat>): (r: seq<T>)
    ensures budget.None? ==> r == xs
    ensures budget.Some? ==> r == xs[..if budget.value < |xs| then budget.value else |xs|]
  {
    if budget.Some? && budget.value < |xs| then xs[..budget.value] else xs
  }

  /** What is left of the budget after `n` sends. */
  function Spend(budget: Option<nat>, n: nat): Option<nat>
    requires budget.Some? ==> n <= budget.value
  {
    if budget.Some? then Some(budget.value - n) else None
  }

  lemma CutAppend<T>(xs: seq<T>, ys: seq<T>, budget: Option<nat>)
    ensures budget.Some? && |xs| > budget.value ==> Cut(xs + ys, budget) == xs[..budget.value]
    ensures !(budget.Some? && |xs| > budget.value) ==> Cut(xs + ys, budget) == xs + Cut(ys, Spend(budget, |xs|))
  {
    if budget.Some? && |xs| > budget.value {
      assert (xs + ys)[..budget.value] == xs[..budget.value];
    } else if budget.Some? && budget.value < |xs + ys| {
      assert (xs + ys)[..budget.value] == xs + ys[..budget.value - |xs|];
    }
  }
}
