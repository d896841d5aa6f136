/**
 The three stages between the network and the decoder put together: the table that pieces
 frames together on both carriers, the orderer behind it, and the paced queue in front of
 the decoder. What comes out at the end is the host's video: every frame byte for byte,
 each delta right behind the frame it was coded against, never backwards.
 */
module Pipeline {
  import opened Bytes
  import opened InsertionOrder
  import opened Parity
  import opened Wire
  import opened Assembly
  import opened TableSound
  import T = FrameTable
  import O = Orderer
  import OS = OrderSafety
  import OM = OrderMonotone
  import P = PacedPath
  import Pacing

  datatype State = State(table: T.State, order: O.State, paced: P.State)

  const FRESH := State(T.Fresh(), O.Fresh(O.MAX_REORDER), P.FRESH)

  /** What happens to the page. `clock` is what the clock shows each time it is looked at while frames go through. */
  datatype Event =
    | Net(e: T.Event, configured: bool, clock: nat -> real)
    | RttMeasured(ms: real)
    | KeyAsked
    | ReferenceGap
    | Configure(newStream: bool)
    | WatchdogReset
    | TimerFires(nowMs: real)
    | SetPacing(on: bool)
    | FirstPicture

  /** What a step hands on: out of the orderer, and into the decoder. */
  datatype Handed = Handed(ordered: seq<WtFrame>, submitted: seq<WtFrame>)

  const NOTHING := Handed([], [])

  ghost predicate Ready(s: State) {
    T.Shaped(s.table.v4) && s.order.pending.Valid()
  }

  // ---- the glue ------------------------------------------------------------------------

  /** The frame a step of the table hands to the page, if it does: always the last thing it does. */
  function Delivered(out: seq<T.Output>): Option<WtFrame> {
    if |out| > 0 && out[|out| - 1].Deliver? then Some(out[|out| - 1].frame) else None
  }

  /** Every frame the orderer made ready, admitted one after another. */
  function AdmitAll(p: P.State, fs: seq<WtFrame>, clock: nat -> real): (P.State, seq<WtFrame>) {
    if |fs| == 0 then (p, [])
    else
      var n := |fs| - 1;
      var (q, out) := AdmitAll(p, fs[..n], clock);
      var (r, more) := P.Admitted(q, fs[n], clock(2 * n), clock(2 * n + 1));
      (r, out + more)
  }

  function AfterGap(o: O.State): O.State {
    if o.resync then O.Reset(o, false) else o
  }

  /** A delivered frame through the orderer and the paced queue. */
  function OnFrame(s: State, f: WtFrame, clock: nat -> real): (r: (State, Handed))
    requires Ready(s)
    ensures Ready(r.0)
  {
    var (o, ready) := O.Accept(s.order, f);
    var (p, out) := AdmitAll(s.paced, ready, clock);
    (s.(order := AfterGap(o), paced := p), Handed(ready, out))
  }

  function OnNet(s: State, e: T.Event, configured: bool, clock: nat -> real): (r: (State, Handed))
    requires Ready(s)
    ensures Ready(r.0)
  {
    var (t, out) := T.Step(s.table, e);
    var got := Delivered(out);
    var u := s.(table := t);
    if got.Some? && configured then OnFrame(u, got.value, clock) else (u, NOTHING)
  }

  /** The decode state thrown away: what waits for its slot goes, and the orderer starts at the next keyframe. */
  function Rebuilt(s: State, newStream: bool): State {
    s.(order := O.Reset(s.order, newStream), paced := P.Step(s.paced, P.DropHeld).0)
  }

  function OnPaced(s: State, e: P.Event): (State, Handed) {
    var (p, out) := P.Step(s.paced, e);
    (s.(paced := p), Handed([], out))
  }

  function Step(s: State, e: Event): (r: (State, Handed))
    requires Ready(s)
    ensures Ready(r.0)
  {
    match e
    case Net(n, configured, clock) => OnNet(s, n, configured, clock)
    case RttMeasured(ms) => (s.(order := O.SetRtt(s.order, ms)), NOTHING)
    case KeyAsked => (s.(order := O.KeyframeRequested(s.order)), NOTHING)
    case ReferenceGap => (s.(order := O.Reset(s.order, false)), NOTHING)
    case Configure(newStream) => (Rebuilt(s, newStream), NOTHING)
    case WatchdogReset =>
      var t := Rebuilt(s, false);
      (t.(paced := t.paced.(clock := Pacing.START, announced := true)), NOTHING)
    case TimerFires(nowMs) => OnPaced(s, P.TimerFires(nowMs))
    case SetPacing(on) => OnPaced(s, P.SetPacing(on))
    case FirstPicture => OnPaced(s, P.FirstPicture)
  }

  function Join(a: Handed, b: Handed): Handed {
    Handed(a.ordered + b.ordered, a.submitted + b.submitted)
  }

  /** The end state of a run from `s`, and all it handed on, in order. */
  function Run(s: State, es: seq<Event>): (r: (State, Handed))
    requires Ready(s)
    ensures Ready(r.0)
  {
    if |es| == 0 then (s, NOTHING)
    else
      var (t, log) := Run(s, es[..|es| - 1]);
      var (u, out) := Step(t, es[|es| - 1]);
      (u, Join(log, out))
  }

  /** A run goes on from where the one before it ended. */
  lemma {:induction false} RunOn(s: State, pre: seq<Event>, es: seq<Event>)
    requires Ready(s)
    ensures var (t, log) := Run(s, pre);
      Run(s, pre + es) == (Run(t, es).0, Join(log, Run(t, es).1))
  {
    hide Step, Ready;
    var (t, log) := Run(s, pre);
    if |es| == 0 {
      assert pre + es == pre;
      assert log.ordered + [] == log.ordered && log.submitted + [] == log.submitted;
    } else {
      var front := es[..|es| - 1];
      assert (pre + es)[..|pre + es| - 1] == pre + front;
      RunOn(s, pre, front);
      var (u, more) := Run(t, front);
      var out := Step(u, es[|es| - 1]).1;
      Regroup(log.ordered, more.ordered, out.ordered);
      Regroup(log.submitted, more.submitted, out.submitted);
    }
  }

  /** Nothing waiting for its slot is thrown away. */
  predicate Keeps(e: Event) { !e.Configure? && !e.WatchdogReset? }

  // ---- each stage's step -----------------------------------------------------------------

  /** All that was ever handed to the decoder, and behind it what waits. */
  function Shown(s: State, log: Handed): seq<WtFrame> {
    log.submitted + P.Items(s.paced.queue)
  }

  lemma {:induction false} AdmitAllKeeps(p: P.State, fs: seq<WtFrame>, clock: nat -> real)
    requires P.Inv(p)
    ensures var (q, out) := AdmitAll(p, fs, clock);
      P.Inv(q) && out + P.Items(q.queue) == P.Items(p.queue) + fs
  {
    hide P.Inv, P.Items, P.Admitted;
    if |fs| == 0 {
      assert [] + P.Items(p.queue) == P.Items(p.queue) + [];
    } else {
      var n := |fs| - 1;
      AdmitAllKeeps(p, fs[..n], clock);
      var (q, out) := AdmitAll(p, fs[..n], clock);
      P.AdmitKeeps(q, fs[n], clock(2 * n), clock(2 * n + 1));
      var (r, more) := P.Admitted(q, fs[n], clock(2 * n), clock(2 * n + 1));
      Regroup(out, more, P.Items(r.queue));
      Regroup(out, P.Items(q.queue), [fs[n]]);
      Regroup(P.Items(p.queue), fs[..n], [fs[n]]);
      assert fs[..n] + [fs[n]] == fs;
    }
  }

  /** A step of the orderer that hands `out` over. */
  ghost predicate Orders(o: O.State, q: O.State, out: seq<WtFrame>) {
    OS.Inv(q) && OS.Steps(o, q, out)
  }

  lemma AfterGapSteps(o: O.State, q: O.State, out: seq<WtFrame>)
    requires Orders(o, q, out)
    ensures Orders(o, AfterGap(q), out)
  {
    hide OS.Consecutive;
  }

  lemma NoOutput(o: O.State, e: OS.Event)
    requires OS.Inv(o) && !e.Arrive? && e != OS.Restart(true)
    ensures Orders(o, OS.Step(o, e).0, []) && OS.Step(o, e).1 == []
  {
    OS.StepSafe(o, e);
  }

  lemma FrameOrders(o: O.State, f: WtFrame)
    requires o.pending.Valid() && OS.Inv(o)
    ensures Orders(o, AfterGap(O.Accept(o, f).0), O.Accept(o, f).1)
  {
    hide O.Accept, OS.Steps, OS.Inv;
    OS.AcceptSafe(o, f);
    AfterGapSteps(o, O.Accept(o, f).0, O.Accept(o, f).1);
  }

  /** One step of the two later stages: `ordered` goes in behind what waits, unless all that is thrown away. */
  ghost predicate Moves(s: State, t: State, out: Handed) {
    && P.Inv(t.paced)
    && out.submitted + P.Items(t.paced.queue) == P.Items(s.paced.queue) + out.ordered
    && Orders(s.order, t.order, out.ordered)
  }

  ghost predicate Clears(s: State, t: State, out: Handed, newStream: bool) {
    && P.Inv(t.paced) && t.paced.queue == [] && out == NOTHING
    && OS.Inv(t.order) && t.order == O.Reset(s.order, newStream)
  }

  lemma PacedMoves(s: State, e: P.Event)
    requires P.Inv(s.paced) && OS.Inv(s.order) && e != P.DropHeld && !e.Admit?
    ensures Moves(s, OnPaced(s, e).0, OnPaced(s, e).1)
  {
    hide P.Inv, OS.Inv, P.Step;
    P.StepKeeps(s.paced, e);
    StillOrders(s.order);
  }

  lemma StillOrders(o: O.State)
    requires OS.Inv(o)
    ensures Orders(o, o, [])
  {}

  lemma SameQueue(p: P.State)
    ensures [] + P.Items(p.queue) == P.Items(p.queue) + []
  {}

  lemma NetMoves(s: State, e: T.Event, configured: bool, clock: nat -> real)
    requires Ready(s) && P.Inv(s.paced) && OS.Inv(s.order)
    ensures Moves(s, OnNet(s, e, configured, clock).0, OnNet(s, e, configured, clock).1)
  {
    hide P.Inv, OS.Inv, T.Step, O.Accept, AdmitAll, AfterGap, P.Items, Orders;
    var got := Delivered(T.Step(s.table, e).1);
    if got.Some? && configured {
      FrameOrders(s.order, got.value);
      AdmitAllKeeps(s.paced, O.Accept(s.order, got.value).1, clock);
    } else {
      StillOrders(s.order);
      SameQueue(s.paced);
    }
  }

  lemma RebuiltClears(s: State, newStream: bool)
    requires P.Inv(s.paced) && OS.Inv(s.order)
    ensures Clears(s, Rebuilt(s, newStream), NOTHING, newStream)
  {
    OS.StepSafe(s.order, OS.Restart(newStream));
  }

  lemma StepMoves(s: State, e: Event)
    requires Ready(s) && P.Inv(s.paced) && OS.Inv(s.order)
    ensures Keeps(e) ==> Moves(s, Step(s, e).0, Step(s, e).1)
    ensures !Keeps(e) ==> Clears(s, Step(s, e).0, Step(s, e).1, e.Configure? && e.newStream)
  {
    hide OS.Inv, OnNet, OnPaced, P.Items, Orders;
    SameQueue(s.paced);
    match e
    case Net(n, configured, clock) => NetMoves(s, n, configured, clock);
    case RttMeasured(ms) => NoOutput(s.order, OS.RttMeasured(ms));
    case KeyAsked => NoOutput(s.order, OS.KeyAsked);
    case ReferenceGap => NoOutput(s.order, OS.Restart(false));
    case Configure(newStream) => RebuiltClears(s, newStream);
    case WatchdogReset => RebuiltClears(s, false);
    case TimerFires(nowMs) => PacedMoves(s, P.TimerFires(nowMs));
    case SetPacing(on) => PacedMoves(s, P.SetPacing(on));
    case FirstPicture => PacedMoves(s, P.FirstPicture);
  }

  lemma ShownGrows(s: State, t: State, log: Handed, out: Handed)
    requires Moves(s, t, out)
    ensures Shown(t, Join(log, out)) == Shown(s, log) + out.ordered
  {
    hide P.Items, P.Inv, Orders;
    Regroup(log.submitted, out.submitted, P.Items(t.paced.queue));
    Regroup(log.submitted, P.Items(s.paced.queue), out.ordered);
  }

  lemma ShownCut(s: State, t: State, log: Handed)
    requires t.paced.queue == []
    ensures Shown(t, Join(log, NOTHING)) == log.submitted
    ensures log.submitted <= Shown(s, log)
  {
    assert log.submitted + [] == log.submitted;
  }

  // ---- between drops nothing is lost ---------------------------------------------------------

  ghost predicate Sound(s: State) {
    Ready(s) && P.Inv(s.paced) && OS.Inv(s.order)
  }

  /** Each stage keeps its own invariant, whatever the others do. */
  lemma {:induction false} StagesHold(s: State, es: seq<Event>)
    requires Sound(s)
    ensures Sound(Run(s, es).0)
  {
    hide Step, OS.Inv, P.Inv, P.Items, OS.Steps;
    if |es| > 0 {
      StagesHold(s, es[..|es| - 1]);
      StepMoves(Run(s, es[..|es| - 1]).0, es[|es| - 1]);
    }
  }

  lemma FreshSound()
    ensures Sound(FRESH)
  {
    OS.FreshSafe(O.MAX_REORDER);
  }

  lemma {:induction false} KeepingRun(s: State, es: seq<Event>)
    requires Sound(s) && forall e | e in es :: Keeps(e)
    ensures var (t, log) := Run(s, es); Shown(t, log) == P.Items(s.paced.queue) + log.ordered
  {
    hide Step, OS.Inv, P.Inv, P.Items, Moves, Shown, Keeps;
    if |es| == 0 {
      NothingShown(s);
    } else {
      var front, e := es[..|es| - 1], es[|es| - 1];
      assert e in es && forall x | x in front :: x in es;
      KeepingRun(s, front);
      StagesHold(s, front);
      var (t, log) := Run(s, front);
      StepMoves(t, e);
      ShownGrows(t, Step(t, e).0, log, Step(t, e).1);
      Regroup(P.Items(s.paced.queue), log.ordered, Step(t, e).1.ordered);
    }
  }

  lemma NothingShown(s: State)
    ensures Shown(s, NOTHING) == P.Items(s.paced.queue) + []
  {}

  /**
   After any run, over any stretch without a rebuild: what is submitted, followed by what is then still waiting, is what
   was waiting before it followed by everything the orderer handed over in it. Nothing is lost, repeated or overtaken.
   */
  lemma NothingLost(pre: seq<Event>, es: seq<Event>)
    requires forall e | e in es :: Keeps(e)
    ensures var s := Run(FRESH, pre).0;
      var (t, log) := Run(s, es);
      && log.submitted + P.Items(t.paced.queue) == P.Items(s.paced.queue) + log.ordered
      && |t.paced.queue| <= Pacing.MAX_PACED
      && Run(FRESH, pre + es) == (t, Join(Run(FRESH, pre).1, log))
  {
    hide Run, P.Items, Ready, OS.Inv, Keeps;
    FreshSound();
    StagesHold(FRESH, pre);
    RunOn(FRESH, pre, es);
    KeepingRun(Run(FRESH, pre).0, es);
    StagesHold(Run(FRESH, pre).0, es);
  }

  // ---- every delta behind its reference --------------------------------------------------------

  lemma ChainCut(s: State, t: State, log: seq<WtFrame>, shown: seq<WtFrame>)
    requires OS.Chained(shown) && log <= shown && t.order.next.None?
    ensures OS.Chained(log) && OS.Follows(t.order, log)
  {
    forall i | 0 <= i < |log|
      ensures log[i].key || (i > 0 && log[i].frameNo == Next(log[i - 1].frameNo))
    {
      assert log[i] == shown[i] && (i > 0 ==> log[i - 1] == shown[i - 1]);
    }
  }

  /**
   Whatever the network does, whatever is dropped, rebuilt or switched, and across new streams too: the decoder never
   sees a delta but right behind the frame numbered one less, which is the one it was coded against.
   */
  lemma {:induction false} DecoderChained(es: seq<Event>)
    ensures var (s, log) := Run(FRESH, es); OS.Chained(Shown(s, log)) && OS.Follows(s.order, Shown(s, log))
    ensures OS.Chained(Run(FRESH, es).1.submitted)
  {
    hide Step, OS.Inv, P.Inv, P.Items, Shown, OS.Chained, OS.Follows, OS.Steps;
    FreshSound();
    if |es| == 0 {
      OS.FreshSafe(O.MAX_REORDER);
      FreshShown();
    } else {
      var front, e := es[..|es| - 1], es[|es| - 1];
      DecoderChained(front);
      StagesHold(FRESH, front);
      var (s, log) := Run(FRESH, front);
      var (t, out) := Step(s, e);
      StepMoves(s, e);
      if Keeps(e) {
        ShownGrows(s, t, log, out);
        OS.ChainExtends(s.order, t.order, Shown(s, log), out.ordered);
      } else {
        ShownCut(s, t, log);
        ChainCut(s, t, log.submitted, Shown(s, log));
      }
    }
    SubmittedChained(Run(FRESH, es).0, Run(FRESH, es).1);
  }

  lemma FreshShown()
    ensures Shown(FRESH, NOTHING) == []
  {}

  lemma SubmittedChained(s: State, log: Handed)
    requires OS.Chained(Shown(s, log))
    ensures OS.Chained(log.submitted)
  {
    hide P.Items;
    ChainCut(s, s.(order := s.order.(next := None)), log.submitted, Shown(s, log));
  }

  // ---- the host's own frames, and never backwards -------------------------------------------------

  function NumberOf(e: T.Event): u32 {
    match e
    case Datagram(f, _, _) => f.frameNo
    case StreamFrame(frame) => frame.frameNo
  }

  /** Requests only, nothing delivered. */
  ghost predicate Silent(out: seq<T.Output>) {
    forall o | o in out :: !o.Deliver?
  }

  /** A frame is handed over only as the very last thing, and only the one numbered `no`. */
  ghost predicate LastOnly(out: seq<T.Output>, no: u32) {
    forall i | 0 <= i < |out| && out[i].Deliver? :: i == |out| - 1 && out[i].frame.frameNo == no
  }

  lemma SilentThenLast(a: seq<T.Output>, b: seq<T.Output>, no: u32)
    requires Silent(a) && LastOnly(b, no)
    ensures LastOnly(a + b, no)
  {
    forall i | 0 <= i < |a + b|
      ensures (a + b)[i].Deliver? ==> i == |a + b| - 1 && (a + b)[i].frame.frameNo == no
    {
      if i < |a| {
        assert a[i] in a;
      } else {
        assert (a + b)[i] == b[i - |a|];
      }
    }
  }

  lemma {:induction false} ScanSilent(s: T.State, keys: seq<u32>, nowMs: real, t: T.Timing)
    requires T.Shaped(s.v4)
    ensures Silent(T.Scan(s, keys, nowMs, t).1)
  {
    hide T.Round, T.Close;
    if |keys| > 0 {
      ScanSilent(s, keys[..|keys| - 1], nowMs, t);
    }
  }

  lemma {:induction false} AskSkippedSilent(s: T.State, last: u32, k: nat)
    ensures Silent(T.AskSkipped(s, last, k).1)
  {
    hide T.Traced;
    if k > 0 {
      AskSkippedSilent(s, last, k - 1);
    }
  }

  lemma NackSkippedSilent(s: T.State, no: u32)
    ensures Silent(T.NackSkipped(s, no).1)
  {
    hide T.AskSkipped;
    if s.highest.Some? && 1 < Ahead(no, s.highest.value) <= T.WHOLE_FRAME_SPAN {
      AskSkippedSilent(s.(highest := Some(no)), s.highest.value, Ahead(no, s.highest.value) - 1);
    }
  }

  lemma OpenSilent(s: T.State, f: WtFragment, nowMs: real)
    requires T.Shaped(s.v4)
    ensures Silent(T.Open(s, f, nowMs).1)
  {
    hide T.Victim, T.Lowest;
  }

  lemma StoreLast(s: T.State, f: WtFragment)
    requires T.Shaped(s.v4)
    ensures LastOnly(T.Store(s, f).1, f.frameNo)
  {
    hide Absorb, Payload, Complete, T.Remember, T.Abandon;
  }

  lemma OfferLast(s: T.State, f: WtFragment, nowMs: real)
    requires T.Shaped(s.v4)
    ensures LastOnly(T.Offer(s, f, nowMs).1, f.frameNo)
  {
    hide T.Open, T.Store;
    if f.frameNo !in s.done {
      var t := T.Open(s, f, nowMs).0;
      OpenSilent(s, f, nowMs);
      StoreLast(t, f);
      SilentThenLast(T.Open(s, f, nowMs).1, T.Store(t, f).1, f.frameNo);
    }
  }

  lemma StepLast(s: T.State, e: T.Event)
    requires T.Shaped(s.v4)
    ensures LastOnly(T.Step(s, e).1, NumberOf(e))
  {
    hide T.Scan, T.Offer, T.NackSkipped, T.Remember, T.Abandon;
    match e
    case StreamFrame(frame) =>
    case Datagram(f, nowMs, rttMs) =>
      var (t, whole) := T.NackSkipped(s, f.frameNo);
      NackSkippedSilent(s, f.frameNo);
      if f.frameNo !in t.done {
        var (u, asked) := T.Scan(t, t.v4.order, nowMs, T.NackTiming(rttMs));
        ScanSilent(t, t.v4.order, nowMs, T.NackTiming(rttMs));
        OfferLast(u, f, nowMs);
        SilentThenLast(asked, T.Offer(u, f, nowMs).1, f.frameNo);
        SilentThenLast(whole, asked + T.Offer(u, f, nowMs).1, f.frameNo);
        Regroup(whole, asked, T.Offer(u, f, nowMs).1);
      }
  }

  /** What came in was sent by the host, and `fs` has all the frames it was about. */
  ghost predicate Sent(es: seq<Event>, hosts: u32 -> HostFrame, fs: set<WtFrame>) {
    forall e | e in es && e.Net? :: FromHosts(e.e, hosts) && FrameOf(NumberOf(e.e), hosts(NumberOf(e.e))) in fs
  }

  predicate SameStream(e: Event) { e != Configure(true) }

  lemma DeliveredIsSent(s: T.State, e: T.Event, hosts: u32 -> HostFrame)
    requires T.Shaped(s.v4) && HonestTable(s.v4, hosts) && FromHosts(e, hosts)
    ensures var got := Delivered(T.Step(s, e).1);
      got.Some? ==> got.value == FrameOf(NumberOf(e), hosts(NumberOf(e)))
    ensures HonestTable(T.Step(s, e).0.v4, hosts)
  {
    hide T.Step, HonestTable, FromHosts;
    StepHonest(s, e, hosts);
    StepLast(s, e);
    var out := T.Step(s, e).1;
    if |out| > 0 {
      assert out[|out| - 1] in out;
    }
  }

  /** The orderer has only host frames and remembers the last it handed over; the decoder is at most as far. */
  ghost predicate Faithful(s: State, log: Handed, place: WtFrame -> int, hosts: u32 -> HostFrame, fs: set<WtFrame>) {
    && HonestTable(s.table.v4, hosts)
    && OM.Known(s.order, log.ordered, fs) && OM.Rising(place, log.ordered)
    && OM.Rising(place, Shown(s, log)) && (forall f | f in Shown(s, log) :: f in log.ordered)
    && Behind(place, Shown(s, log), log.ordered)
  }

  ghost predicate Behind(place: WtFrame -> int, shown: seq<WtFrame>, ordered: seq<WtFrame>) {
    |shown| > 0 ==> |ordered| > 0 && place(shown[|shown| - 1]) <= place(ordered[|ordered| - 1])
  }

  /** What the orderer holds and hands over stays among the host's frames. */
  lemma FrameKnown(o: O.State, f: WtFrame, log: seq<WtFrame>, fs: set<WtFrame>)
    requires o.pending.Valid() && OS.Inv(o) && OM.Known(o, log, fs) && f in fs
    ensures OM.Known(AfterGap(O.Accept(o, f).0), log + O.Accept(o, f).1, fs)
    ensures forall x | x in O.Accept(o, f).1 :: x in fs
  {
    hide O.Accept, OS.Inv;
    OM.StepKnown(o, OS.Arrive(f), O.Accept(o, f).0, O.Accept(o, f).1, log, fs);
  }

  lemma QuietKnown(o: O.State, e: OS.Event, log: seq<WtFrame>, fs: set<WtFrame>)
    requires o.pending.Valid() && OS.Inv(o) && OM.Known(o, log, fs) && !e.Arrive? && e != OS.Restart(true)
    ensures OM.Known(OS.Step(o, e).0, log + [], fs)
  {
    OM.StepKnown(o, e, OS.Step(o, e).0, [], log, fs);
  }

  lemma NetKnown(s: State, e: T.Event, configured: bool, clock: nat -> real, log: seq<WtFrame>, hosts: u32 -> HostFrame,
                 fs: set<WtFrame>)
    requires Ready(s) && OS.Inv(s.order) && OM.Known(s.order, log, fs)
    requires HonestTable(s.table.v4, hosts) && FromHosts(e, hosts) && FrameOf(NumberOf(e), hosts(NumberOf(e))) in fs
    ensures var (t, out) := OnNet(s, e, configured, clock);
      && HonestTable(t.table.v4, hosts) && OM.Known(t.order, log + out.ordered, fs)
      && forall f | f in out.ordered :: f in fs
  {
    hide OS.Inv, T.Step, O.Accept, AdmitAll, AfterGap, OM.Known, HonestTable, FromHosts;
    DeliveredIsSent(s.table, e, hosts);
    var got := Delivered(T.Step(s.table, e).1);
    if got.Some? && configured {
      FrameKnown(s.order, got.value, log, fs);
    } else {
      assert log + [] == log;
    }
  }

  lemma StepKnown(s: State, e: Event, log: seq<WtFrame>, hosts: u32 -> HostFrame, fs: set<WtFrame>)
    requires Ready(s) && OS.Inv(s.order) && OM.Known(s.order, log, fs) && SameStream(e)
    requires HonestTable(s.table.v4, hosts)
    requires e.Net? ==> FromHosts(e.e, hosts) && FrameOf(NumberOf(e.e), hosts(NumberOf(e.e))) in fs
    ensures var (t, out) := Step(s, e);
      && HonestTable(t.table.v4, hosts) && OM.Known(t.order, log + out.ordered, fs)
      && forall f | f in out.ordered :: f in fs
  {
    hide OS.Inv, OM.Known, HonestTable, FromHosts, OnNet, P.Step;
    assert log + [] == log;
    match e
    case Net(n, configured, clock) => NetKnown(s, n, configured, clock, log, hosts, fs);
    case RttMeasured(ms) => QuietKnown(s.order, OS.RttMeasured(ms), log, fs);
    case KeyAsked => QuietKnown(s.order, OS.KeyAsked, log, fs);
    case ReferenceGap => QuietKnown(s.order, OS.Restart(false), log, fs);
    case Configure(newStream) => QuietKnown(s.order, OS.Restart(false), log, fs);
    case WatchdogReset => QuietKnown(s.order, OS.Restart(false), log, fs);
    case TimerFires(nowMs) =>
    case SetPacing(on) =>
    case FirstPicture =>
  }

  /** What goes in behind lies later than all that is shown. */
  lemma ShownRises(place: WtFrame -> int, shown: seq<WtFrame>, ordered: seq<WtFrame>, out: seq<WtFrame>)
    requires OM.Rising(place, shown) && Behind(place, shown, ordered)
    requires OM.Rising(place, ordered + out) && OM.Rising(place, out)
    ensures OM.Rising(place, shown + out) && Behind(place, shown + out, ordered + out)
  {
    var all := ordered + out;
    if |out| > 0 {
      assert all[|all| - 1] == out[|out| - 1];
      if |shown| > 0 {
        assert all[|ordered|] == out[0] && all[|ordered| - 1] == ordered[|ordered| - 1];
      }
    } else {
      assert all == ordered && shown + out == shown;
    }
    OM.RisingJoin(place, shown, out);
  }

  lemma RisingCut(place: WtFrame -> int, log: seq<WtFrame>, shown: seq<WtFrame>, ordered: seq<WtFrame>)
    requires OM.Rising(place, shown) && Behind(place, shown, ordered) && log <= shown
    ensures OM.Rising(place, log) && Behind(place, log, ordered)
  {
    forall i | 0 < i < |log| ensures place(log[i - 1]) < place(log[i]) {
      assert log[i] == shown[i] && log[i - 1] == shown[i - 1];
    }
    if 0 < |log| < |shown| {
      OM.RisingApart(place, shown, |log| - 1, |shown| - 1);
    }
  }

  lemma FaithfulMoves(s: State, t: State, log: Handed, out: Handed, place: WtFrame -> int, base: int,
                      hosts: u32 -> HostFrame, fs: set<WtFrame>)
    requires Faithful(s, log, place, hosts, fs) && OM.HostOrder(place, base, fs)
    requires OS.Inv(s.order) && Moves(s, t, out)
    requires HonestTable(t.table.v4, hosts) && OM.Known(t.order, log.ordered + out.ordered, fs)
    requires forall f | f in out.ordered :: f in fs
    ensures Faithful(t, Join(log, out), place, hosts, fs)
  {
    hide HonestTable, OM.Known, OM.Rising, OM.HostOrder, OS.Inv, P.Inv, P.Items, Shown, Behind, OS.Consecutive;
    ShownGrows(s, t, log, out);
    OM.StepRises(place, base, fs, s.order, t.order, log.ordered, out.ordered);
    OM.RunRises(place, base, fs, out.ordered);
    ShownRises(place, Shown(s, log), log.ordered, out.ordered);
  }

  lemma FaithfulClears(s: State, t: State, log: Handed, place: WtFrame -> int, hosts: u32 -> HostFrame,
                       fs: set<WtFrame>)
    requires Faithful(s, log, place, hosts, fs) && t.paced.queue == []
    requires HonestTable(t.table.v4, hosts) && OM.Known(t.order, log.ordered + [], fs)
    ensures Faithful(t, Join(log, NOTHING), place, hosts, fs)
  {
    hide HonestTable, OM.Known, OM.Rising, P.Items, Behind;
    assert log.ordered + [] == log.ordered;
    ShownCut(s, t, log);
    RisingCut(place, log.submitted, Shown(s, log), log.ordered);
  }

  /** Just configured for a new stream, or never yet: nothing held, nothing remembered, nothing waiting. */
  predicate Starts(s: State) {
    s.order.pending == Empty() && s.order.lastReleased.None? && s.paced.queue == []
  }

  lemma StartsAfter(pre: seq<Event>)
    requires pre == [] || pre[|pre| - 1] == Configure(true)
    ensures Starts(Run(FRESH, pre).0)
  {
    hide Starts, Step;
    if pre == [] {
      FreshStarts();
    } else {
      ConfiguredStarts(Run(FRESH, pre[..|pre| - 1]).0);
    }
  }

  lemma FreshStarts()
    ensures Starts(FRESH)
  {}

  lemma ConfiguredStarts(s: State)
    requires Ready(s)
    ensures Starts(Step(s, Configure(true)).0)
  {}

  lemma StartFaithful(s: State, place: WtFrame -> int, hosts: u32 -> HostFrame, fs: set<WtFrame>)
    requires Starts(s) && HonestTable(s.table.v4, hosts)
    ensures Faithful(s, NOTHING, place, hosts, fs)
  {
    hide HonestTable;
  }

  lemma {:induction false} RunFaithful(s: State, es: seq<Event>, place: WtFrame -> int, base: int,
                                       hosts: u32 -> HostFrame, fs: set<WtFrame>)
    requires Sound(s) && Starts(s) && HonestTable(s.table.v4, hosts)
    requires OM.HostOrder(place, base, fs) && Sent(es, hosts, fs)
    requires forall e | e in es :: SameStream(e)
    ensures Faithful(Run(s, es).0, Run(s, es).1, place, hosts, fs)
  {
    hide Step, OS.Inv, P.Inv, Faithful, OM.HostOrder, FromHosts, Moves, SameStream, Keeps, HonestTable, Starts;
    if |es| == 0 {
      StartFaithful(s, place, hosts, fs);
    } else {
      var front, e := es[..|es| - 1], es[|es| - 1];
      assert e in es && forall x | x in front :: x in es;
      RunFaithful(s, front, place, base, hosts, fs);
      StagesHold(s, front);
      var (t, log) := Run(s, front);
      FaithfulStep(t, e, log, place, base, hosts, fs);
    }
  }

  lemma FaithfulStep(s: State, e: Event, log: Handed, place: WtFrame -> int, base: int, hosts: u32 -> HostFrame,
                     fs: set<WtFrame>)
    requires Ready(s) && P.Inv(s.paced) && OS.Inv(s.order) && SameStream(e)
    requires OM.HostOrder(place, base, fs) && Faithful(s, log, place, hosts, fs)
    requires e.Net? ==> FromHosts(e.e, hosts) && FrameOf(NumberOf(e.e), hosts(NumberOf(e.e))) in fs
    ensures var (t, out) := Step(s, e);
      Faithful(t, Join(log, out), place, hosts, fs)
  {
    hide Step, OS.Inv, P.Inv, OM.HostOrder, FromHosts, HonestTable, OM.Known, OM.Rising, Behind, Moves, Keeps, Shown;
    StepMoves(s, e);
    StepKnown(s, e, log.ordered, hosts, fs);
    var (t, out) := Step(s, e);
    if Keeps(e) {
      FaithfulMoves(s, t, log, out, place, base, hosts, fs);
    } else {
      FaithfulClears(s, t, log, place, hosts, fs);
    }
  }

  /** All that came in was sent by the host. */
  ghost predicate HostOnly(es: seq<Event>, hosts: u32 -> HostFrame) {
    forall e | e in es && e.Net? :: FromHosts(e.e, hosts)
  }

  lemma StepHolds(s: State, e: Event, hosts: u32 -> HostFrame)
    requires Ready(s) && HonestTable(s.table.v4, hosts) && (e.Net? ==> FromHosts(e.e, hosts))
    ensures HonestTable(Step(s, e).0.table.v4, hosts)
  {
    hide HonestTable, FromHosts, T.Step, O.Accept, AdmitAll, P.Step;
    if e.Net? {
      DeliveredIsSent(s.table, e.e, hosts);
    }
  }

  lemma {:induction false} RunHolds(es: seq<Event>, hosts: u32 -> HostFrame)
    requires HostOnly(es, hosts)
    ensures HonestTable(Run(FRESH, es).0.table.v4, hosts)
  {
    hide HonestTable, FromHosts, Step;
    if |es| == 0 {
      FreshHonest(hosts);
    } else {
      assert es[|es| - 1] in es;
      RunHolds(es[..|es| - 1], hosts);
      StepHolds(Run(FRESH, es[..|es| - 1]).0, es[|es| - 1], hosts);
    }
  }

  /**
   End to end, every stream of a session, whatever came before the configuration that begins it: of everything the host
   sent on either carrier, in any order, with any loss and repetition, and whatever is reset, rebuilt, dropped or
   switched on the way, what reaches the decoder are frames of the host's, byte for byte, and each strictly later on
   the stream's timeline than the one before.
   */
  lemma DecoderSeesTheHost(pre: seq<Event>, es: seq<Event>, place: WtFrame -> int, base: int,
                           hosts: u32 -> HostFrame, fs: set<WtFrame>)
    requires (pre == [] || pre[|pre| - 1] == Configure(true)) && HostOnly(pre, hosts)
    requires OM.HostOrder(place, base, fs) && Sent(es, hosts, fs)
    requires forall f | f in fs :: f == FrameOf(f.frameNo, hosts(f.frameNo))
    requires forall e | e in es :: SameStream(e)
    ensures var (s, before) := Run(FRESH, pre);
      var shown := Run(s, es).1.submitted;
      && OM.Rising(place, shown)
      && (forall f | f in shown :: f == FrameOf(f.frameNo, hosts(f.frameNo)))
      && Run(FRESH, pre + es).1.submitted == before.submitted + shown
  {
    hide Run, OM.HostOrder, P.Items, HonestTable, FromHosts, OS.Inv, Starts;
    FreshSound();
    StagesHold(FRESH, pre);
    StartsAfter(pre);
    RunHolds(pre, hosts);
    RunOn(FRESH, pre, es);
    var s := Run(FRESH, pre).0;
    RunFaithful(s, es, place, base, hosts, fs);
    var (t, log) := Run(s, es);
    RisingCut(place, log.submitted, Shown(t, log), log.ordered);
    forall f | f in log.submitted ensures f == FrameOf(f.frameNo, hosts(f.frameNo)) {
      assert f in Shown(t, log);
      assert f in log.ordered;
    }
  }
}
