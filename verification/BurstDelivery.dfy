/**
 The pipeline does deliver: a burst of frames next in decode order, each on the stream or
 missing no more of its datagrams than the parity makes good, goes through table, orderer
 and paced queue whole and in order, however all that comes is shuffled and repeated.
 */
module BurstDelivery {
  import opened Bytes
  import opened InsertionOrder
  import opened Parity
  import opened Wire
  import opened TableSound
  import opened Pipeline
  import opened Deliveries
  import FrameRun
  import Reordering
  import TF = TableFrames
  import TQ = TableQuiet
  import T = FrameTable
  import O = Orderer
  import OS = OrderSafety
  import P = PacedPath
  import Pacing

  // ---- the run, stage by stage ----------------------------------------------------------

  function TableEvents(es: seq<Event>): seq<T.Event> {
    if |es| == 0 then []
    else
      var e := es[|es| - 1];
      TableEvents(es[..|es| - 1]) + (if e.Net? then [e.e] else [])
  }

  /** What a step of the page is to the orderer. */
  function OfferOf(s: State, e: Event): seq<OS.Event>
    requires Ready(s)
  {
    match e
    case Net(n, configured, _) =>
      var got := Delivered(T.Step(s.table, n).1);
      if got.Some? && configured then [OS.Arrive(got.value)] else []
    case RttMeasured(ms) => [OS.RttMeasured(ms)]
    case KeyAsked => [OS.KeyAsked]
    case ReferenceGap => []
    case Configure(_) => []
    case WatchdogReset => []
    case TimerFires(_) => []
    case SetPacing(_) => []
    case FirstPicture => []
  }

  function Offers(s: State, es: seq<Event>): seq<OS.Event>
    requires Ready(s)
  {
    if |es| == 0 then []
    else Offers(s, es[..|es| - 1]) + OfferOf(Run(s, es[..|es| - 1]).0, es[|es| - 1])
  }

  lemma StepTable(s: State, e: Event)
    requires Ready(s)
    ensures Step(s, e).0.table == if e.Net? then T.Step(s.table, e.e).0 else s.table
  {
    hide T.Step, O.Accept, AdmitAll, P.Step;
  }

  /** The table sees the network's events and nothing else. */
  lemma {:induction false} TableRuns(es: seq<Event>)
    ensures Run(FRESH, es).0.table == T.Run(TableEvents(es)).0
  {
    hide Step, T.Step;
    if |es| > 0 {
      var front, e := es[..|es| - 1], es[|es| - 1];
      TableRuns(front);
      StepTable(Run(FRESH, front).0, e);
      if e.Net? {
        T.RunSnoc(TableEvents(front), e.e);
      } else {
        assert TableEvents(front) + [] == TableEvents(front);
      }
    }
  }

  lemma {:induction false} TableEventsJoin(pre: seq<Event>, es: seq<Event>)
    ensures TableEvents(pre + es) == TableEvents(pre) + TableEvents(es)
  {
    if |es| == 0 {
      assert pre + es == pre;
    } else {
      assert (pre + es)[..|pre + es| - 1] == pre + es[..|es| - 1];
      TableEventsJoin(pre, es[..|es| - 1]);
    }
  }

  // ---- what is delivered is offered ----------------------------------------------------------

  lemma {:induction false} DeliveredNumbers(ts: seq<T.Event>, o: T.Output)
    requires o in T.Run(ts).1 && o.Deliver?
    ensures o.frame.frameNo in TQ.NumbersOf(ts)
  {
    hide T.Step;
    if |ts| > 0 {
      var front, e := ts[..|ts| - 1], ts[|ts| - 1];
      assert e in ts && forall x | x in front :: x in ts;
      assert TQ.About(e) in TQ.NumbersOf(ts);
      var out := T.Step(T.Run(front).0, e).1;
      if o in out {
        StepLast(T.Run(front).0, e);
        var i :| 0 <= i < |out| && out[i] == o;
      } else {
        DeliveredNumbers(front, o);
      }
    }
  }

  lemma LastIsDelivered(out: seq<T.Output>, o: T.Output, no: u32)
    requires LastOnly(out, no) && o in out && o.Deliver?
    ensures Delivered(out) == Some(o.frame)
  {
    var i :| 0 <= i < |out| && out[i] == o;
  }

  ghost predicate Configured(e: Event) { e.Net? ==> e.configured }

  /** With a configured decoder, everything the table hands over in a stretch is offered to the orderer. */
  lemma {:induction false} DeliveredIsOffered(pre: seq<Event>, es: seq<Event>, o: T.Output)
    requires forall e | e in es :: Configured(e)
    requires o in T.Run(TableEvents(pre + es)).1 && o.Deliver?
    ensures o in T.Run(TableEvents(pre)).1 || OS.Arrive(o.frame) in Offers(Run(FRESH, pre).0, es)
  {
    hide T.Step, Run, Delivered;
    if |es| == 0 {
      assert pre + es == pre;
    } else {
      var front, e := es[..|es| - 1], es[|es| - 1];
      var s := Run(FRESH, pre).0;
      assert e in es && forall x | x in front :: x in es;
      assert (pre + es)[..|pre + es| - 1] == pre + front;
      var ts := TableEvents(pre + front);
      RunOn(FRESH, pre, front);
      TableRuns(pre + front);
      if o in T.Run(ts).1 {
        DeliveredIsOffered(pre, front, o);
      } else {
        OnlyFromNet(pre + front, e, o);
        StepLast(T.Run(ts).0, e.e);
        LastIsDelivered(T.Step(T.Run(ts).0, e.e).1, o, NumberOf(e.e));
      }
    }
  }

  lemma OnlyFromNet(before: seq<Event>, e: Event, o: T.Output)
    requires o in T.Run(TableEvents(before + [e])).1 && o !in T.Run(TableEvents(before)).1
    ensures e.Net? && o in T.Step(T.Run(TableEvents(before)).0, e.e).1
  {
    hide T.Step, T.Run;
    assert (before + [e])[..|before|] == before;
    assert TableEvents(before) + [] == TableEvents(before);
    if e.Net? {
      T.RunSnoc(TableEvents(before), e.e);
    }
  }

  // ---- the orderer sees a burst ------------------------------------------------------------------

  /** The burst's frames as the host sends them, on either carrier, late ones from before it, and what the page does
      without dropping anything; `o` is the orderer before the burst. */
  ghost predicate Burst(o: O.State, e: Event, hosts: u32 -> HostFrame, fs: seq<WtFrame>) {
    match e
    case Net(n, configured, _) =>
      && configured && FromHosts(n, hosts)
      && var f := FrameOf(NumberOf(n), hosts(NumberOf(n)));
         f in fs || Reordering.Stale(o, fs, f)
    case RttMeasured(_) => true
    case KeyAsked => true
    case ReferenceGap => false
    case Configure(_) => false
    case WatchdogReset => false
    case TimerFires(_) => true
    case SetPacing(_) => true
    case FirstPicture => true
  }

  /** Giving up takes an anchor, or a keyframe that gives one. */
  lemma GivesUpAnchored(o: O.State, f: WtFrame)
    requires o.pending.Valid() && !o.resync && o.next.None? && !f.key
    ensures !O.Accept(o, f).0.resync
  {
    hide O.Oldest, O.IsReplay;
  }

  /** Neither a burst nor what comes late is ever given up. */
  lemma BurstHasNoGap(s0: O.State, fs: seq<WtFrame>, es: seq<OS.Event>, f: WtFrame)
    requires Reordering.Awaits(s0, fs) && s0.pending.Valid() && (f in fs || Reordering.Stale(s0, fs, f))
    requires forall e | e in es :: Reordering.BurstEvent(s0, e, fs)
    requires Reordering.AllHoldable(s0, fs, es + [OS.Arrive(f)])
    requires OS.Inv(OS.Run(s0, es).0) && !OS.Run(s0, es).0.resync
    ensures var t := O.Accept(OS.Run(s0, es).0, f).0; !t.resync && AfterGap(t) == t
  {
    hide O.Accept, O.Clock, OS.Inv, OS.Run, Reordering.Stands, Reordering.Awaits, Reordering.Stale,
      Reordering.AllHoldable;
    var o := OS.Run(s0, es).0;
    HoldableFront(s0, fs, es, [OS.Arrive(f)]);
    Reordering.BurstStands(s0, fs, es);
    if f in fs {
      FrameHasNoGap(s0, fs, es, f);
    } else {
      Reordering.StaleIsDropped(s0, o, OS.Run(s0, es).1, fs, Reordering.ArrivedOffsets(es, fs), f);
      ClockKeepsGap(o, f);
    }
  }

  lemma HoldableFront(s0: O.State, fs: seq<WtFrame>, es: seq<OS.Event>, more: seq<OS.Event>)
    requires s0.pending.Valid() && Reordering.AllHoldable(s0, fs, es + more)
    ensures Reordering.AllHoldable(s0, fs, es)
  {
    hide Reordering.AllHoldable;
    Reordering.HoldableBefore(s0, fs, es + more, |es|);
    assert (es + more)[..|es|] == es;
  }

  lemma ClockKeepsGap(o: O.State, f: WtFrame)
    ensures O.Clock(o, f).resync == o.resync
  {}

  lemma FrameHasNoGap(s0: O.State, fs: seq<WtFrame>, es: seq<OS.Event>, f: WtFrame)
    requires Reordering.Awaits(s0, fs) && s0.pending.Valid() && f in fs
    requires forall e | e in es :: Reordering.BurstEvent(s0, e, fs)
    requires Reordering.AllHoldable(s0, fs, es + [OS.Arrive(f)])
    requires OS.Inv(OS.Run(s0, es).0) && !OS.Run(s0, es).0.resync
    ensures !O.Accept(OS.Run(s0, es).0, f).0.resync
  {
    hide O.Accept, OS.Inv, Reordering.Holding, OS.Filed, Reordering.Awaits, Reordering.FirstGap, Reordering.Stale,
      Reordering.AllHoldable;
    HoldableFront(s0, fs, es, [OS.Arrive(f)]);
    var o := OS.Run(s0, es).0;
    var more := es + [OS.Arrive(f)];
    assert more[..|es|] == es;
    OS.AcceptSafe(o, f);
    var t := O.Accept(o, f).0;
    assert OS.Run(s0, more).0 == t;
    assert forall e | e in more :: Reordering.BurstEvent(s0, e, fs);
    Reordering.BurstStands(s0, fs, es);
    Reordering.BurstStands(s0, fs, more);
    if t.next.Some? {
      AnchoredIsCalm(t);
    } else {
      var j :| 0 <= j < |fs| && fs[j] == f;
      assert OS.Arrive(fs[j]) in more by { assert more[|es|] == OS.Arrive(f); }
      assert j in Reordering.ArrivedOffsets(more, fs);
      assert 0 !in Reordering.ArrivedOffsets(more, fs);
      assert 0 !in Reordering.ArrivedOffsets(es, fs);
      OnlyFirstIsKey(s0, fs, j);
      GivesUpAnchored(o, f);
    }
  }

  lemma AnchoredIsCalm(o: O.State)
    requires OS.Inv(o) && o.next.Some?
    ensures !o.resync
  {}

  lemma OnlyFirstIsKey(s0: O.State, fs: seq<WtFrame>, j: nat)
    requires Reordering.Awaits(s0, fs) && 0 < j < |fs|
    ensures !fs[j].key
  {}

  /** The orderer's part of the run is a run of its own over what it is offered, which is the burst's frames. */
  ghost predicate Ordering(s: State, t: State, log: Handed, offers: seq<OS.Event>, hosts: u32 -> HostFrame,
                           fs: seq<WtFrame>)
    requires s.order.pending.Valid()
  {
    && (t.order, log.ordered) == OS.Run(s.order, offers)
    && !t.order.resync && HonestTable(t.table.v4, hosts)
    && forall x | x in offers :: Reordering.BurstEvent(s.order, x, fs)
  }

  lemma {:induction false} OrderRuns(s: State, es: seq<Event>, hosts: u32 -> HostFrame, fs: seq<WtFrame>)
    requires Sound(s) && HonestTable(s.table.v4, hosts) && !s.order.resync && Reordering.Awaits(s.order, fs)
    requires forall e | e in es :: Burst(s.order, e, hosts, fs)
    requires Reordering.AllHoldable(s.order, fs, Offers(s, es))
    ensures Ordering(s, Run(s, es).0, Run(s, es).1, Offers(s, es), hosts, fs)
  {
    hide Step, OfferOf, HonestTable, Reordering.Awaits, Burst, OS.Inv, P.Inv, Ordering, Reordering.AllHoldable;
    if |es| == 0 {
      NothingOffered(s, hosts, fs);
    } else {
      var front, e := es[..|es| - 1], es[|es| - 1];
      assert e in es && forall x | x in front :: x in es;
      HoldableFront(s.order, fs, Offers(s, front), OfferOf(Run(s, front).0, e));
      OrderRuns(s, front, hosts, fs);
      StagesHold(s, front);
      OrderStep(s, Run(s, front).0, Run(s, front).1, Offers(s, front), e, hosts, fs);
    }
  }

  lemma NothingOffered(s: State, hosts: u32 -> HostFrame, fs: seq<WtFrame>)
    requires Ready(s) && HonestTable(s.table.v4, hosts) && !s.order.resync
    ensures Ordering(s, s, NOTHING, [], hosts, fs)
  {
    hide HonestTable;
  }

  lemma OrderStep(s: State, t: State, log: Handed, offers: seq<OS.Event>, e: Event, hosts: u32 -> HostFrame,
                  fs: seq<WtFrame>)
    requires Sound(s) && Sound(t) && Reordering.Awaits(s.order, fs) && Burst(s.order, e, hosts, fs)
    requires Ordering(s, t, log, offers, hosts, fs) && Reordering.AllHoldable(s.order, fs, offers + OfferOf(t, e))
    ensures Ordering(s, Step(t, e).0, Join(log, Step(t, e).1), offers + OfferOf(t, e), hosts, fs)
  {
    hide Reordering.AllHoldable, HonestTable, Reordering.Awaits, OS.Inv, P.Inv, FromHosts, OnNet, P.Step, OS.Run;
    match e
    case Net(n, configured, clock) => OrderNet(s, t, log, offers, n, clock, hosts, fs);
    case RttMeasured(ms) => QuietOffer(s, t, log, offers, OS.RttMeasured(ms));
    case KeyAsked => QuietOffer(s, t, log, offers, OS.KeyAsked);
    case TimerFires(_) => assert offers + [] == offers && log.ordered + [] == log.ordered;
    case SetPacing(_) => assert offers + [] == offers && log.ordered + [] == log.ordered;
    case FirstPicture => assert offers + [] == offers && log.ordered + [] == log.ordered;
  }

  lemma QuietOffer(s: State, t: State, log: Handed, offers: seq<OS.Event>, x: OS.Event)
    requires Ready(s) && Ready(t) && (x.RttMeasured? || x.KeyAsked?)
    requires (t.order, log.ordered) == OS.Run(s.order, offers)
    ensures (OS.Step(t.order, x).0, log.ordered + []) == OS.Run(s.order, offers + [x])
  {
    assert (offers + [x])[..|offers|] == offers;
  }

  lemma OrderNet(s: State, t: State, log: Handed, offers: seq<OS.Event>, n: T.Event, clock: nat -> real,
                 hosts: u32 -> HostFrame, fs: seq<WtFrame>)
    requires Sound(s) && Sound(t) && Reordering.Awaits(s.order, fs)
    requires Burst(s.order, Net(n, true, clock), hosts, fs)
    requires Ordering(s, t, log, offers, hosts, fs)
    requires Reordering.AllHoldable(s.order, fs, offers + OfferOf(t, Net(n, true, clock)))
    ensures var e := Net(n, true, clock);
      Ordering(s, Step(t, e).0, Join(log, Step(t, e).1), offers + OfferOf(t, e), hosts, fs)
  {
    hide HonestTable, Reordering.Awaits, OS.Inv, P.Inv, FromHosts, T.Step, O.Accept, AdmitAll, AfterGap, OS.Run,
      Reordering.AllHoldable;
    DeliveredIsSent(t.table, n, hosts);
    var got := Delivered(T.Step(t.table, n).1);
    if got.Some? {
      BurstHasNoGap(s.order, fs, offers, got.value);
      OfferedRuns(s.order, offers, got.value);
    } else {
      assert offers + [] == offers && log.ordered + [] == log.ordered;
    }
  }

  lemma OfferedRuns(o: O.State, offers: seq<OS.Event>, f: WtFrame)
    requires o.pending.Valid()
    ensures var (t, log) := OS.Run(o, offers);
      OS.Run(o, offers + [OS.Arrive(f)]) == (O.Accept(t, f).0, log + O.Accept(t, f).1)
  {
    hide O.Accept;
    assert (offers + [OS.Arrive(f)])[..|offers|] == offers;
  }

  // ---- every frame of it arrives ---------------------------------------------------------------------

  /** Every gap has been answered: between steps the orderer never waits to be reset. */
  lemma {:induction false} GapsAnswered(es: seq<Event>)
    ensures !Run(FRESH, es).0.order.resync
  {
    hide Step;
    if |es| > 0 {
      GapsAnswered(es[..|es| - 1]);
      StepAnswers(Run(FRESH, es[..|es| - 1]).0, es[|es| - 1]);
    }
  }

  lemma StepAnswers(s: State, e: Event)
    requires Ready(s) && !s.order.resync
    ensures !Step(s, e).0.order.resync
  {
    hide T.Step, O.Accept, AdmitAll, P.Step;
  }

  /** Enough of a frame has arrived: no group short of more than one fragment, and of that one only with its row. */
  ghost predicate Enough(ts: seq<T.Event>, no: u32, h: HostFrame) {
    Sendable(h) && FrameRun.SparseLoss(|Frags(h)|, FrameRun.Tally(TF.Own(ts, no)))
  }

  /** What came in a stretch of the frames numbered `no`, once `pre` left no trace of it: its stream copy, or enough of
      its datagrams with nothing in the way. */
  ghost predicate Comes(pre: seq<T.Event>, ts: seq<T.Event>, no: u32, h: HostFrame) {
    && no !in TQ.NumbersOf(pre)
    && ((exists e :: e in ts && e.StreamFrame? && e.frame.frameNo == no)
        || (TQ.Quiet(pre, ts, no) && Enough(ts, no, h)))
  }

  lemma {:induction false} OwnIsHosts(es: seq<Event>, no: u32, hosts: u32 -> HostFrame)
    requires HostOnly(es, hosts)
    ensures forall d | d in TF.Own(TableEvents(es), no) :: FromHost(d.f, no, hosts(no))
  {
    hide FromHost;
    if |es| > 0 {
      var front, e := es[..|es| - 1], es[|es| - 1];
      assert e in es && forall x | x in front :: x in es;
      OwnIsHosts(front, no, hosts);
      if e.Net? {
        var ts := TableEvents(front);
        assert (ts + [e.e])[..|ts|] == ts;
      } else {
        assert TableEvents(front) + [] == TableEvents(front);
      }
    }
  }

  lemma EnoughIsDelivered(pre: seq<Event>, es: seq<Event>, no: u32, hosts: u32 -> HostFrame)
    requires HostOnly(es, hosts)
    requires TQ.Quiet(TableEvents(pre), TableEvents(es), no) && Enough(TableEvents(es), no, hosts(no))
    ensures exists o :: o in T.Run(TableEvents(pre + es)).1 && o.Deliver? && o.frame.frameNo == no
  {
    hide HostOnly, TQ.Uncrowded, TQ.Prompt, T.Run, FrameRun.SparseLoss, FrameRun.Tally, TF.Own, Sendable;
    OwnIsHosts(es, no, hosts);
    FrameRun.SparseLossDelivers(hosts(no), no, TF.Own(TableEvents(es), no));
    TQ.QuietFollows(TableEvents(pre), TableEvents(es), no);
    TableEventsJoin(pre, es);
  }

  lemma ComesIsDelivered(pre: seq<Event>, es: seq<Event>, no: u32, hosts: u32 -> HostFrame) returns (o: T.Output)
    requires HostOnly(es, hosts) && Comes(TableEvents(pre), TableEvents(es), no, hosts(no))
    ensures o in T.Run(TableEvents(pre + es)).1 && o.Deliver? && o.frame.frameNo == no
    ensures o !in T.Run(TableEvents(pre)).1
  {
    hide HostOnly, TQ.Quiet, T.Run, Enough, TQ.NumbersOf;
    var before, ts := TableEvents(pre), TableEvents(es);
    TableEventsJoin(pre, es);
    if TQ.Quiet(before, ts, no) && Enough(ts, no, hosts(no)) {
      EnoughIsDelivered(pre, es, no, hosts);
    } else {
      var e :| e in ts && e.StreamFrame? && e.frame.frameNo == no;
      assert e in before + ts;
      RememberedIsLogged(before + ts);
    }
    o :| o in T.Run(TableEvents(pre + es)).1 && o.Deliver? && o.frame.frameNo == no;
    if o in T.Run(before).1 {
      DeliveredNumbers(before, o);
    }
  }

  lemma BurstNumbers(s0: O.State, fs: seq<WtFrame>, i: nat, j: nat)
    requires Reordering.Awaits(s0, fs) && i < |fs| && j < |fs| && fs[i].frameNo == fs[j].frameNo
    ensures i == j
  {
    Reordering.Offsets(fs[0].frameNo, i, j);
  }

  lemma AllOffered(pre: seq<Event>, es: seq<Event>, hosts: u32 -> HostFrame, fs: seq<WtFrame>, i: nat)
    requires Reordering.Awaits(Run(FRESH, pre).0.order, fs) && i < |fs|
    requires forall e | e in es :: Burst(Run(FRESH, pre).0.order, e, hosts, fs)
    requires forall x | x in Offers(Run(FRESH, pre).0, es) :: Reordering.BurstEvent(Run(FRESH, pre).0.order, x, fs)
    requires Comes(TableEvents(pre), TableEvents(es), fs[i].frameNo, hosts(fs[i].frameNo))
    ensures OS.Arrive(fs[i]) in Offers(Run(FRESH, pre).0, es)
  {
    hide Run, T.Run, Comes, Offers, FromHosts, Reordering.Awaits, Reordering.Stale;
    var s0 := Run(FRESH, pre).0.order;
    forall e | e in es ensures Configured(e) && (e.Net? ==> FromHosts(e.e, hosts)) { assert Burst(s0, e, hosts, fs); }
    var o := ComesIsDelivered(pre, es, fs[i].frameNo, hosts);
    DeliveredIsOffered(pre, es, o);
    var x := OS.Arrive(o.frame);
    assert Reordering.BurstEvent(s0, x, fs);
    if Reordering.Stale(s0, fs, o.frame) {
      Reordering.StaleIsOther(s0, fs, o.frame, i);
    }
    var j :| 0 <= j < |fs| && fs[j] == o.frame;
    BurstNumbers(s0, fs, i, j);
  }

  /**
   After any run that leaves nothing held in the orderer: a burst of the next frames, or a keyframe and the deltas
   behind it, each of which comes on the stream or with enough of its datagrams and finds the cursor within reach, in
   any order with any repetition, mixed with late frames from before it and however paced, goes to the decoder whole and
   in order, behind whatever was still waiting; and the orderer is ready for the next one.
   */
  lemma BurstReachesDecoder(pre: seq<Event>, es: seq<Event>, hosts: u32 -> HostFrame, fs: seq<WtFrame>)
    requires HostOnly(pre, hosts) && Reordering.Awaits(Run(FRESH, pre).0.order, fs)
    requires forall e | e in es :: Burst(Run(FRESH, pre).0.order, e, hosts, fs)
    requires forall f | f in fs :: Comes(TableEvents(pre), TableEvents(es), f.frameNo, hosts(f.frameNo))
    requires Reordering.AllHoldable(Run(FRESH, pre).0.order, fs, Offers(Run(FRESH, pre).0, es))
    ensures var s := Run(FRESH, pre).0;
      var (t, log) := Run(s, es);
      && log.submitted + P.Items(t.paced.queue) == P.Items(s.paced.queue) + fs
      && (!t.paced.pacing ==> log.submitted == P.Items(s.paced.queue) + fs)
      && t.order.pending == Empty() && t.order.next == Some(Next(fs[|fs| - 1].frameNo))
      && t.order.maxReorder == s.order.maxReorder
  {
    hide Run, T.Run, Comes, HonestTable, FromHosts, Reordering.Awaits, Reordering.Stale, OS.Inv, P.Items, Offers,
      OS.Run, Reordering.AllHoldable;
    var s := Run(FRESH, pre).0;
    FreshSound();
    StagesHold(FRESH, pre);
    StagesHold(s, es);
    RunHolds(pre, hosts);
    GapsAnswered(pre);
    OrderRuns(s, es, hosts, fs);
    forall i | 0 <= i < |fs| ensures OS.Arrive(fs[i]) in Offers(s, es) {
      assert fs[i] in fs;
      AllOffered(pre, es, hosts, fs, i);
    }
    Reordering.ReorderingIsInvisible(s.order, fs, Offers(s, es));
    forall e | e in es ensures Keeps(e) { assert Burst(s.order, e, hosts, fs); }
    NothingLost(pre, es);
    NothingWaits(Run(s, es).0, Run(s, es).1.submitted);
  }

  lemma {:induction false} OffersAreBurst(s: State, es: seq<Event>, hosts: u32 -> HostFrame, fs: seq<WtFrame>)
    requires Ready(s) && HonestTable(s.table.v4, hosts) && forall e | e in es :: Burst(s.order, e, hosts, fs)
    ensures HonestTable(Run(s, es).0.table.v4, hosts)
    ensures forall x | x in Offers(s, es) :: Reordering.BurstEvent(s.order, x, fs)
  {
    hide Step, HonestTable, FromHosts, T.Step, Reordering.Stale, Delivered;
    if |es| > 0 {
      var front, e := es[..|es| - 1], es[|es| - 1];
      assert e in es && forall x | x in front :: x in es;
      OffersAreBurst(s, front, hosts, fs);
      var t := Run(s, front).0;
      if e.Net? {
        DeliveredIsSent(t.table, e.e, hosts);
      }
      StepHolds(t, e, hosts);
    }
  }

  /** A burst of at most nine frames captured within 180 ms is always within reach: it reaches the decoder whatever the
      cadence and the round trip. */
  lemma ShortBurstReachesDecoder(pre: seq<Event>, es: seq<Event>, hosts: u32 -> HostFrame, fs: seq<WtFrame>)
    requires HostOnly(pre, hosts) && Reordering.Awaits(Run(FRESH, pre).0.order, fs)
    requires forall e | e in es :: Burst(Run(FRESH, pre).0.order, e, hosts, fs)
    requires forall f | f in fs :: Comes(TableEvents(pre), TableEvents(es), f.frameNo, hosts(f.frameNo))
    requires |fs| <= 9 && Reordering.Fits(fs, 180.0)
    ensures var s := Run(FRESH, pre).0;
      var (t, log) := Run(s, es);
      log.submitted + P.Items(t.paced.queue) == P.Items(s.paced.queue) + fs
  {
    hide Run, T.Run, Comes, HonestTable, Reordering.Awaits, Burst, OS.Inv, P.Items, Offers, Reordering.AllHoldable,
      Reordering.Fits;
    RunHolds(pre, hosts);
    RunSettings(pre);
    OffersAreBurst(Run(FRESH, pre).0, es, hosts, fs);
    Reordering.ShortIsHoldable(Run(FRESH, pre).0.order, fs, Offers(Run(FRESH, pre).0, es));
    BurstReachesDecoder(pre, es, hosts, fs);
  }

  lemma NothingWaits(t: State, submitted: seq<WtFrame>)
    requires P.Inv(t.paced)
    ensures !t.paced.pacing ==> submitted + P.Items(t.paced.queue) == submitted
  {
    if !t.paced.pacing {
      assert P.Items(t.paced.queue) == [];
      assert submitted + P.Items(t.paced.queue) == submitted;
    }
  }

  // ---- where a burst may start --------------------------------------------------------------

  /** The round trip measured last; 0 before the first. */
  function LastRtt(es: seq<Event>): real {
    if |es| == 0 then 0.0
    else if es[|es| - 1].RttMeasured? then es[|es| - 1].ms
    else LastRtt(es[..|es| - 1])
  }

  lemma {:induction false} DrainSettings(s: O.State)
    requires s.pending.Valid()
    ensures var t := O.Drain(s).0; t.maxReorder == s.maxReorder && t.budgetMs == s.budgetMs
    decreases |s.pending.at|
  {
    hide O.IsReplay;
    if s.next.Some? && s.next.value in s.pending.at {
      var f := s.pending.at[s.next.value];
      var t := s.(pending := s.pending.Delete(s.next.value));
      if !O.IsReplay(s.lastReleased, f) {
        DrainSettings(t.(next := Some(Next(s.next.value)), lastReleased := Some(O.Released(f.frameNo, f.captureUs))));
      }
    }
  }

  lemma InsertSettings(s: O.State, f: WtFrame)
    requires s.pending.Valid()
    ensures var t := O.Insert(s, f).0; t.maxReorder == s.maxReorder && t.budgetMs == s.budgetMs
  {
    hide O.Drain, O.HeldTooLong;
    DrainSettings(s.(farAhead := 0, pending := s.pending.Set(f.frameNo, f)));
  }

  lemma AcceptSettings(s: O.State, f: WtFrame)
    requires s.pending.Valid()
    ensures var t := O.Accept(s, f).0; t.maxReorder == s.maxReorder && t.budgetMs == s.budgetMs
  {
    hide O.Insert, O.IsReplay, O.HeldTooLong, O.Horizon, O.KeepPlausible, O.Oldest;
    var c := O.Clock(s, f);
    InsertSettings(c, f);
    InsertSettings(O.Anchor(c, f), f);
  }

  /** After any run the orderer waits by the round trip measured last, and sorts eight frames whatever the cadence. */
  lemma {:induction false} RunSettings(es: seq<Event>)
    ensures var o := Run(FRESH, es).0.order; o.maxReorder == 8 && o.budgetMs == O.RepairBudgetMs(LastRtt(es))
  {
    hide T.Step, O.Accept, O.RepairBudgetMs;
    if |es| == 0 {
      assert O.RepairBudgetMs(0.0) == 300.0;
    } else {
      var front, e := es[..|es| - 1], es[|es| - 1];
      RunSettings(front);
      var s := Run(FRESH, front).0;
      if e.Net? && e.configured && Delivered(T.Step(s.table, e.e).1).Some? {
        AcceptSettings(s.order, Delivered(T.Step(s.table, e.e).1).value);
      }
    }
  }

  /** The first burst of every stream: after any run and the configuration for a new stream, any burst headed by a
      keyframe and captured within the budget is next. */
  lemma FirstBurst(pre: seq<Event>, fs: seq<WtFrame>)
    requires Reordering.IsBurst(fs) && Reordering.Fits(fs, O.RepairBudgetMs(LastRtt(pre))) && fs[0].key
    ensures Reordering.Awaits(Run(FRESH, pre + [Configure(true)]).0.order, fs)
  {
    hide O.RepairBudgetMs, Reordering.Fits;
    FreshSound();
    StagesHold(FRESH, pre + [Configure(true)]);
    assert (pre + [Configure(true)])[..|pre|] == pre;
    RunSettings(pre);
    assert Run(FRESH, pre + [Configure(true)]).0 == Rebuilt(Run(FRESH, pre).0, true);
  }

  // ---- what is not handed on, and what starts over ------------------------------------------------

  /** Until the decoder is configured, what the table delivers goes nowhere. */
  lemma NothingBeforeConfiguration(s: State, e: T.Event, clock: nat -> real)
    requires Ready(s)
    ensures Step(s, Net(e, false, clock)) == (s.(table := T.Step(s.table, e).0), NOTHING)
  {
    hide T.Step;
  }

  /** After the watchdog's reset nothing waits, and pacing starts over: the next frame is due a millisecond after it
      arrived. */
  lemma ResetStartsOver(s: State, f: WtFrame, arrivedMs: real, nowMs: real)
    requires Ready(s) && s.paced.pacing
    ensures var t := Step(s, WatchdogReset).0;
      && t.order.pending == Empty() && t.order.next.None?
      && P.Admitted(t.paced, f, arrivedMs, nowMs) ==
           (t.paced.(clock := Pacing.Observed(Pacing.START, f.captureUs, arrivedMs),
                     queue := if arrivedMs + 1.0 <= nowMs then [] else [P.Held(f, arrivedMs + 1.0)]),
            if arrivedMs + 1.0 <= nowMs then [f] else [])
  {
    hide Pacing.Observed, Pacing.DueMs;
    Pacing.FirstSeen(f.captureUs, arrivedMs);
    var h := P.Held(f, arrivedMs + 1.0);
    assert P.Pushed([], h) == ([h], []) by { assert [] + [h] == [h] && [h][0..] == [h] && P.Items([h][..0]) == []; }
    var n := P.DueCount([h], Some(nowMs));
    assert n == (if h.due <= nowMs then 1 else 0) by { assert [h][1..] == []; }
    assert [h][..1] == [h] && [h][1..] == [] && [h][0..] == [h] && P.Items([h]) == [f] && P.Items([h][..0]) == [];
    assert [] + P.Items([h][..n]) == P.Items([h][..n]);
  }

  /** Once the page has asked for a keyframe, the next request is due 600 ms of video later. */
  lemma AskedIsSettled(s: State)
    requires Ready(s)
    ensures var o := Step(s, KeyAsked).0.order; !o.keyDue && o.keyDueAtUs == Some(s.order.newestUs + 600_000)
  {}
}
