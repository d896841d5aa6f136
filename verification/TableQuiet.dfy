/**
 When the table leaves a frame alone: at most 24 frames within any 900 ms, no stream copy
 of the frame, and nothing at all received more than 900 ms after one of its datagrams while
 it is incomplete. These are conditions on what arrives, and under them the table does to
 the frame what its own datagrams alone come to.
 */
module TableQuiet {
  import opened Bytes
  import opened InsertionOrder
  import opened Wire
  import opened Assembly
  import FrameRun
  import opened FrameTable
  import opened TableSafety
  import opened TableFrames

  // ---- what arrives ----------------------------------------------------------------------

  function About(e: Event): u32 {
    match e
    case Datagram(f, _, _) => f.frameNo
    case StreamFrame(frame) => frame.frameNo
  }

  function NumbersOf(es: seq<Event>): set<u32> {
    set e | e in es :: About(e)
  }

  /** The numbers datagrams came for within 900 ms of the `k`-th event, its own included. */
  function Recent(es: seq<Event>, k: nat): set<u32>
    requires k < |es| && es[k].Datagram?
  {
    set i: nat | i <= k && es[i].Datagram? && es[k].nowMs - es[i].nowMs <= 900.0 :: es[i].f.frameNo
  }

  ghost predicate Uncrowded(es: seq<Event>, k: nat)
    requires k < |es|
  {
    es[k].Datagram? ==> |Recent(es, k)| <= 24
  }

  /** Until the frame is complete, no datagram of any frame comes more than 900 ms after one of its own. */
  ghost predicate Prompt(es: seq<Event>, k: nat, no: u32)
    requires k < |es|
  {
    es[k].Datagram? && !FrameRun.Run(Own(es[..k], no)).Done? ==>
      forall i | 0 <= i < k && es[i].Datagram? && es[i].f.frameNo == no :: es[k].nowMs - es[i].nowMs <= 900.0
  }

  // ---- every assembly dates from a datagram ------------------------------------------------

  ghost predicate Opened(es: seq<Event>, i: nat, no: u32, atMs: real) {
    i < |es| && es[i].Datagram? && es[i].f.frameNo == no && es[i].nowMs == atMs
  }

  ghost predicate Dated(es: seq<Event>, v4: Table<AsmState>) {
    forall no | no in v4.at :: exists i :: Opened(es, i, no, v4.at[no].atMs)
  }

  lemma StepDates(s: State, e: Event, no: u32)
    requires Shaped(s.v4) && no in Step(s, e).0.v4.at
    ensures (no in s.v4.at && Step(s, e).0.v4.at[no].atMs == s.v4.at[no].atMs)
         || (e.Datagram? && e.f.frameNo == no && Step(s, e).0.v4.at[no].atMs == e.nowMs)
  {
    hide Shaped, NackSkipped, Scan, Open, Store, Close, Remember;
    if e.Datagram? {
      var f, nowMs := e.f, e.nowMs;
      SkippedKeepsTable(s, f.frameNo);
      var t := NackSkipped(s, f.frameNo).0;
      if f.frameNo !in t.done {
        var u := Scan(t, t.v4.order, nowMs, NackTiming(e.rttMs)).0;
        ScanExpires(t, t.v4.order, nowMs, NackTiming(e.rttMs), no);
        if f.frameNo !in u.done {
          var w := Open(u, f, nowMs).0;
          StoreAges(w, f, no);
          OpenAges(u, f, nowMs, no);
          if no != f.frameNo {
            OpenUntouched(u, f, nowMs, no);
          }
        }
      }
    }
  }

  lemma {:induction false} RunDated(es: seq<Event>)
    ensures Dated(es, Run(es).0.v4)
  {
    hide Step, Shaped;
    if |es| > 0 {
      var front, e := es[..|es| - 1], es[|es| - 1];
      RunDated(front);
      var s := Run(front).0;
      forall no | no in Step(s, e).0.v4.at
        ensures exists i :: Opened(es, i, no, Step(s, e).0.v4.at[no].atMs)
      {
        StepDates(s, e, no);
        if no in s.v4.at && Step(s, e).0.v4.at[no].atMs == s.v4.at[no].atMs {
          var i: nat :| Opened(front, i, no, s.v4.at[no].atMs);
          assert Opened(es, i, no, s.v4.at[no].atMs);
        } else {
          assert Opened(es, |es| - 1, no, e.nowMs);
        }
      }
    }
  }

  // ---- so an uncrowded table has room ---------------------------------------------------------

  /** After the scan there is room for the arrival without an eviction. */
  ghost predicate Roomy(s: State, e: Event)
    requires Shaped(s.v4)
  {
    e.Datagram? ==>
      var t := NackSkipped(s, e.f.frameNo).0;
      var u := Scan(t, t.v4.order, e.nowMs, NackTiming(e.rttMs)).0;
      e.f.frameNo in u.v4.at || u.v4.Size() < MAX_IN_FLIGHT
  }

  lemma KeysSize(v4: Table<AsmState>)
    requires v4.Valid()
    ensures |v4.at.Keys| == v4.Size()
  {
    DistinctSize(v4.order);
    assert v4.at.Keys == Elements(v4.order);
  }

  lemma ScanValid(s: State, nowMs: real, t: Timing)
    requires Shaped(s.v4)
    ensures Scan(s, s.v4.order, nowMs, t).0.v4.Valid()
  {
    hide Scan, Shaped;
    ShapedValid(Scan(s, s.v4.order, nowMs, t).0.v4);
  }

  lemma UncrowdedIsRoomy(es: seq<Event>, k: nat)
    requires k < |es| && Uncrowded(es, k)
    ensures Roomy(Run(es[..k]).0, es[k])
  {
    hide Run, NackSkipped, Scan, Shaped, Expired;
    var s, e := Run(es[..k]).0, es[k];
    if e.Datagram? {
      RunSafe(es[..k]);
      RunDated(es[..k]);
      ApartInv(s);
      SkippedKeepsTable(s, e.f.frameNo);
      var t := NackSkipped(s, e.f.frameNo).0;
      var u := Scan(t, t.v4.order, e.nowMs, NackTiming(e.rttMs)).0;
      var keys := u.v4.at.Keys;
      forall no | no in keys ensures no in Recent(es, k) {
        ScanExpires(t, t.v4.order, e.nowMs, NackTiming(e.rttMs), no);
        RecentOpened(es, k, s.v4, no);
      }
      assert e.f.frameNo in Recent(es, k);
      ScanValid(t, e.nowMs, NackTiming(e.rttMs));
      KeysSize(u.v4);
      SmallerSet(keys + {e.f.frameNo}, Recent(es, k));
      assert e.f.frameNo !in keys ==> |keys + {e.f.frameNo}| == |keys| + 1;
    }
  }

  lemma RecentOpened(es: seq<Event>, k: nat, v4: Table<AsmState>, no: u32)
    requires k < |es| && es[k].Datagram? && Dated(es[..k], v4)
    requires no in v4.at && es[k].nowMs - v4.at[no].atMs <= 900.0
    ensures no in Recent(es, k)
  {
    var i: nat :| Opened(es[..k], i, no, v4.at[no].atMs);
    assert es[i] == es[..k][i];
  }

  // ---- and a closed number is not forgotten -------------------------------------------------------

  /** Whatever was closed after `no` is among `b`. */
  ghost predicate AfterIn(done: seq<u32>, no: u32, b: set<u32>) {
    forall i, j | 0 <= i < j < |done| && done[i] == no :: done[j] in b
  }

  /** Whatever is in flight, or was closed after `no`, is among the few of `b`. */
  ghost predicate Few(s: State, no: u32, b: set<u32>) {
    && no in b && |b| <= MAX_DONE
    && Distinct(s.done) && AfterIn(s.done, no, b)
    && forall k | k in s.v4.at :: k in b
  }

  /** With more closed than `b` has, the oldest is not `no`. */
  lemma FirstIsOther(done: seq<u32>, no: u32, b: set<u32>)
    requires Distinct(done) && AfterIn(done, no, b) && no in b && |done| > |b|
    ensures done[0] != no
  {
    var closed := Elements(done);
    DistinctSize(done);
    if done[0] == no {
      forall x | x in closed ensures x in b {
        var j :| 0 <= j < |done| && done[j] == x;
        assert j > 0 ==> done[j] in b;
      }
      SmallerSet(closed, b);
    }
  }

  lemma CloseRemembers(done: seq<u32>, no: u32, x: u32, b: set<u32>)
    requires Distinct(done) && AfterIn(done, no, b) && no in b && x in b && |b| <= MAX_DONE
    ensures no in done ==> no in Close(done, x)
    ensures Distinct(Close(done, x)) && AfterIn(Close(done, x), no, b)
  {
    var all := Add(done, x);
    assert Distinct(all) && AfterIn(all, no, b);
    if |all| > MAX_DONE {
      FirstIsOther(all, no, b);
      assert Close(done, x) == all[1..];
      assert all == [all[0]] + all[1..];
      assert no in done ==> no in all;
    }
  }

  lemma AbandonRemembers(s: State, no: u32, x: u32, b: set<u32>)
    requires Few(s, no, b) && x in b
    ensures Few(Abandon(s, x), no, b) && (no in s.done ==> no in Abandon(s, x).done)
  {
    hide Close, AfterIn, Distinct;
    CloseRemembers(s.done, no, x, b);
  }

  lemma {:induction false} ScanRemembers(s: State, keys: seq<u32>, nowMs: real, t: Timing, no: u32, b: set<u32>)
    requires Shaped(s.v4) && Few(s, no, b)
    ensures var u := Scan(s, keys, nowMs, t).0; Few(u, no, b) && (no in s.done ==> no in u.done)
  {
    hide Abandon, AfterIn, Distinct, Shaped, Round, Expired, DueForNack;
    if |keys| > 0 {
      var front, last := keys[..|keys| - 1], keys[|keys| - 1];
      ScanRemembers(s, front, nowMs, t, no, b);
      var u := Scan(s, front, nowMs, t).0;
      if last in u.v4.at {
        AbandonRemembers(u, no, last, b);
      }
    }
  }

  lemma OpenRemembers(s: State, f: WtFragment, nowMs: real, no: u32, b: set<u32>)
    requires Shaped(s.v4) && Few(s, no, b) && f.frameNo in b
    requires f.frameNo in s.v4.at || s.v4.Size() < MAX_IN_FLIGHT
    ensures var u := Open(s, f, nowMs).0;
      && Few(u, no, b) && u.done == s.done
      && (forall k | k in s.v4.at :: k in u.v4.at) && f.frameNo in u.v4.at
  {
    hide AfterIn, Distinct, Victim;
    if f.frameNo !in s.v4.at {
      ShapedSet(s.v4, f.frameNo, NewState(f, nowMs));
      assert s.v4.Set(f.frameNo, NewState(f, nowMs)).Size() <= MAX_IN_FLIGHT;
    }
  }

  lemma StoreRemembers(s: State, f: WtFragment, no: u32, b: set<u32>)
    requires Shaped(s.v4) && Few(s, no, b) && f.frameNo in b
    ensures var u := Store(s, f).0; Few(u, no, b) && (no in s.done ==> no in u.done)
  {
    hide Abandon, AfterIn, Distinct, Absorb, Payload, Complete, Remember, Shaped;
    AbandonRemembers(s, no, f.frameNo, b);
  }

  lemma StreamRemembers(s: State, frame: WtFrame, no: u32, b: set<u32>)
    requires Shaped(s.v4) && Few(s, no, b) && frame.frameNo in b
    ensures var u := OnStreamFrame(s, frame).0; Few(u, no, b) && (no in s.done ==> no in u.done)
  {
    hide AfterIn, Distinct, Remember, Shaped, Close;
    CloseRemembers(s.done, no, frame.frameNo, b);
  }

  lemma StepRemembers(s: State, e: Event, no: u32, b: set<u32>)
    requires Shaped(s.v4) && Few(s, no, b) && About(e) in b && Roomy(s, e)
    ensures var u := Step(s, e).0; Few(u, no, b) && (no in s.done ==> no in u.done)
  {
    hide Shaped, AfterIn, Distinct, NackSkipped, Scan, Open, Store, OnStreamFrame;
    match e
    case StreamFrame(frame) => StreamRemembers(s, frame, no, b);
    case Datagram(f, nowMs, rttMs) =>
      SkippedKeepsTable(s, f.frameNo);
      var t := NackSkipped(s, f.frameNo).0;
      if f.frameNo !in t.done {
        var u := Scan(t, t.v4.order, nowMs, NackTiming(rttMs)).0;
        ScanRemembers(t, t.v4.order, nowMs, NackTiming(rttMs), no, b);
        if f.frameNo !in u.done {
          OpenRemembers(u, f, nowMs, no, b);
          StoreRemembers(Open(u, f, nowMs).0, f, no, b);
        }
      }
  }

  /** With room there is no eviction, so nothing but age, completion or its stream copy ends an assembly. */
  lemma RoomySpares(s: State, e: Event, no: u32, b: set<u32>)
    requires Shaped(s.v4) && Few(s, no, b) && About(e) in b && Roomy(s, e)
    requires e.StreamFrame? ==> e.frame.frameNo != no
    requires e.Datagram? && no in s.v4.at ==> !Expired(s.v4.at[no], e.nowMs)
    ensures Spared(s, e, no)
  {
    StepRemembers(s, e, no, b);
    hide Shaped, AfterIn, Distinct, NackSkipped, Scan, Open, Store, OnStreamFrame, Step;
    if e.Datagram? {
      var f, nowMs := e.f, e.nowMs;
      SkippedKeepsTable(s, f.frameNo);
      var t := NackSkipped(s, f.frameNo).0;
      var u := Scan(t, t.v4.order, nowMs, NackTiming(e.rttMs)).0;
      ScanRemembers(t, t.v4.order, nowMs, NackTiming(e.rttMs), no, b);
      if f.frameNo !in u.done {
        OpenRemembers(u, f, nowMs, no, b);
      }
    }
  }

  // ---- whole runs -----------------------------------------------------------------------------------

  /** Nothing came for `no` yet. */
  ghost predicate Unheard(s: State, no: u32) {
    no !in s.v4.at && no !in s.done && no !in s.delivered.at
  }

  lemma UnheardSpares(s: State, e: Event, no: u32)
    requires Shaped(s.v4) && Unheard(s, no) && About(e) != no
    ensures Spared(s, e, no) && Unheard(Step(s, e).0, no)
  {
    hide Shaped, NackSkipped, Scan, Open, Store, Close, Remember;
    match e
    case StreamFrame(frame) =>
      CloseOthers(s.done, frame.frameNo, no);
      RememberOthers(s.delivered, frame.frameNo, frame.captureUs, no);
    case Datagram(f, nowMs, rttMs) =>
      SkippedKeepsTable(s, f.frameNo);
      var t := NackSkipped(s, f.frameNo).0;
      var u := Scan(t, t.v4.order, nowMs, NackTiming(rttMs)).0;
      ScanUntouched(t, t.v4.order, nowMs, NackTiming(rttMs), no);
      OpenUntouched(u, f, nowMs, no);
      StoreUntouched(Open(u, f, nowMs).0, f, no);
  }

  ghost predicate AllSpared(es: seq<Event>, no: u32) {
    forall k | 0 <= k < |es| :: Spared(Run(es[..k]).0, es[k], no)
  }

  lemma SparedSnoc(es: seq<Event>, e: Event, no: u32)
    requires AllSpared(es, no) && Spared(Run(es).0, e, no)
    ensures AllSpared(es + [e], no)
  {
    hide Spared, Run;
    var all := es + [e];
    assert all[..|es|] == es;
    forall k | 0 <= k < |all| ensures Spared(Run(all[..k]).0, all[k], no) {
      if k < |es| {
        assert all[..k] == es[..k] && all[k] == es[k];
      }
    }
  }

  lemma {:induction false} UnheardSpared(pre: seq<Event>, no: u32)
    requires no !in NumbersOf(pre)
    ensures AllSpared(pre, no) && Unheard(Run(pre).0, no)
  {
    hide Spared, Step, Unheard;
    if |pre| == 0 {
      FreshUnheard(no);
    } else {
      var front, e := pre[..|pre| - 1], pre[|pre| - 1];
      assert pre == front + [e] && e in pre && About(e) in NumbersOf(pre);
      assert forall x | x in front :: x in pre;
      UnheardSpared(front, no);
      UnheardSpares(Run(front).0, e, no);
      SparedSnoc(front, e, no);
    }
  }

  lemma FreshUnheard(no: u32)
    ensures Unheard(Run([]).0, no)
  {
    RunNothing();
  }

  /** What is told of the events `es` that come after `pre`: all conditions on what arrives. */
  ghost predicate Quiet(pre: seq<Event>, es: seq<Event>, no: u32) {
    && no !in NumbersOf(pre) && |NumbersOf(es)| < 488
    && (forall e | e in es && e.StreamFrame? :: e.frame.frameNo != no)
    && forall k | |pre| <= k < |pre + es| :: Uncrowded(pre + es, k) && Prompt(pre + es, k, no)
  }

  /** The few numbers a quiet stretch is about, and those in flight when it begins. */
  ghost function Around(pre: seq<Event>, es: seq<Event>, no: u32): set<u32> {
    Run(pre).0.v4.at.Keys + NumbersOf(es) + {no}
  }

  lemma AroundIsFew(pre: seq<Event>, es: seq<Event>, no: u32)
    requires Quiet(pre, es, no)
    ensures |Around(pre, es, no)| <= MAX_DONE && Few(Run(pre).0, no, Around(pre, es, no))
  {
    hide Run, Uncrowded, Prompt, NumbersOf;
    RunSafe(pre);
    UnheardSpared(pre, no);
    var s := Run(pre).0;
    ApartParts(s.v4, s.done);
    KeysSize(s.v4);
    UnionSize(s.v4.at.Keys, NumbersOf(es));
    UnionSize(s.v4.at.Keys + NumbersOf(es), {no});
    DoneDistinct(s);
  }

  lemma UnionSize<T>(a: set<T>, b: set<T>)
    ensures |a + b| <= |a| + |b|
  {
    assert |a + b| == |a| + |b| - |a * b|;
  }

  lemma PromptKeeps(pre: seq<Event>, es: seq<Event>, no: u32)
    requires es != [] && Quiet(pre, es, no)
    ensures Quiet(pre, es[..|es| - 1], no)
  {
    hide FrameRun.Run, Own;
    var front := es[..|es| - 1];
    assert forall e | e in front :: e in es;
    SmallerSet(NumbersOf(front), NumbersOf(es));
    var all, less := pre + es, pre + front;
    forall k | |pre| <= k < |less| ensures Uncrowded(less, k) && Prompt(less, k, no) {
      assert Uncrowded(all, k) && Prompt(all, k, no);
      assert less[..k] == all[..k] && less[k] == all[k];
      assert forall i | 0 <= i <= k :: less[i] == all[i];
      assert all[k].Datagram? ==> Recent(less, k) == Recent(all, k);
    }
  }

  /** While it is not complete, what is in flight for `no` is not too old. */
  lemma NotExpired(all: seq<Event>, k: nat, no: u32)
    requires k < |all| && Prompt(all, k, no) && all[k].Datagram?
    requires Follows(Run(all[..k]).0, Run(all[..k]).1, no, FrameRun.Run(Own(all[..k], no)))
    requires no in Run(all[..k]).0.v4.at
    ensures !Expired(Run(all[..k]).0.v4.at[no], all[k].nowMs)
  {
    hide Run, FrameRun.Run, Own;
    RunDated(all[..k]);
    var i: nat :| Opened(all[..k], i, no, Run(all[..k]).0.v4.at[no].atMs);
    assert all[i] == all[..k][i];
  }

  lemma {:induction false} QuietSpares(pre: seq<Event>, es: seq<Event>, whole: seq<Event>, no: u32)
    requires Quiet(pre, es, no) && es <= whole && |Around(pre, whole, no)| <= MAX_DONE
    ensures AllSpared(pre + es, no) && Few(Run(pre + es).0, no, Around(pre, whole, no))
  {
    hide Spared, Step, Quiet, Few, Follows, Around, Run, FrameRun.Run, Own, Roomy;
    if |es| == 0 {
      assert pre + es == pre;
      QuietStart(pre, es, whole, no);
    } else {
      var front, e := es[..|es| - 1], es[|es| - 1];
      assert pre + es == (pre + front) + [e];
      PromptKeeps(pre, es, no);
      QuietSpares(pre, front, whole, no);
      TableFollowsFrame(pre + front, no);
      QuietStep(pre, es, whole, no);
      SparedSnoc(pre + front, e, no);
      RunSnoc(pre + front, e);
    }
  }

  lemma QuietStart(pre: seq<Event>, es: seq<Event>, whole: seq<Event>, no: u32)
    requires Quiet(pre, es, no) && |Around(pre, whole, no)| <= MAX_DONE
    ensures AllSpared(pre, no) && Few(Run(pre).0, no, Around(pre, whole, no))
  {
    hide Uncrowded, Prompt, Spared;
    UnheardSpared(pre, no);
    RunSafe(pre);
    DoneDistinct(Run(pre).0);
  }

  lemma QuietStep(pre: seq<Event>, es: seq<Event>, whole: seq<Event>, no: u32)
    requires es != [] && Quiet(pre, es, no) && es <= whole
    requires var front := es[..|es| - 1];
      && Few(Run(pre + front).0, no, Around(pre, whole, no))
      && Follows(Run(pre + front).0, Run(pre + front).1, no, FrameRun.Run(Own(pre + front, no)))
    ensures var s, e := Run(pre + es[..|es| - 1]).0, es[|es| - 1];
      Spared(s, e, no) && Few(Step(s, e).0, no, Around(pre, whole, no))
  {
    hide Run, FrameRun.Run, Own, Follows, Few, Spared, Step, Uncrowded, Roomy, Prompt;
    var front, e := es[..|es| - 1], es[|es| - 1];
    var all, k := pre + es, |pre| + |front|;
    assert all[..k] == pre + front && all[k] == e && e in es && e in whole;
    assert Uncrowded(all, k) && Prompt(all, k, no);
    UncrowdedIsRoomy(all, k);
    var s := Run(pre + front).0;
    if e.Datagram? && no in s.v4.at {
      NotExpired(all, k, no);
    }
    assert About(e) in Around(pre, whole, no);
    RoomySpares(s, e, no, Around(pre, whole, no));
    StepRemembers(s, e, no, Around(pre, whole, no));
  }

  lemma {:induction false} OwnAfter(pre: seq<Event>, es: seq<Event>, no: u32)
    requires no !in NumbersOf(pre)
    ensures Own(pre + es, no) == Own(es, no)
  {
    if |es| > 0 {
      assert (pre + es)[..|pre + es| - 1] == pre + es[..|es| - 1];
      OwnAfter(pre, es[..|es| - 1], no);
    } else if |pre| > 0 {
      assert pre + es == pre && pre[|pre| - 1] in pre;
      assert About(pre[|pre| - 1]) in NumbersOf(pre);
      assert forall x | x in pre[..|pre| - 1] :: x in pre;
      OwnAfter(pre[..|pre| - 1], [], no);
      assert pre[..|pre| - 1] + [] == pre[..|pre| - 1];
    }
  }

  /**
   After any run without a trace of a number, in a stretch about fewer than 488 numbers in which no 900 ms see datagrams
   for more than 24, no datagram of any frame comes more than 900 ms after one of its own while it is incomplete, and no
   stream copy of it comes: the table holds and has delivered of it exactly what its own datagrams alone come to.
   */
  lemma QuietFollows(pre: seq<Event>, es: seq<Event>, no: u32)
    requires Quiet(pre, es, no)
    ensures Follows(Run(pre + es).0, Run(pre + es).1, no, FrameRun.Run(Own(es, no)))
  {
    hide Quiet, Follows, Around, Run, FrameRun.Run, Own, Few;
    AroundIsFew(pre, es, no);
    QuietSpares(pre, es, es, no);
    TableFollowsFrame(pre + es, no);
    QuietTraceless(pre, es, no);
  }

  lemma QuietTraceless(pre: seq<Event>, es: seq<Event>, no: u32)
    requires Quiet(pre, es, no)
    ensures Own(pre + es, no) == Own(es, no)
  {
    hide Uncrowded, Prompt, Own;
    OwnAfter(pre, es, no);
  }

  // ---- how long a number stays closed -------------------------------------------------------------------

  lemma LastClosedIsFew(pre: seq<Event>, no: u32, b: set<u32>)
    requires var s := Run(pre).0; |s.done| > 0 && s.done[|s.done| - 1] == no && s.v4.at.Keys + {no} <= b
    requires |b| <= MAX_DONE
    ensures Few(Run(pre).0, no, b)
  {
    hide Run;
    RunSafe(pre);
    DoneDistinct(Run(pre).0);
  }

  lemma {:induction false} StillClosed(pre: seq<Event>, es: seq<Event>, no: u32, b: set<u32>)
    requires Few(Run(pre).0, no, b) && no in Run(pre).0.done && NumbersOf(es) <= b
    requires forall k | |pre| <= k < |pre + es| :: Uncrowded(pre + es, k)
    ensures Few(Run(pre + es).0, no, b) && no in Run(pre + es).0.done
  {
    hide Step, Few, Run, Roomy, Uncrowded;
    if |es| == 0 {
      assert pre + es == pre;
    } else {
      var front, e := es[..|es| - 1], es[|es| - 1];
      var all, less, n := pre + es, pre + front, |pre + front|;
      assert all == less + [e] && all[..n] == less && all[n] == e && e in es;
      assert forall x | x in front :: x in es;
      forall k | |pre| <= k < n ensures Uncrowded(less, k) {
        assert Uncrowded(all, k);
        UncrowdedBefore(all, n, k);
      }
      StillClosed(pre, front, no, b);
      UncrowdedIsRoomy(all, n);
      assert About(e) in NumbersOf(es);
      StepRemembers(Run(less).0, e, no, b);
      RunSnoc(less, e);
    }
  }

  lemma UncrowdedBefore(all: seq<Event>, n: nat, k: nat)
    requires k < n <= |all| && Uncrowded(all, k)
    ensures Uncrowded(all[..n], k)
  {
    var less := all[..n];
    assert forall i | 0 <= i <= k :: less[i] == all[i];
    assert all[k].Datagram? ==> Recent(less, k) == Recent(all, k);
  }

  /** A number just closed, by completion, by age or by its stream copy, is turned away through any stretch about fewer
      than 488 numbers in which no 900 ms see datagrams for more than 24. */
  lemma ClosedStays(pre: seq<Event>, es: seq<Event>, no: u32)
    requires var done := Run(pre).0.done; |done| > 0 && done[|done| - 1] == no
    requires |NumbersOf(es)| < 488
    requires forall k | |pre| <= k < |pre + es| :: Uncrowded(pre + es, k)
    ensures no in Run(pre + es).0.done
    ensures forall f: WtFragment, nowMs: real | f.frameNo == no ::
      Offer(Run(pre + es).0, f, nowMs) == (Run(pre + es).0, [])
  {
    hide Run, NumbersOf, Uncrowded, Few;
    var s := Run(pre).0;
    var b := s.v4.at.Keys + NumbersOf(es) + {no};
    RunSafe(pre);
    ApartParts(s.v4, s.done);
    KeysSize(s.v4);
    UnionSize(s.v4.at.Keys, NumbersOf(es));
    UnionSize(s.v4.at.Keys + NumbersOf(es), {no});
    LastClosedIsFew(pre, no, b);
    StillClosed(pre, es, no, b);
  }
}
