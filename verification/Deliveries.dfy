/**
 What the receiver's short memories are worth: a frame is delivered again, or asked for
 whole again, only after as many others as the memory holds.
 */
module Deliveries {
  import opened Bytes
  import opened InsertionOrder
  import opened Wire
  import opened Assembly
  import opened FrameTable
  import opened TableSafety

  // ---- a set that forgets its oldest ------------------------------------------------------

  function Latest(log: seq<u32>, cap: nat): seq<u32> {
    if |log| <= cap then log else log[|log| - cap..]
  }

  /** The same number comes again only with at least `cap` others in between. */
  ghost predicate Spaced(log: seq<u32>, cap: nat) {
    forall i, j | 0 <= i < j < |log| && log[i] == log[j] :: j - i > cap
  }

  /** Taking only what is not among the last `cap` taken keeps repeats apart. */
  lemma Push(log: seq<u32>, cap: nat, no: u32)
    requires Spaced(log, cap) && no !in Latest(log, cap)
    ensures Spaced(log + [no], cap)
    ensures Latest(log + [no], cap) == Trim(Latest(log, cap) + [no], cap)
  {
    var all, kept := log + [no], Latest(log, cap);
    forall i | 0 <= i < |log| && |log| - cap <= i ensures log[i] in kept {
      assert kept[i - (|log| - |kept|)] == log[i];
    }
    assert forall i | 0 <= i < |log| && |log| - cap <= i :: log[i] != no;
  }

  // ---- the log's two projections ------------------------------------------------------------

  /** The number of a delivery, or of a whole-frame request. */
  function Picked(o: Output, whole: bool): Option<u32> {
    if whole then (if o.AskWhole? then Some(o.no) else None)
    else if o.Deliver? then Some(o.frame.frameNo) else None
  }

  function Numbers(log: seq<Output>, whole: bool): seq<u32> {
    if |log| == 0 then []
    else
      var p := Picked(log[|log| - 1], whole);
      Numbers(log[..|log| - 1], whole) + (if p.Some? then [p.value] else [])
  }

  lemma {:induction false} NumbersAppend(a: seq<Output>, b: seq<Output>, whole: bool)
    ensures Numbers(a + b, whole) == Numbers(a, whole) + Numbers(b, whole)
  {
    if |b| == 0 {
      assert a + b == a;
    } else {
      NumbersAppend(a, b[..|b| - 1], whole);
      assert (a + b)[..|a + b| - 1] == a + b[..|b| - 1];
    }
  }

  lemma {:induction false} NumbersNone(out: seq<Output>, whole: bool)
    requires forall o | o in out :: Picked(o, whole).None?
    ensures Numbers(out, whole) == []
  {
    if |out| > 0 {
      NumbersNone(out[..|out| - 1], whole);
    }
  }

  lemma NumbersOne(o: Output, whole: bool)
    ensures Numbers([o], whole) == if Picked(o, whole).Some? then [Picked(o, whole).value] else []
    ensures Numbers([], whole) == []
  {
    assert [o][..0] == [];
  }

  // ---- deliveries ------------------------------------------------------------------------------

  /** Frames of one number all carry one capture time. */
  ghost predicate Consistent(e: Event, captureOf: u32 -> nat) {
    match e
    case Datagram(f, _, _) => f.captureUs == captureOf(f.frameNo)
    case StreamFrame(frame) => frame.captureUs == captureOf(frame.frameNo)
  }

  ghost predicate Captured(v4: Table<AsmState>, captureOf: u32 -> nat) {
    forall no | no in v4.at :: v4.at[no].captureUs == captureOf(no)
  }

  /** The memory of deliveries is exactly the last 512 of them. */
  ghost predicate Recalls(delivered: Table<nat>, log: seq<u32>, captureOf: u32 -> nat) {
    && delivered.Valid()
    && delivered.order == Latest(log, MAX_DELIVERED)
    && Spaced(log, MAX_DELIVERED)
    && forall no | no in delivered.at :: delivered.at[no] == captureOf(no)
  }

  lemma RememberOrder(delivered: Table<nat>, no: u32, captureUs: nat)
    requires delivered.Valid() && no !in delivered.at
    ensures Remember(delivered, no, captureUs).Valid()
    ensures Remember(delivered, no, captureUs).order == Trim(delivered.order + [no], MAX_DELIVERED)
    ensures forall k | k in Remember(delivered, no, captureUs).at ::
      if k == no then Remember(delivered, no, captureUs).at[k] == captureUs
      else k in delivered.at && Remember(delivered, no, captureUs).at[k] == delivered.at[k]
  {
    var t := delivered.Set(no, captureUs);
    assert t.order == delivered.order + [no];
    if t.Size() > MAX_DELIVERED {
      assert Without(t.order, t.order[0]) == t.order[1..];
    }
  }

  lemma FirstDeliveryRecalls(s: State, f: WtFrame, log: seq<u32>, captureOf: u32 -> nat)
    requires Recalls(s.delivered, log, captureOf) && f.captureUs == captureOf(f.frameNo)
    ensures var (t, out) := FirstDelivery(s, f);
      Recalls(t.delivered, log + Numbers(out, false), captureOf)
  {
    hide Remember, Spaced;
    NumbersOne(Deliver(f), false);
    if f.frameNo in s.delivered.at {
      assert log + [] == log;
    } else {
      assert f.frameNo !in s.delivered.order;
      Push(log, MAX_DELIVERED, f.frameNo);
      RememberOrder(s.delivered, f.frameNo, f.captureUs);
    }
  }

  /** Nothing delivered, and no assembly's capture time touched. */
  ghost predicate Silent(s: State, t: State, out: seq<Output>) {
    && t.delivered == s.delivered
    && Numbers(out, false) == []
    && forall no | no in t.v4.at :: no in s.v4.at && t.v4.at[no].captureUs == s.v4.at[no].captureUs
  }

  lemma ScanOneSilent(s: State, no: u32, nowMs: real, t: Timing)
    requires Shaped(s.v4)
    ensures Silent(s, ScanOne(s, no, nowMs, t).0, ScanOne(s, no, nowMs, t).1)
  {
    hide Close, Round, Numbers, Shaped;
    NumbersNone(ScanOne(s, no, nowMs, t).1, false);
  }

  lemma SilentJoin(s: State, t: State, u: State, a: seq<Output>, b: seq<Output>)
    requires Silent(s, t, a) && Silent(t, u, b)
    ensures Silent(s, u, a + b)
  {
    NumbersAppend(a, b, false);
  }

  lemma {:induction false} ScanSilent(s: State, keys: seq<u32>, nowMs: real, t: Timing)
    requires Shaped(s.v4)
    ensures Silent(s, Scan(s, keys, nowMs, t).0, Scan(s, keys, nowMs, t).1)
  {
    hide ScanOne;
    if |keys| > 0 {
      var front := keys[..|keys| - 1];
      var (u, out) := Scan(s, front, nowMs, t);
      var (w, more) := ScanOne(u, keys[|keys| - 1], nowMs, t);
      ScanSilent(s, front, nowMs, t);
      ScanOneSilent(u, keys[|keys| - 1], nowMs, t);
      SilentJoin(s, u, w, out, more);
    }
  }

  lemma SkippedSilent(s: State, no: u32)
    ensures Silent(s, NackSkipped(s, no).0, NackSkipped(s, no).1)
  {
    hide AskSkipped, Numbers;
    SkippedOnlyAsksWhole(s, no);
    NumbersNone(NackSkipped(s, no).1, false);
  }

  lemma OpenSilent(s: State, f: WtFragment, nowMs: real, captureOf: u32 -> nat)
    requires Shaped(s.v4)
    requires Captured(s.v4, captureOf) && f.captureUs == captureOf(f.frameNo)
    ensures var (t, out) := Open(s, f, nowMs);
      t.delivered == s.delivered && Numbers(out, false) == [] && Captured(t.v4, captureOf)
  {
    hide Victim, Lowest, Shaped, Numbers;
    NumbersNone(Open(s, f, nowMs).1, false);
  }

  ghost predicate Remembering(s: State, log: seq<u32>, captureOf: u32 -> nat) {
    Captured(s.v4, captureOf) && Recalls(s.delivered, log, captureOf)
  }

  lemma StoreRemembers(s: State, f: WtFragment, log: seq<u32>, captureOf: u32 -> nat)
    requires Shaped(s.v4)
    requires Remembering(s, log, captureOf)
    ensures var (t, out) := Store(s, f); Remembering(t, log + Numbers(out, false), captureOf)
  {
    hide Absorb, Payload, Close, Complete, Recalls, FirstDelivery, Numbers;
    NumbersNone([], false);
    assert log + [] == log;
    if f.frameNo in s.v4.at {
      match Absorb(s.v4.at[f.frameNo], f)
      case None =>
      case Some(st) =>
        if Complete(st) {
          var frame := WtFrame(f.frameNo, st.captureUs, st.key, Payload(st));
          FirstDeliveryRecalls(Abandon(s, f.frameNo), frame, log, captureOf);
          FirstDeliveryTable(Abandon(s, f.frameNo), frame);
        }
    }
  }

  lemma FirstDeliveryTable(s: State, f: WtFrame)
    ensures FirstDelivery(s, f).0 == s.(delivered := FirstDelivery(s, f).0.delivered)
  {}

  lemma DatagramRemembers(s: State, f: WtFragment, nowMs: real, rttMs: real, log: seq<u32>, captureOf: u32 -> nat)
    requires Shaped(s.v4)
    requires Remembering(s, log, captureOf) && f.captureUs == captureOf(f.frameNo)
    ensures var (t, out) := OnDatagram(s, f, nowMs, rttMs);
      Remembering(t, log + Numbers(out, false), captureOf)
  {
    hide NackSkipped, Scan, Open, Store, Recalls, Shaped, Numbers;
    var (t, whole) := NackSkipped(s, f.frameNo);
    SkippedSilent(s, f.frameNo);
    assert log + [] == log;
    if f.frameNo !in t.done {
      var (u, asked) := Scan(t, t.v4.order, nowMs, NackTiming(rttMs));
      ScanSilent(t, t.v4.order, nowMs, NackTiming(rttMs));
      SilentJoin(s, t, u, whole, asked);
      if f.frameNo in u.done {
        assert (whole + asked) + [] == whole + asked;
      } else {
        var (v, room) := Open(u, f, nowMs);
        OpenSilent(u, f, nowMs, captureOf);
        StoreRemembers(v, f, log, captureOf);
        var out := Store(v, f).1;
        NumbersAppend(room, out, false);
        NumbersAppend(whole + asked, room + out, false);
        assert [] + Numbers(out, false) == Numbers(out, false);
      }
    }
  }

  lemma StreamRemembers(s: State, f: WtFrame, log: seq<u32>, captureOf: u32 -> nat)
    requires Shaped(s.v4)
    requires Remembering(s, log, captureOf) && f.captureUs == captureOf(f.frameNo)
    ensures var (t, out) := OnStreamFrame(s, f);
      Remembering(t, log + Numbers(out, false), captureOf)
  {
    hide Close, Recalls, Shaped, FirstDelivery, Numbers;
    FirstDeliveryRecalls(s, f, log, captureOf);
    FirstDeliveryTable(s, f);
  }

  /**
   One delivery across carriers: on every run in which no number is reused with another capture time, however the
   copies of a frame travel, two deliveries of one number have at least 512 other deliveries between them.
   */
  lemma {:induction false} DeliveriesAreSpaced(es: seq<Event>, captureOf: u32 -> nat)
    requires forall e | e in es :: Consistent(e, captureOf)
    ensures Remembering(Run(es).0, Numbers(Run(es).1, false), captureOf)
    ensures Spaced(Numbers(Run(es).1, false), 512)
  {
    hide OnDatagram, OnStreamFrame;
    if |es| > 0 {
      var front, e := es[..|es| - 1], es[|es| - 1];
      DeliveriesAreSpaced(front, captureOf);
      var (s, log) := Run(front);
      NumbersAppend(log, Step(s, e).1, false);
      hide Remembering;
      assert e in es && Consistent(e, captureOf);
      match e
      case Datagram(f, nowMs, rttMs) => DatagramRemembers(s, f, nowMs, rttMs, Numbers(log, false), captureOf);
      case StreamFrame(frame) => StreamRemembers(s, frame, Numbers(log, false), captureOf);
      StillSpaced(Step(s, e).0, Numbers(log + Step(s, e).1, false), captureOf);
    }
  }

  lemma StillSpaced(s: State, log: seq<u32>, captureOf: u32 -> nat)
    requires Remembering(s, log, captureOf)
    ensures Spaced(log, 512)
  {}

  // ---- what is remembered was delivered ------------------------------------------------------

  ghost predicate InLog(log: seq<Output>, no: u32, captureUs: nat) {
    exists o :: o in log && o.Deliver? && o.frame.frameNo == no && o.frame.captureUs == captureUs
  }

  lemma InLogGrows(log: seq<Output>, out: seq<Output>, no: u32, captureUs: nat)
    requires InLog(log, no, captureUs) || InLog(out, no, captureUs)
    ensures InLog(log + out, no, captureUs)
  {
    if InLog(log, no, captureUs) {
      var o :| o in log && o.Deliver? && o.frame.frameNo == no && o.frame.captureUs == captureUs;
      assert o in log + out;
    } else {
      var o :| o in out && o.Deliver? && o.frame.frameNo == no && o.frame.captureUs == captureUs;
      assert o in log + out;
    }
  }

  /** All that is remembered after was remembered before or is handed over now. */
  ghost predicate Logs(before: Table<nat>, after: Table<nat>, out: seq<Output>) {
    forall no | no in after.at ::
      (no in before.at && before.at[no] == after.at[no]) || InLog(out, no, after.at[no])
  }

  lemma FirstDeliveryLogs(s: State, f: WtFrame)
    ensures var (t, out) := FirstDelivery(s, f);
      && Logs(s.delivered, t.delivered, out)
      && ((f.frameNo in s.delivered.at && s.delivered.at[f.frameNo] == f.captureUs)
          || InLog(out, f.frameNo, f.captureUs))
  {
    var o := Deliver(f);
    assert o in [o];
  }

  lemma StoreLogs(s: State, f: WtFragment)
    requires Shaped(s.v4)
    ensures Logs(s.delivered, Store(s, f).0.delivered, Store(s, f).1)
  {
    hide FirstDelivery, InLog, Absorb, Complete, Payload, Close;
    if f.frameNo in s.v4.at && Absorb(s.v4.at[f.frameNo], f).Some? {
      var st := Absorb(s.v4.at[f.frameNo], f).value;
      FirstDeliveryLogs(Abandon(s, f.frameNo), WtFrame(f.frameNo, st.captureUs, st.key, Payload(st)));
    }
  }

  lemma OpenKeepsDelivered(s: State, f: WtFragment, nowMs: real)
    requires Shaped(s.v4)
    ensures Open(s, f, nowMs).0.delivered == s.delivered
  {
    hide Victim, Lowest;
  }

  lemma LogsBehind(before: Table<nat>, after: Table<nat>, log: seq<Output>, out: seq<Output>)
    requires Logs(before, after, out)
    ensures Logs(before, after, log + out)
  {
    hide InLog;
    forall no | no in after.at && InLog(out, no, after.at[no]) ensures InLog(log + out, no, after.at[no]) {
      InLogGrows(log, out, no, after.at[no]);
    }
  }

  lemma SameLogs(t: Table<nat>, out: seq<Output>)
    ensures Logs(t, t, out)
  {}

  lemma StepLogs(s: State, e: Event)
    requires Shaped(s.v4)
    ensures var (t, out) := Step(s, e);
      && Logs(s.delivered, t.delivered, out)
      && (e.StreamFrame? ==>
            var f := e.frame;
            (f.frameNo in s.delivered.at && s.delivered.at[f.frameNo] == f.captureUs)
            || InLog(out, f.frameNo, f.captureUs))
  {
    hide FirstDelivery, InLog, Logs, NackSkipped, Scan, Open, Store, Shaped, Close;
    SameLogs(s.delivered, Step(s, e).1);
    match e
    case StreamFrame(frame) => FirstDeliveryLogs(s, frame);
    case Datagram(f, nowMs, rttMs) =>
      var (t, whole) := NackSkipped(s, f.frameNo);
      SkippedKeepsTable(s, f.frameNo);
      if f.frameNo !in t.done {
        var (u, asked) := Scan(t, t.v4.order, nowMs, NackTiming(rttMs));
        if f.frameNo !in u.done {
          var (w, room) := Open(u, f, nowMs);
          OpenKeepsDelivered(u, f, nowMs);
          StoreLogs(w, f);
          var (x, out) := Store(w, f);
          LogsBehind(s.delivered, x.delivered, room, out);
          LogsBehind(s.delivered, x.delivered, whole + asked, room + out);
        }
      }
  }

  /** Every frame the receiver remembers, and every one the stream has brought, it has delivered, and with that capture
      time: a number used again by a restarted host is not mistaken for a copy. */
  lemma {:induction false} RememberedIsLogged(es: seq<Event>)
    ensures forall no | no in Run(es).0.delivered.at :: InLog(Run(es).1, no, Run(es).0.delivered.at[no])
    ensures forall e | e in es && e.StreamFrame? :: InLog(Run(es).1, e.frame.frameNo, e.frame.captureUs)
  {
    hide Step, InLog;
    if |es| > 0 {
      var front, e := es[..|es| - 1], es[|es| - 1];
      RememberedIsLogged(front);
      var (s, log) := Run(front);
      StepLogs(s, e);
      var out := Step(s, e).1;
      forall no, c | InLog(log, no, c) || InLog(out, no, c) ensures InLog(log + out, no, c) {
        InLogGrows(log, out, no, c);
      }
      assert forall x | x in es :: x in front || x == e;
    }
  }

  // ---- whole-frame requests ------------------------------------------------------------------

  ghost predicate RecallsWhole(memory: seq<u32>, log: seq<u32>) {
    memory == Latest(log, MAX_WHOLE_NACKED) && Spaced(log, MAX_WHOLE_NACKED)
  }

  lemma {:induction false} SkippedRecalls(s: State, last: u32, k: nat, log: seq<u32>)
    requires RecallsWhole(s.wholeNacked, log)
    ensures var (t, out) := AskSkipped(s, last, k);
      RecallsWhole(t.wholeNacked, log + Numbers(out, true))
  {
    hide Spaced, Plus, Traced, RecallsWhole, AskWholeFrame;
    if k == 0 {
      assert log + [] == log;
    } else {
      SkippedRecalls(s, last, k - 1, log);
      var (t, out) := AskSkipped(s, last, k - 1);
      OneRecalls(t, Plus(last, k), log + Numbers(out, true));
      var more := AskWholeFrame(t, Plus(last, k)).1;
      NumbersAppend(out, more, true);
      assert log + (Numbers(out, true) + Numbers(more, true)) == log + Numbers(out, true) + Numbers(more, true);
    }
  }

  lemma OneRecalls(s: State, no: u32, log: seq<u32>)
    requires RecallsWhole(s.wholeNacked, log)
    ensures var (t, out) := AskWholeFrame(s, no);
      RecallsWhole(t.wholeNacked, log + Numbers(out, true))
  {
    hide Spaced, Numbers;
    NumbersOne(AskWhole(no), true);
    assert log + [] == log;
    if !Traced(s, no) {
      Push(log, MAX_WHOLE_NACKED, no);
    }
  }

  ghost predicate NoWhole(s: State, t: State, out: seq<Output>) {
    t.wholeNacked == s.wholeNacked && forall o | o in out :: !o.AskWhole?
  }

  lemma {:induction false} ScanNoWhole(s: State, keys: seq<u32>, nowMs: real, t: Timing)
    requires Shaped(s.v4)
    ensures NoWhole(s, Scan(s, keys, nowMs, t).0, Scan(s, keys, nowMs, t).1)
  {
    hide Round, Close, Shaped;
    if |keys| > 0 {
      ScanNoWhole(s, keys[..|keys| - 1], nowMs, t);
    }
  }

  lemma OfferNoWhole(s: State, f: WtFragment, nowMs: real)
    requires Shaped(s.v4)
    ensures NoWhole(s, Offer(s, f, nowMs).0, Offer(s, f, nowMs).1)
  {
    hide Victim, Lowest, Absorb, Close, Remember, Shaped, Payload, Complete;
  }

  lemma StepRecallsWhole(s: State, e: Event, log: seq<u32>)
    requires Shaped(s.v4)
    requires RecallsWhole(s.wholeNacked, log)
    ensures RecallsWhole(Step(s, e).0.wholeNacked, log + Numbers(Step(s, e).1, true))
  {
    hide RecallsWhole, NackSkipped, Scan, Offer, Shaped, Numbers, Close, Remember;
    assert log + [] == log;
    match e
    case StreamFrame(frame) => NumbersNone(Step(s, e).1, true);
    case Datagram(f, nowMs, rttMs) =>
      var (t, whole) := NackSkipped(s, f.frameNo);
      NackRecalls(s, f.frameNo, log);
      if f.frameNo !in t.done {
        var (u, asked) := Scan(t, t.v4.order, nowMs, NackTiming(rttMs));
        ScanNoWhole(t, t.v4.order, nowMs, NackTiming(rttMs));
        OfferNoWhole(u, f, nowMs);
        var out := Offer(u, f, nowMs).1;
        NumbersAppend(whole, asked, true);
        NumbersAppend(whole + asked, out, true);
        NumbersNone(asked, true);
        NumbersNone(out, true);
        assert Numbers(whole, true) + [] == Numbers(whole, true);
      }
  }

  lemma NackRecalls(s: State, no: u32, log: seq<u32>)
    requires RecallsWhole(s.wholeNacked, log)
    ensures var (t, out) := NackSkipped(s, no);
      RecallsWhole(t.wholeNacked, log + Numbers(out, true))
  {
    hide AskSkipped, RecallsWhole;
    assert log + [] == log;
    if s.highest.Some? && Ahead(no, s.highest.value) >= 1 {
      SkippedRecalls(s.(highest := Some(no)), s.highest.value, Ahead(no, s.highest.value) - 1, log);
    }
  }

  /** On every run, a frame is asked for whole a second time only after 256 whole-frame requests for others. */
  lemma {:induction false} WholeRequestsAreSpaced(es: seq<Event>)
    ensures RecallsWhole(Run(es).0.wholeNacked, Numbers(Run(es).1, true))
    ensures Spaced(Numbers(Run(es).1, true), 256)
  {
    hide Step;
    if |es| > 0 {
      var front, e := es[..|es| - 1], es[|es| - 1];
      WholeRequestsAreSpaced(front);
      var (s, log) := Run(front);
      NumbersAppend(log, Step(s, e).1, true);
      StepRecallsWhole(s, e, Numbers(log, true));
    }
  }
}
