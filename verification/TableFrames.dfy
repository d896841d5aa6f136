/**
 One frame among many: while the table neither expires nor evicts it, what it holds for a
 number is what that number's own datagrams make of a frame by themselves.
 */
module TableFrames {
  import opened Bytes
  import opened InsertionOrder
  import opened Parity
  import opened Wire
  import opened Assembly
  import FrameRun
  import opened FrameTable
  import opened TableSafety

  // ---- asking changes nothing that repair looks at -------------------------------------

  lemma SameLength(a: AsmState, b: AsmState)
    requires |a.parts| == a.cnt && SameParts(a, b)
    ensures FinalLength(a) == FinalLength(b)
  {
    hide FirstPresent;
  }

  lemma SameRebuilds(a: AsmState, b: AsmState, g: nat, m: nat)
    requires |a.parts| == a.cnt && SameParts(a, b) && g < GroupCount(a.cnt)
    ensures g in a.p1 ==> RebuildOne(a, g, m) == RebuildOne(b, g, m)
    ensures g in a.p2 ==> RebuildOdd(a, g, m) == RebuildOdd(b, g, m)
    ensures g in a.p1 && g in a.p2 ==> RebuildEven(a, g, m) == RebuildEven(b, g, m)
  {
    hide Accumulate, XorBytes, Members, Odds, Evens;
  }

  lemma SamePlan(a: AsmState, b: AsmState, g: nat)
    requires |a.parts| == a.cnt && SameParts(a, b) && g < GroupCount(a.cnt)
    ensures PlanGroup(a, g) == PlanGroup(b, g)
  {
    hide RebuildOne, RebuildOdd, RebuildEven, FinalLength, Truncate, Holes;
    SameLength(a, b);
    forall m: nat
      ensures g in a.p1 ==> RebuildOne(a, g, m) == RebuildOne(b, g, m)
      ensures g in a.p2 ==> RebuildOdd(a, g, m) == RebuildOdd(b, g, m)
      ensures g in a.p1 && g in a.p2 ==> RebuildEven(a, g, m) == RebuildEven(b, g, m)
    {
      SameRebuilds(a, b, g, m);
    }
  }

  lemma {:induction false} SameRepair(a: AsmState, b: AsmState, n: nat)
    requires |a.parts| == a.cnt && SameParts(a, b) && n <= GroupCount(a.cnt)
    ensures SameParts(RepairTo(a, n), RepairTo(b, n))
  {
    hide PlanGroup;
    if n > 0 {
      SameRepair(a, b, n - 1);
      SamePlan(RepairTo(a, n - 1), RepairTo(b, n - 1), n - 1);
    }
  }

  lemma SameAbsorb(a: AsmState, b: AsmState, f: WtFragment)
    requires |a.parts| == a.cnt && SameParts(a, b)
    ensures Absorb(a, f).Some? <==> Absorb(b, f).Some?
    ensures Absorb(a, f).Some? ==> SameParts(Absorb(a, f).value, Absorb(b, f).value)
  {
    hide RepairTo, TrailerTotal;
    if f.parity != 0 {
      if |f.payload| >= TRAILER {
        var row := f.payload[..|f.payload| - TRAILER];
        var x, y := a.(total := Some(TrailerTotal(f.payload))), b.(total := Some(TrailerTotal(f.payload)));
        SameRepair(if f.parity == 1 then x.(p1 := a.p1[f.idx := row]) else x.(p2 := a.p2[f.idx := row]),
                   if f.parity == 1 then y.(p1 := b.p1[f.idx := row]) else y.(p2 := b.p2[f.idx := row]),
                   GroupCount(a.cnt));
      }
    } else if f.idx < a.cnt {
      SameRepair(Fill(a, f.idx, f.payload), Fill(b, f.idx, f.payload), GroupCount(a.cnt));
    }
  }

  // ---- a number's own datagrams -------------------------------------------------------------

  function Own(es: seq<Event>, no: u32): seq<FrameRun.Arrival> {
    if |es| == 0 then []
    else
      var e := es[|es| - 1];
      Own(es[..|es| - 1], no)
      + (if e.Datagram? && e.f.frameNo == no then [FrameRun.Arrival(e.f, e.nowMs)] else [])
  }

  /** The event does not expire `no`, evict it, hand it over on the other carrier, or forget that it is closed. */
  ghost predicate Spared(s: State, e: Event, no: u32)
    requires Shaped(s.v4)
  {
    && (no in s.done ==> no in Step(s, e).0.done)
    && match e
       case StreamFrame(frame) => frame.frameNo != no
       case Datagram(f, nowMs, rttMs) =>
         && (no in s.v4.at ==> !Expired(s.v4.at[no], nowMs))
         && var t := NackSkipped(s, f.frameNo).0;
            var u := Scan(t, t.v4.order, nowMs, NackTiming(rttMs)).0;
            f.frameNo !in u.done && (no in u.v4.at || f.frameNo == no) ==> no in Open(u, f, nowMs).0.v4.at
  }

  /** The table holds for `no` what its datagrams alone come to. */
  ghost predicate Follows(s: State, log: seq<Output>, no: u32, p: FrameRun.Progress) {
    match p
    case Idle => no !in s.v4.at && no !in s.done && no !in s.delivered.at
    case Open(st) => no in s.v4.at && no !in s.delivered.at && |st.parts| == st.cnt && SameParts(st, s.v4.at[no])
    case Done(payload) =>
      && no !in s.v4.at && no in s.done
      && exists o :: o in log && o.Deliver? && o.frame.frameNo == no && o.frame.payload == payload
  }

  // ---- what each stage does to a number ---------------------------------------------------------

  /** Neither in flight nor closed, before and after. */
  ghost predicate Untouched(s: State, t: State, no: u32) {
    && (no !in s.v4.at ==> no !in t.v4.at && (no !in s.done ==> no !in t.done))
    && (no !in s.delivered.at ==> no !in t.delivered.at)
  }

  lemma CloseOthers(done: seq<u32>, x: u32, no: u32)
    requires no !in done && x != no
    ensures no !in Close(done, x) && no !in Add(done, x)
  {}

  lemma {:induction false} ScanUntouched(s: State, keys: seq<u32>, nowMs: real, t: Timing, no: u32)
    requires Shaped(s.v4)
    ensures Untouched(s, Scan(s, keys, nowMs, t).0, no)
  {
    hide Shaped, Close, Round;
    if |keys| > 0 {
      var front, last := keys[..|keys| - 1], keys[|keys| - 1];
      ScanUntouched(s, front, nowMs, t, no);
      var u := Scan(s, front, nowMs, t).0;
      if no !in u.done && last != no {
        CloseOthers(u.done, last, no);
      }
    }
  }

  lemma OpenUntouched(s: State, f: WtFragment, nowMs: real, no: u32)
    requires Shaped(s.v4) && f.frameNo != no
    ensures Untouched(s, Open(s, f, nowMs).0, no)
    ensures no in Open(s, f, nowMs).0.v4.at ==> Open(s, f, nowMs).0.v4.at[no] == s.v4.at[no]
  {
    hide Shaped, Lowest;
    ShapedSet(s.v4, f.frameNo, NewState(f, nowMs));
    var v4 := s.v4.Set(f.frameNo, NewState(f, nowMs));
    if f.frameNo !in s.v4.at && v4.Size() > MAX_IN_FLIGHT {
      ShapedValid(v4);
      VictimIsHeld(v4, f.frameNo, f.key);
    }
  }

  lemma ShapedValid(v4: Table<AsmState>)
    requires Shaped(v4)
    ensures v4.Valid()
  {}

  lemma RememberOthers(delivered: Table<nat>, x: u32, captureUs: nat, no: u32)
    requires no !in delivered.at && x != no
    ensures no !in Remember(delivered, x, captureUs).at
  {}

  lemma StoreUntouched(s: State, f: WtFragment, no: u32)
    requires Shaped(s.v4) && f.frameNo != no
    ensures Untouched(s, Store(s, f).0, no)
    ensures (no in s.v4.at <==> no in Store(s, f).0.v4.at)
    ensures no in s.v4.at ==> Store(s, f).0.v4.at[no] == s.v4.at[no]
  {
    hide Absorb, Payload, Complete, Close, Remember;
    if no !in s.done {
      CloseOthers(s.done, f.frameNo, no);
    }
    if f.frameNo in s.v4.at && Absorb(s.v4.at[f.frameNo], f).Some? && no !in s.delivered.at {
      RememberOthers(s.delivered, f.frameNo, Absorb(s.v4.at[f.frameNo], f).value.captureUs, no);
    }
  }

  lemma LogGrows(s: State, log: seq<Output>, out: seq<Output>, no: u32, p: FrameRun.Progress)
    requires Follows(s, log, no, p)
    ensures Follows(s, log + out, no, p)
  {}

  // ---- one event ------------------------------------------------------------------------------------

  lemma StreamFollows(s: State, log: seq<Output>, frame: WtFrame, no: u32, p: FrameRun.Progress)
    requires Shaped(s.v4) && Follows(s, log, no, p) && frame.frameNo != no
    requires no in s.done ==> no in OnStreamFrame(s, frame).0.done
    ensures Follows(OnStreamFrame(s, frame).0, log + OnStreamFrame(s, frame).1, no, p)
  {
    hide Close, Remember;
    if no !in s.done {
      CloseOthers(s.done, frame.frameNo, no);
    }
    if no !in s.delivered.at {
      RememberOthers(s.delivered, frame.frameNo, frame.captureUs, no);
    }
    LogGrows(s, log, OnStreamFrame(s, frame).1, no, p);
  }

  lemma OtherFollows(s: State, log: seq<Output>, f: WtFragment, nowMs: real, rttMs: real, no: u32, p: FrameRun.Progress)
    requires Shaped(s.v4) && Inv(s) && Follows(s, log, no, p) && f.frameNo != no
    requires Spared(s, Datagram(f, nowMs, rttMs), no)
    ensures var (t, out) := OnDatagram(s, f, nowMs, rttMs); Follows(t, log + out, no, p)
  {
    hide Shaped, NackSkipped, Scan, Open, Store, Inv;
    SkippedKeepsTable(s, f.frameNo);
    ApartInv(s);
    var t := NackSkipped(s, f.frameNo).0;
    var (end, out) := OnDatagram(s, f, nowMs, rttMs);
    LogGrows(s, log, out, no, p);
    if f.frameNo !in t.done {
      var u := Scan(t, t.v4.order, nowMs, NackTiming(rttMs)).0;
      ScanExpires(t, t.v4.order, nowMs, NackTiming(rttMs), no);
      ScanUntouched(t, t.v4.order, nowMs, NackTiming(rttMs), no);
      if f.frameNo !in u.done {
        OpenUntouched(u, f, nowMs, no);
        StoreUntouched(Open(u, f, nowMs).0, f, no);
      }
    }
  }

  /** The assembly a number's next datagram is offered to. */
  function Before(p: FrameRun.Progress, f: WtFragment, nowMs: real): AsmState
    requires !p.Done?
  {
    if p.Idle? then NewState(f, nowMs) else p.st
  }

  lemma StoreFollows(s: State, log: seq<Output>, before: seq<Output>, f: WtFragment, st: AsmState)
    requires Shaped(s.v4) && f.frameNo in s.v4.at && f.frameNo !in s.delivered.at && f.frameNo !in s.done
    requires |st.parts| == st.cnt && SameParts(st, s.v4.at[f.frameNo])
    ensures var (t, out) := Store(s, f);
      Follows(t, log + (before + out), f.frameNo, FrameRun.Settle(st, f))
  {
    hide Absorb, Remember, Close;
    var held := s.v4.at[f.frameNo];
    SameAbsorb(st, held, f);
    CloseIn(s.done, f.frameNo);
    if Absorb(held, f).Some? {
      var got := Absorb(held, f).value;
      if Complete(got) {
        var o := Deliver(WtFrame(f.frameNo, got.captureUs, got.key, Payload(got)));
        assert Store(s, f).1 == [o] && o in log + (before + [o]);
      }
    }
  }

  lemma OpenHolds(s: State, f: WtFragment, nowMs: real)
    requires Shaped(s.v4) && f.frameNo in Open(s, f, nowMs).0.v4.at && f.frameNo !in s.done
    ensures var w := Open(s, f, nowMs).0;
      && w.v4.at[f.frameNo] == (if f.frameNo in s.v4.at then s.v4.at[f.frameNo] else NewState(f, nowMs))
      && w.delivered == s.delivered && f.frameNo !in w.done
  {
    hide Shaped, Victim, Lowest;
  }

  lemma OwnFollows(s: State, log: seq<Output>, f: WtFragment, nowMs: real, rttMs: real, p: FrameRun.Progress)
    requires Shaped(s.v4) && Inv(s) && Follows(s, log, f.frameNo, p) && !p.Done?
    requires Spared(s, Datagram(f, nowMs, rttMs), f.frameNo)
    ensures var (t, out) := OnDatagram(s, f, nowMs, rttMs);
      Follows(t, log + out, f.frameNo, FrameRun.Settle(Before(p, f, nowMs), f))
  {
    hide Shaped, NackSkipped, Scan, Open, Store, Inv, FrameRun.Settle;
    var no := f.frameNo;
    SkippedKeepsTable(s, no);
    ApartInv(s);
    NotClosed(s, no);
    var (t, whole) := NackSkipped(s, no);
    var (u, asked) := Scan(t, t.v4.order, nowMs, NackTiming(rttMs));
    ScanExpires(t, t.v4.order, nowMs, NackTiming(rttMs), no);
    ScanUntouched(t, t.v4.order, nowMs, NackTiming(rttMs), no);
    NackSkippedSafe(s, no);
    ScanSafe(t, t.v4.order, nowMs, NackTiming(rttMs));
    NotClosed(u, no);
    var (w, room) := Open(u, f, nowMs);
    OpenHolds(u, f, nowMs);
    StoreFollows(w, log, whole + asked + room, f, Before(p, f, nowMs));
    var out := Store(w, f).1;
    Regroup(whole + asked, room, out);
  }

  lemma NotClosed(s: State, no: u32)
    requires Inv(s)
    ensures no in s.v4.at ==> no !in s.done
  {}

  lemma StepFollows(s: State, log: seq<Output>, e: Event, no: u32, p: FrameRun.Progress)
    requires p.Open? ==> |p.st.parts| == p.st.cnt
    requires Shaped(s.v4) && Inv(s) && Follows(s, log, no, p) && Spared(s, e, no)
    ensures Follows(Step(s, e).0, log + Step(s, e).1, no,
                    if e.Datagram? && e.f.frameNo == no then FrameRun.Receive(p, FrameRun.Arrival(e.f, e.nowMs)) else p)
  {
    hide OnDatagram, OnStreamFrame, Inv, FrameRun.Settle, Follows;
    match e
    case StreamFrame(frame) =>
      SparedStream(s, frame, no);
      StreamFollows(s, log, frame, no, p);
    case Datagram(f, nowMs, rttMs) =>
      if f.frameNo != no {
        OtherFollows(s, log, f, nowMs, rttMs, no, p);
      } else if p.Done? {
        ClosedIsInert(s, log, f, nowMs, rttMs, p);
      } else {
        OwnFollows(s, log, f, nowMs, rttMs, p);
      }
  }

  lemma SparedStream(s: State, frame: WtFrame, no: u32)
    requires Shaped(s.v4) && Spared(s, StreamFrame(frame), no)
    ensures frame.frameNo != no && (no in s.done ==> no in OnStreamFrame(s, frame).0.done)
  {
    hide OnStreamFrame;
  }

  lemma ClosedIsInert(s: State, log: seq<Output>, f: WtFragment, nowMs: real, rttMs: real, p: FrameRun.Progress)
    requires Shaped(s.v4) && Follows(s, log, f.frameNo, p) && p.Done?
    ensures var (t, out) := OnDatagram(s, f, nowMs, rttMs); Follows(t, log + out, f.frameNo, p)
  {
    hide NackSkipped;
    SkippedKeepsTable(s, f.frameNo);
    LogGrows(s, log, NackSkipped(s, f.frameNo).1, f.frameNo, p);
  }

  /**
   Over every run of the table in which a number is neither expired nor evicted, streamed, nor forgotten once closed,
   the table holds for it, and has delivered of it, exactly what its own datagrams alone come to: whatever else is in
   flight, the single-frame account of soundness, confluence and completeness applies.
   */
  lemma {:induction false} TableFollowsFrame(es: seq<Event>, no: u32)
    requires forall k | 0 <= k < |es| :: Spared(Run(es[..k]).0, es[k], no)
    ensures Follows(Run(es).0, Run(es).1, no, FrameRun.Run(Own(es, no)))
  {
    hide Step, Spared, Follows, FrameRun.Receive, Run, Own, FrameRun.Run;
    if |es| == 0 {
      assert es == [];
      NothingFollows(no);
    } else {
      var front, e := es[..|es| - 1], es[|es| - 1];
      assert forall k | 0 <= k < |front| :: front[..k] == es[..k] && front[k] == es[k];
      TableFollowsFrame(front, no);
      RunSafe(front);
      assert es[..|es| - 1] == front;
      StepFollows(Run(front).0, Run(front).1, e, no, FrameRun.Run(Own(front, no)));
      OwnRuns(front, e, no);
      RunSnoc(front, e);
      assert es == front + [e];
    }
  }

  lemma NothingFollows(no: u32)
    ensures Follows(Run([]).0, Run([]).1, no, FrameRun.Run(Own([], no)))
  {}

  lemma OwnRuns(front: seq<Event>, e: Event, no: u32)
    ensures FrameRun.Run(Own(front + [e], no)) ==
      if e.Datagram? && e.f.frameNo == no
      then FrameRun.Receive(FrameRun.Run(Own(front, no)), FrameRun.Arrival(e.f, e.nowMs))
      else FrameRun.Run(Own(front, no))
  {
    hide FrameRun.Receive;
    assert (front + [e])[..|front|] == front;
    var mine := Own(front, no);
    if e.Datagram? && e.f.frameNo == no {
      assert (mine + [FrameRun.Arrival(e.f, e.nowMs)])[..|mine|] == mine;
    } else {
      assert mine + [] == mine;
    }
  }
}
