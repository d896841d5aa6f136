/**
 The receiver's repair rounds against the orderer's patience: when the last round can go
 out at the earliest, and for which routes its re-send can still be in time.
 */
module RepairTiming {
  import opened Bytes
  import opened InsertionOrder
  import opened Wire
  import opened Assembly
  import opened FrameTable
  import Orderer

  /** No sooner than this after an assembly was opened does its `n`-th round go out. */
  function RoundAfterMs(t: Timing, n: nat): real {
    if n == 0 then 0.0 else if n == 1 then t.firstMs else RoundAfterMs(t, n - 1) + t.gapMs
  }

  lemma LastRound(t: Timing)
    ensures RoundAfterMs(t, MAX_ROUNDS) == t.firstMs + t.gapMs + t.gapMs + t.gapMs
  {
    assert RoundAfterMs(t, 4) == RoundAfterMs(t, 3) + t.gapMs;
    assert RoundAfterMs(t, 3) == RoundAfterMs(t, 2) + t.gapMs;
    assert RoundAfterMs(t, 2) == RoundAfterMs(t, 1) + t.gapMs;
  }

  // ---- no round is early -----------------------------------------------------------

  predicate NoFaster(least: Timing, t: Timing) {
    least.firstMs <= t.firstMs && least.gapMs <= t.gapMs
  }

  /** No datagram of the run came with a round trip that allows a faster timing than `least`. */
  ghost predicate Paced(es: seq<Event>, least: Timing) {
    forall e | e in es :: e.Datagram? ==> NoFaster(least, NackTiming(e.rttMs))
  }

  /** Every round so far went out after its time, and not at it. */
  ghost predicate OnTime(st: AsmState, t: Timing) {
    st.nacks > 0 ==> st.lastNackMs > st.atMs + RoundAfterMs(t, st.nacks)
  }

  ghost predicate AllOnTime(v4: Table<AsmState>, t: Timing) {
    forall no | no in v4.at :: OnTime(v4.at[no], t)
  }

  lemma ScanOneOnTime(s: State, no: u32, nowMs: real, t: Timing, least: Timing)
    requires Shaped(s.v4) && AllOnTime(s.v4, least) && NoFaster(least, t)
    ensures AllOnTime(ScanOne(s, no, nowMs, t).0.v4, least)
  {
    hide Shaped, Close, Round;
  }

  lemma {:induction false} ScanOnTime(s: State, keys: seq<u32>, nowMs: real, t: Timing, least: Timing)
    requires Shaped(s.v4) && AllOnTime(s.v4, least) && NoFaster(least, t)
    ensures AllOnTime(Scan(s, keys, nowMs, t).0.v4, least)
  {
    hide ScanOne, AllOnTime;
    if |keys| > 0 {
      ScanOnTime(s, keys[..|keys| - 1], nowMs, t, least);
      ScanOneOnTime(Scan(s, keys[..|keys| - 1], nowMs, t).0, keys[|keys| - 1], nowMs, t, least);
    }
  }

  lemma OpenOnTime(s: State, f: WtFragment, nowMs: real, t: Timing)
    requires Shaped(s.v4) && AllOnTime(s.v4, t)
    ensures AllOnTime(Open(s, f, nowMs).0.v4, t)
  {
    hide Shaped, Victim, Lowest, RoundAfterMs;
  }

  lemma StoreOnTime(s: State, f: WtFragment, t: Timing)
    requires Shaped(s.v4) && AllOnTime(s.v4, t)
    ensures AllOnTime(Store(s, f).0.v4, t)
  {
    hide Absorb, Complete, Payload, Close, Remember, RoundAfterMs;
  }

  lemma StepOnTime(s: State, e: Event, least: Timing)
    requires Shaped(s.v4) && AllOnTime(s.v4, least) && (e.Datagram? ==> NoFaster(least, NackTiming(e.rttMs)))
    ensures AllOnTime(Step(s, e).0.v4, least)
  {
    hide Shaped, NackSkipped, Scan, Open, Store, Close, Remember, OnTime;
    match e
    case StreamFrame(frame) =>
    case Datagram(f, nowMs, rttMs) =>
      var t := NackSkipped(s, f.frameNo).0;
      if f.frameNo !in t.done {
        var u := Scan(t, t.v4.order, nowMs, NackTiming(rttMs)).0;
        ScanOnTime(t, t.v4.order, nowMs, NackTiming(rttMs), least);
        OpenOnTime(u, f, nowMs, least);
        StoreOnTime(Open(u, f, nowMs).0, f, least);
      }
  }

  /** On every run, no assembly's latest round went out before the fastest timing the measured round trips allowed. */
  lemma {:induction false} RoundsAreOnTime(es: seq<Event>, least: Timing)
    requires Paced(es, least)
    ensures AllOnTime(Run(es).0.v4, least)
  {
    hide Step, OnTime;
    if |es| > 0 {
      RoundsAreOnTime(es[..|es| - 1], least);
      assert es[|es| - 1] in es;
      StepOnTime(Run(es[..|es| - 1]).0, es[|es| - 1], least);
    }
  }

  /** Whatever round trips are measured along the way, the fourth round comes more than 190 ms after the first
      datagram. */
  lemma FourthRoundTakesLong(es: seq<Event>, no: u32)
    requires no in Run(es).0.v4.at && Run(es).0.v4.at[no].nacks == 4
    ensures Run(es).0.v4.at[no].lastNackMs > Run(es).0.v4.at[no].atMs + 190.0
  {
    hide Run, RoundAfterMs;
    var fastest := Timing(40.0, 50.0);
    RoundsAreOnTime(es, fastest);
    LastRound(fastest);
    assert OnTime(Run(es).0.v4.at[no], fastest);
  }

  // ---- a run that makes all four rounds ----------------------------------------------------

  const SAMPLE_NO: u32 := 7
  const OPENED_MS := 1000.0

  /** The two fragments of a delta. */
  function Half(idx: nat): WtFragment {
    WtFragment(SAMPLE_NO, idx, 2, 0, false, 0, if idx == 0 then [1] else [2])
  }

  function HalfHeld(n: nat, lastMs: real): AsmState {
    AsmState(2, [Some([1]), None], 1, 0, false, OPENED_MS, n, lastMs, map[], map[], None)
  }

  /** One assembly in flight, its first half held, after `n` rounds. */
  ghost predicate Waiting(s: State, n: nat, lastMs: real) {
    && s.v4 == Table([SAMPLE_NO], map[SAMPLE_NO := HalfHeld(n, lastMs)])
    && s.done == [] && s.delivered == Empty() && s.highest == Some(SAMPLE_NO)
  }

  lemma HalfStored()
    ensures Absorb(NewState(Half(0), OPENED_MS), Half(0)) == Some(HalfHeld(0, 0.0))
  {
    var st := Fill(NewState(Half(0), OPENED_MS), 0, [1]);
    assert st.parts == HalfHeld(0, 0.0).parts;
    assert RepairTo(st, 1) == RepairGroup(RepairTo(st, 0), 0);
  }

  lemma OneShaped(st: AsmState)
    requires |st.parts| == st.cnt
    ensures Shaped(Table([SAMPLE_NO], map[SAMPLE_NO := st]))
  {}

  lemma FirstHalf(rttMs: real)
    ensures Waiting(Step(Fresh(), Datagram(Half(0), OPENED_MS, rttMs)).0, 0, 0.0)
  {
    hide Absorb, Close, Remember, Payload;
    var s := Fresh().(highest := Some(SAMPLE_NO));
    assert NackSkipped(Fresh(), SAMPLE_NO) == (s, []);
    var st := NewState(Half(0), OPENED_MS);
    var t := s.(v4 := s.v4.Set(SAMPLE_NO, st));
    OneShaped(st);
    assert t.v4 == Table([SAMPLE_NO], map[SAMPLE_NO := st]);
    assert Open(s, Half(0), OPENED_MS) == (t, []);
    HalfStored();
    var u := t.(v4 := t.v4.Set(SAMPLE_NO, HalfHeld(0, 0.0)));
    assert Store(t, Half(0)) == (u, []);
    assert u.v4.at == map[SAMPLE_NO := HalfHeld(0, 0.0)];
  }

  lemma ScanOfOne(s: State, st: AsmState, nowMs: real, t: Timing)
    requires |st.parts| == st.cnt && s.v4 == Table([SAMPLE_NO], map[SAMPLE_NO := st])
    ensures Shaped(s.v4)
    ensures Scan(s, s.v4.order, nowMs, t) == ScanOne(s, SAMPLE_NO, nowMs, t)
  {
    hide ScanOne;
    OneShaped(st);
    assert s.v4.order[..0] == [];
    assert Scan(s, [], nowMs, t) == (s, []);
    assert [] + ScanOne(s, SAMPLE_NO, nowMs, t).1 == ScanOne(s, SAMPLE_NO, nowMs, t).1;
  }

  lemma AnotherRound(s: State, n: nat, lastMs: real, nowMs: real, rttMs: real)
    requires Waiting(s, n, lastMs) && n < MAX_ROUNDS
    requires NackTiming(rttMs).firstMs < nowMs - OPENED_MS <= EXPIRY_MS && nowMs - lastMs > NackTiming(rttMs).gapMs
    ensures Shaped(s.v4) && Waiting(Step(s, Datagram(Half(0), nowMs, rttMs)).0, n + 1, nowMs)
  {
    hide Close, Remember, Payload, Round, NackTiming;
    var t := NackTiming(rttMs);
    ScanOfOne(s, HalfHeld(n, lastMs), nowMs, t);
    assert NackSkipped(s, SAMPLE_NO) == (s, []);
    var u := ScanOne(s, SAMPLE_NO, nowMs, t).0;
    assert u.v4.at == map[SAMPLE_NO := HalfHeld(n + 1, nowMs)];
    assert Open(u, Half(0), nowMs) == (u, []);
    assert Absorb(HalfHeld(n + 1, nowMs), Half(0)) == None;
    assert Store(u, Half(0)) == (u, []);
  }

  lemma HalfCompletes(lastMs: real)
    ensures var r := Absorb(HalfHeld(MAX_ROUNDS, lastMs), Half(1));
      r.Some? && Complete(r.value) && Payload(r.value) == [1, 2] && r.value.captureUs == 0 && !r.value.key
  {
    var st := Fill(HalfHeld(MAX_ROUNDS, lastMs), 1, [2]);
    assert st.parts == [Some([1]), Some([2])];
    assert RepairTo(st, 1) == RepairGroup(RepairTo(st, 0), 0);
    NothingMissing(st);
    assert Known(st.parts) == [[1], [2]] && [[1], [2]][1..] == [[2]] && [[2]][1..] == [];
    assert Concat([[1], [2]]) == [1] + ([2] + []);
  }

  lemma NothingMissing(st: AsmState)
    requires |st.parts| == st.cnt == 2 && st.parts[0].Some? && st.parts[1].Some?
    ensures RepairGroup(st, 0) == st
  {
    assert Holes(st.parts, 0, 1) == Holes(st.parts, 0, 0) == [];
    assert Holes(st.parts, 0, 2) == Holes(st.parts, 0, 1);
  }

  lemma SecondHalf(s: State, lastMs: real, nowMs: real, rttMs: real)
    requires Waiting(s, MAX_ROUNDS, lastMs) && nowMs - OPENED_MS <= EXPIRY_MS
    ensures Shaped(s.v4)
    ensures Deliver(WtFrame(SAMPLE_NO, 0, false, [1, 2])) in Step(s, Datagram(Half(1), nowMs, rttMs)).1
  {
    hide Close, Remember, Payload, Absorb, Complete, NackTiming;
    ScanOfOne(s, HalfHeld(MAX_ROUNDS, lastMs), nowMs, NackTiming(rttMs));
    assert NackSkipped(s, SAMPLE_NO) == (s, []);
    assert ScanOne(s, SAMPLE_NO, nowMs, NackTiming(rttMs)) == (s, []);
    assert Open(s, Half(1), nowMs) == (s, []);
    HalfCompletes(lastMs);
    assert Store(s, Half(1)).1 == [Deliver(WtFrame(SAMPLE_NO, 0, false, [1, 2]))];
  }

  /** The same half again and again, each time `slack` after the next round's time. */
  function Repeats(rttMs: real, slack: real, n: nat): (es: seq<Event>)
    ensures |es| == n + 1
  {
    if n == 0 then [Datagram(Half(0), OPENED_MS, rttMs)]
    else Repeats(rttMs, slack, n - 1) + [Datagram(Half(0), RoundMs(rttMs, slack, n), rttMs)]
  }

  function RoundMs(rttMs: real, slack: real, n: nat): real {
    OPENED_MS + RoundAfterMs(NackTiming(rttMs), n) + (n as real) * slack
  }

  lemma {:induction false} RepeatsWait(rttMs: real, slack: real, n: nat)
    requires n <= MAX_ROUNDS && 0.0 < slack <= 50.0
    ensures Waiting(Run(Repeats(rttMs, slack, n)).0, n, if n == 0 then 0.0 else RoundMs(rttMs, slack, n))
    ensures forall e | e in Repeats(rttMs, slack, n) :: e.Datagram? && e.rttMs == rttMs
  {
    hide Step, Waiting, NackTiming, Run, RoundMs;
    if n == 0 {
      FirstHalf(rttMs);
      RunNothing();
      RunSnoc([], Datagram(Half(0), OPENED_MS, rttMs));
      assert [] + [Datagram(Half(0), OPENED_MS, rttMs)] == Repeats(rttMs, slack, 0);
    } else {
      RepeatsWait(rttMs, slack, n - 1);
      RoundTimes(rttMs, slack, n);
      var es, now := Repeats(rttMs, slack, n - 1), RoundMs(rttMs, slack, n);
      RunSnoc(es, Datagram(Half(0), now, rttMs));
      AnotherRound(Run(es).0, n - 1, if n == 1 then 0.0 else RoundMs(rttMs, slack, n - 1), now, rttMs);
    }
  }

  lemma RoundsApart(t: Timing, n: nat)
    requires 0 < n <= MAX_ROUNDS && t.firstMs <= 150.0 && 0.0 < t.gapMs <= 180.0
    ensures t.firstMs <= RoundAfterMs(t, n) <= 700.0
    ensures n > 1 ==> RoundAfterMs(t, n) == RoundAfterMs(t, n - 1) + t.gapMs
  {
    assert RoundAfterMs(t, 1) == t.firstMs;
    assert RoundAfterMs(t, 2) == t.firstMs + t.gapMs;
    assert RoundAfterMs(t, 3) == RoundAfterMs(t, 2) + t.gapMs;
    assert RoundAfterMs(t, 4) == RoundAfterMs(t, 3) + t.gapMs;
  }

  lemma OneMore(slack: real, n: nat)
    requires 0 < n <= 4 && 0.0 < slack <= 50.0
    ensures 0.0 < (n as real) * slack <= 200.0
    ensures (n as real) * slack == ((n - 1) as real) * slack + slack
  {
    if n == 1 {} else if n == 2 {} else if n == 3 {} else {}
  }

  lemma RoundTimes(rttMs: real, slack: real, n: nat)
    requires 0 < n <= MAX_ROUNDS && 0.0 < slack <= 50.0
    ensures var t, now := NackTiming(rttMs), RoundMs(rttMs, slack, n);
      && t.firstMs < now - OPENED_MS <= EXPIRY_MS
      && now - (if n == 1 then 0.0 else RoundMs(rttMs, slack, n - 1)) > t.gapMs
  {
    hide NackTiming, RoundAfterMs;
    RoundsApart(NackTiming(rttMs), n);
    OneMore(slack, n);
  }

  // ---- which routes the budget is enough for ---------------------------------------------------

  /**
   A fourth round went out for `no`, soon enough for its re-send to be back within the orderer's budget. The orderer
   counts that in held video, from the oldest frame it holds behind the hole; on a steady route `leadMs` is how much
   later that frame came in than the first datagram of `no`.
   */
  ghost predicate FourthInTime(es: seq<Event>, no: u32, rttMs: real, leadMs: real) {
    && no in Run(es).0.v4.at
    && var st := Run(es).0.v4.at[no];
       st.nacks == 4 && st.lastNackMs + rttMs <= st.atMs + leadMs + Orderer.RepairBudgetMs(rttMs)
  }

  ghost predicate OneRoute(es: seq<Event>, rttMs: real) {
    forall e | e in es :: e.Datagram? ==> e.rttMs == rttMs
  }

  /** The rounds of a route with round trip `measured` leave room for one trip of `rttMs` within the budget. */
  predicate LeavesRoom(measured: Timing, rttMs: real, leadMs: real) {
    RoundAfterMs(measured, 4) + rttMs < leadMs + Orderer.RepairBudgetMs(rttMs)
  }

  /** Where there is room, there is a run that makes all four rounds in time, and the re-send then completes the frame
      unless it has expired by then. */
  lemma FourthLands(measured: real, rttMs: real, leadMs: real) returns (es: seq<Event>)
    requires LeavesRoom(NackTiming(measured), rttMs, leadMs)
    ensures FourthInTime(es, SAMPLE_NO, rttMs, leadMs) && OneRoute(es, measured)
    ensures var st := Run(es).0.v4.at[SAMPLE_NO];
      st.lastNackMs + rttMs <= st.atMs + 900.0 ==>
        Deliver(WtFrame(SAMPLE_NO, 0, false, [1, 2])) in
          Step(Run(es).0, Datagram(Half(1), st.lastNackMs + rttMs, rttMs)).1
  {
    hide Run, Step, NackTiming, RoundAfterMs;
    var room := leadMs + Orderer.RepairBudgetMs(rttMs) - rttMs - RoundAfterMs(NackTiming(measured), MAX_ROUNDS);
    var slack := if room > 100.0 then 20.0 else room / 5.0;
    es := Repeats(measured, slack, MAX_ROUNDS);
    RepeatsWait(measured, slack, MAX_ROUNDS);
    var last := RoundMs(measured, slack, MAX_ROUNDS);
    assert Run(es).0.v4.at[SAMPLE_NO] == HalfHeld(MAX_ROUNDS, last);
    if last + rttMs <= OPENED_MS + EXPIRY_MS {
      SecondHalf(Run(es).0, last, last + rttMs, rttMs);
    }
  }

  lemma NeverInTime(es: seq<Event>, no: u32, rttMs: real, leadMs: real, least: Timing)
    requires Paced(es, least) && !LeavesRoom(least, rttMs, leadMs)
    ensures !FourthInTime(es, no, rttMs, leadMs)
  {
    hide Run, RoundAfterMs;
    RoundsAreOnTime(es, least);
    if no in Run(es).0.v4.at {
      assert OnTime(Run(es).0.v4.at[no], least);
    }
  }

  /**
   The orderer's budget is meant to hold all four rounds and their re-sends. On a route of one round trip some run has
   its fourth re-send back in time exactly if the rounds leave room; with nothing to spare, that is for measured round
   trips strictly between 20/9 and 185/13 ms, and for others, or while the round trip is unknown, no run has.
   */
  lemma FourRoundsFit(rttMs: real, leadMs: real)
    requires rttMs >= 0.0
    ensures (exists es: seq<Event>, no: u32 :: OneRoute(es, rttMs) && FourthInTime(es, no, rttMs, leadMs))
       <==> LeavesRoom(NackTiming(rttMs), rttMs, leadMs)
    ensures LeavesRoom(NackTiming(rttMs), rttMs, 0.0) <==> 20.0 < 9.0 * rttMs && 13.0 * rttMs < 185.0
  {
    hide FourthInTime, Run, NackTiming, RoundAfterMs, LeavesRoom;
    if LeavesRoom(NackTiming(rttMs), rttMs, leadMs) {
      var es := FourthLands(rttMs, rttMs, leadMs);
      assert OneRoute(es, rttMs) && FourthInTime(es, SAMPLE_NO, rttMs, leadMs);
    } else {
      forall es: seq<Event>, no: u32 | OneRoute(es, rttMs) ensures !FourthInTime(es, no, rttMs, leadMs) {
        NeverInTime(es, no, rttMs, leadMs, NackTiming(rttMs));
      }
    }
    FixedRoute(rttMs);
  }

  lemma FixedRoute(rttMs: real)
    requires rttMs >= 0.0
    ensures LeavesRoom(NackTiming(rttMs), rttMs, 0.0) <==> 20.0 < 9.0 * rttMs && 13.0 * rttMs < 185.0
  {
    LastRound(NackTiming(rttMs));
  }

  /** However the measured round trip changes along the way, a fourth re-send that takes `rttMs` can be in time exactly
      if the fastest rounds leave room; with nothing to spare, if that is strictly between 20/9 and 110 ms. */
  lemma FourRoundsFitChanging(rttMs: real, leadMs: real)
    requires rttMs > 0.0
    ensures (exists es: seq<Event>, no: u32 :: FourthInTime(es, no, rttMs, leadMs))
       <==> LeavesRoom(Timing(40.0, 50.0), rttMs, leadMs)
    ensures LeavesRoom(Timing(40.0, 50.0), rttMs, 0.0) <==> 20.0 < 9.0 * rttMs && rttMs < 110.0
  {
    hide FourthInTime, Run, RoundAfterMs;
    var fastest := Timing(40.0, 50.0);
    LastRound(fastest);
    assert NackTiming(5.0) == fastest;
    if LeavesRoom(fastest, rttMs, leadMs) {
      var es := FourthLands(5.0, rttMs, leadMs);
      assert FourthInTime(es, SAMPLE_NO, rttMs, leadMs);
    } else {
      forall es: seq<Event>, no: u32 ensures !FourthInTime(es, no, rttMs, leadMs) {
        NeverInTime(es, no, rttMs, leadMs, fastest);
      }
    }
  }
}
