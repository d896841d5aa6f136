/** What making room does to the table: which frame goes, and what becomes of the memory of closed numbers. */
module Evictions {
  import opened Bytes
  import opened InsertionOrder
  import opened Parity
  import opened Wire
  import opened Assembly
  import opened FrameTable
  import opened TableSafety

  // ---- which frame goes ------------------------------------------------------------------------

  /** Deltas in flight other than `no`. */
  ghost predicate OtherDelta(v4: Table<AsmState>, no: u32, k: u32) {
    k in v4.at && k != no && !v4.at[k].key
  }

  /**
   Eviction is meant to keep the newest frames. With everything in flight, the newcomer `no` included, within half the
   counter from `base`, the delta evicted is the oldest delta in flight exactly if the counter wraps nowhere among
   the other deltas, and the newcomer is a keyframe or some other delta is older than it: a late newcomer, such as the
   re-send of a whole frame, pushes out a newer one.
   */
  lemma EvictsOldestExactly(v4: Table<AsmState>, no: u32, base: u32, victim: u32)
    requires v4.Valid() && no in v4.at && forall k | k in v4.at :: Ahead(k, base) < HALF
    requires Lowest(v4.order, v4.at, no, true) == Some(victim)
    ensures (forall k: u32 | k in v4.at && !v4.at[k].key :: Ahead(victim, base) <= Ahead(k, base))
       <==> Unwrapped(v4, no, base) && (v4.at[no].key || OlderThan(v4, no, base))
  {
    hide Lowest, Ahead;
    assert OtherDelta(v4, no, victim);
    forall k: u32 | OtherDelta(v4, no, k) ensures victim <= k {
      assert k in v4.order && Eligible(v4.at, no, true, k);
    }
    forall k: u32 | OtherDelta(v4, no, k)
      ensures Ahead(victim, base) <= Ahead(k, base) <==> (victim < base <==> k < base) || victim >= base
    {
      AheadOrder(victim, k, base);
    }
    AheadSame(victim, no, base);
    assert Unwrapped(v4, no, base) <==> forall k: u32 | OtherDelta(v4, no, k) :: Ahead(victim, base) <= Ahead(k, base);
  }

  /** No delta but `no` has wrapped past the counter's end since `base`, or all have. */
  ghost predicate Unwrapped(v4: Table<AsmState>, no: u32, base: u32) {
    (forall k: u32 | OtherDelta(v4, no, k) :: k < base) || (forall k: u32 | OtherDelta(v4, no, k) :: k >= base)
  }

  ghost predicate OlderThan(v4: Table<AsmState>, no: u32, base: u32) {
    exists k: u32 :: OtherDelta(v4, no, k) && Ahead(k, base) < Ahead(no, base)
  }

  lemma AheadOrder(a: u32, b: u32, base: u32)
    requires a <= b
    ensures Ahead(a, base) <= Ahead(b, base) <==> a >= base || b < base
  {}

  lemma AheadSame(a: u32, b: u32, base: u32)
    ensures Ahead(a, base) == Ahead(b, base) <==> a == b
  {}

  // ---- 512 is not a bound by itself -----------------------------------------------------------

  lemma CloseSmall(done: seq<u32>, no: u32)
    ensures |done| <= MAX_DONE ==> |Close(done, no)| <= MAX_DONE
    ensures |done| > MAX_DONE ==> |Close(done, no)| > MAX_DONE - 1
    ensures |done| > MAX_DONE && no !in done ==> |Close(done, no)| == |done|
  {}

  lemma {:induction false} ScanSmall(s: State, keys: seq<u32>, nowMs: real, t: Timing)
    requires Shaped(s.v4) && |s.done| <= MAX_DONE
    ensures |Scan(s, keys, nowMs, t).0.done| <= MAX_DONE
  {
    hide Shaped, Close, Round;
    if |keys| > 0 {
      ScanSmall(s, keys[..|keys| - 1], nowMs, t);
      CloseSmall(Scan(s, keys[..|keys| - 1], nowMs, t).0.done, keys[|keys| - 1]);
    }
  }

  lemma OpenGrows(s: State, f: WtFragment, nowMs: real)
    requires Shaped(s.v4) && Inv(s) && f.frameNo !in s.done && |s.done| <= MAX_DONE
    ensures |Open(s, f, nowMs).0.done| == |s.done| + if f.frameNo !in s.v4.at && s.v4.Size() == MAX_IN_FLIGHT then 1 else 0
  {
    hide Apart, Bounded, Remembered, Victim, Lowest;
    ApartParts(s.v4, s.done);
    if f.frameNo !in s.v4.at {
      var v4 := s.v4.Set(f.frameNo, NewState(f, nowMs));
      ShapedSet(s.v4, f.frameNo, NewState(f, nowMs));
      VictimIsHeld(v4, f.frameNo, f.key);
      if v4.Size() > MAX_IN_FLIGHT {
        VictimExists(v4, f.frameNo, f.key);
      }
    }
  }

  lemma StoreBound(s: State, f: WtFragment)
    requires Shaped(s.v4) && Inv(s)
    ensures |Store(s, f).0.done| > MAX_DONE <==> |s.done| > MAX_DONE
  {
    hide Inv, Absorb, Payload, Complete, Remember, Close;
    CloseSmall(s.done, f.frameNo);
    if f.frameNo in s.v4.at {
      ApartFrom(s, f.frameNo);
    }
  }

  /** Below the bound, a datagram takes the closed numbers past 512 exactly if it opens a 25th assembly when 512 are
      closed after the scan: the eviction it forces is the one addition no trim follows. */
  lemma PassesTheBoundExactly(s: State, f: WtFragment, nowMs: real, rttMs: real)
    requires Shaped(s.v4) && Inv(s) && |s.done| <= MAX_DONE && f.frameNo !in s.done
    ensures var t := NackSkipped(s, f.frameNo).0;
      && Shaped(t.v4)
      && var u := Scan(t, t.v4.order, nowMs, NackTiming(rttMs)).0;
         |OnDatagram(s, f, nowMs, rttMs).0.done| > 512
         <==> f.frameNo !in u.done && f.frameNo !in u.v4.at && u.v4.Size() == 24 && |u.done| == 512
  {
    hide Shaped, NackSkipped, Scan, Open, Store, Inv;
    SkippedKeepsTable(s, f.frameNo);
    NackSkippedSafe(s, f.frameNo);
    var t := NackSkipped(s, f.frameNo).0;
    var u := Scan(t, t.v4.order, nowMs, NackTiming(rttMs)).0;
    ScanSafe(t, t.v4.order, nowMs, NackTiming(rttMs));
    ScanSmall(t, t.v4.order, nowMs, NackTiming(rttMs));
    if f.frameNo !in u.done {
      OpenGrows(u, f, nowMs);
      OpenSafe(u, f, nowMs);
      StoreBound(Open(u, f, nowMs).0, f);
    }
  }

  // ---- runs that flood the table ------------------------------------------------------------------

  /** The first half of a delta. */
  function Start(no: u32): WtFragment { WtFragment(no, 0, 2, 0, false, 0, [1]) }

  /** First halves of the `n` deltas numbered from `first` on, all at one moment. */
  function Starts(first: u32, n: nat): (es: seq<Event>)
    ensures |es| == n
  {
    if n == 0 then [] else Starts(first, n - 1) + [Datagram(Start(Plus(first, n - 1)), 0.0, 0.0)]
  }

  /** In flight: first halves of the deltas at offsets `lo` up to `n` from `first`. */
  ghost predicate Window(v4: Table<AsmState>, first: u32, lo: nat, n: nat) {
    && Shaped(v4)
    && (forall k: u32 :: k in v4.at <==> lo <= Ahead(k, first) < n)
    && (forall k | k in v4.at :: Begun(v4.at[k]))
    && v4.Size() == n - lo
  }

  ghost predicate Begun(st: AsmState) {
    st.atMs == 0.0 && !st.key && st.cnt == 2
  }

  /** Where those leave the table: the last 24 in flight, all before them closed, oldest first. */
  ghost predicate Flooded(s: State, first: u32, n: nat) {
    var lo := if n < 24 then 0 else n - 24;
    && Window(s.v4, first, lo, n)
    && s.highest == (if n == 0 then None else Some(Plus(first, n - 1)))
    && |s.done| == lo && (forall i | 0 <= i < lo :: s.done[i] == Plus(first, i))
    && s.delivered == Empty()
  }

  lemma Offset(first: u32, k: nat)
    requires k < TWO32
    ensures Ahead(Plus(first, k), first) == k
    ensures k > 0 ==> Ahead(Plus(first, k), Plus(first, k - 1)) == 1
  {
    if first + k < TWO32 {
      assert Plus(first, k) == first + k;
    } else {
      assert Plus(first, k) == first + k - TWO32;
    }
    if k > 0 {
      if first + k - 1 < TWO32 {
        assert Plus(first, k - 1) == first + k - 1;
      } else {
        assert Plus(first, k - 1) == first + k - 1 - TWO32;
      }
    }
  }

  lemma OffsetBack(first: u32, no: u32)
    ensures Plus(first, Ahead(no, first)) == no
  {}

  lemma {:induction false} QuietScan(s: State, keys: seq<u32>, t: Timing)
    requires Shaped(s.v4)
    requires (forall k | k in s.v4.at :: s.v4.at[k].atMs == 0.0) && t.firstMs >= 40.0
    ensures Scan(s, keys, 0.0, t) == (s, [])
  {
    hide Close, Round;
    if |keys| > 0 {
      QuietScan(s, keys[..|keys| - 1], t);
      var (u, out) := Scan(s, keys[..|keys| - 1], 0.0, t);
      var (w, more) := ScanOne(u, keys[|keys| - 1], 0.0, t);
      assert more == [] && out + more == [];
    }
  }

  lemma WindowGrows(v4: Table<AsmState>, first: u32, lo: nat, n: nat)
    requires Window(v4, first, lo, n) && lo <= n < TWO32
    ensures Window(v4.Set(Plus(first, n), NewState(Start(Plus(first, n)), 0.0)), first, lo, n + 1)
    ensures Plus(first, n) !in v4.at
  {
    hide Plus, Ahead;
    var no := Plus(first, n);
    ShapedSet(v4, no, NewState(Start(no), 0.0));
    Offset(first, n);
    forall k: u32 ensures Ahead(k, first) == n ==> k == no { OffsetBack(first, k); }
  }

  /** Without a wrap the numerically lowest is the one sent first. */
  lemma WindowVictim(v4: Table<AsmState>, first: u32, lo: nat, n: nat)
    requires Window(v4, first, lo, n + 1) && lo < n && first + n < TWO32
    ensures v4.Valid() && Victim(v4, Plus(first, n), false) == Some(Plus(first, lo))
  {
    hide Lowest;
    var low: u32 := first + lo;
    assert Plus(first, lo) == low && Plus(first, n) == first + n;
    assert low in v4.order;
    assert Eligible(v4.at, Plus(first, n), true, low);
  }

  lemma WindowSlides(v4: Table<AsmState>, first: u32, lo: nat, n: nat)
    requires Window(v4, first, lo, n) && lo < n <= TWO32
    ensures Window(v4.Delete(Plus(first, lo)), first, lo + 1, n)
  {
    hide Plus, Ahead;
    ShapedDelete(v4, Plus(first, lo));
    Offset(first, lo);
    forall k: u32 ensures Ahead(k, first) == lo ==> k == Plus(first, lo) { OffsetBack(first, k); }
  }

  lemma FirstHalfWaits(no: u32)
    ensures var r := Absorb(NewState(Start(no), 0.0), Start(no));
      r.Some? && !Complete(r.value) && Begun(r.value)
  {
    var st := Fill(NewState(Start(no), 0.0), 0, [1]);
    assert GroupCount(2) == 1;
    assert RepairTo(st, 1) == RepairGroup(RepairTo(st, 0), 0);
  }

  /** `t` holds the numbers of `v4`, all just begun, and closed and delivered what `done` and `s` say. */
  ghost predicate LeavesOpen(s: State, t: State, v4: Table<AsmState>, done: seq<u32>) {
    && Shaped(t.v4) && t.v4.at.Keys == v4.at.Keys && t.v4.Size() == v4.Size()
    && (forall k | k in t.v4.at :: Begun(t.v4.at[k]))
    && t.done == done && t.delivered == s.delivered && t.highest == s.highest
  }

  lemma StoreOne(s: State, no: u32)
    requires Shaped(s.v4) && (forall k | k in s.v4.at :: Begun(s.v4.at[k]))
    requires no in s.v4.at && s.v4.at[no] == NewState(Start(no), 0.0)
    ensures LeavesOpen(s, Store(s, Start(no)).0, s.v4, s.done)
  {
    hide Absorb, Complete, Payload;
    FirstHalfWaits(no);
    var st := Absorb(NewState(Start(no), 0.0), Start(no)).value;
    ShapedSet(s.v4, no, st);
    assert s.v4.at[no := st].Keys == s.v4.at.Keys;
  }

  lemma OpenOne(s: State, no: u32)
    requires Shaped(s.v4) && (forall k | k in s.v4.at :: Begun(s.v4.at[k])) && no !in s.v4.at
    ensures var v4, w := s.v4.Set(no, NewState(Start(no), 0.0)), Open(s, Start(no), 0.0).0;
      && (v4.Size() <= MAX_IN_FLIGHT ==> w == s.(v4 := v4))
      && (v4.Size() > MAX_IN_FLIGHT && Victim(v4, no, false).Some? ==>
            var victim := Victim(v4, no, false).value;
            w == s.(v4 := v4.Delete(victim), done := Add(s.done, victim), evicted := w.evicted, keyEvicted := w.keyEvicted))
  {
    hide Victim, Shaped;
    ShapedSet(s.v4, no, NewState(Start(no), 0.0));
  }

  lemma SetBegun(v4: Table<AsmState>, no: u32)
    requires Shaped(v4) && forall k | k in v4.at :: Begun(v4.at[k])
    ensures var w4 := v4.Set(no, NewState(Start(no), 0.0));
      Shaped(w4) && (forall k | k in w4.at :: Begun(w4.at[k])) && w4.at[no] == NewState(Start(no), 0.0)
  {
    ShapedSet(v4, no, NewState(Start(no), 0.0));
  }

  lemma DeleteBegun(v4: Table<AsmState>, victim: u32, no: u32)
    requires Shaped(v4) && (forall k | k in v4.at :: Begun(v4.at[k])) && victim != no && no in v4.at
    ensures var w4 := v4.Delete(victim);
      Shaped(w4) && (forall k | k in w4.at :: Begun(w4.at[k])) && no in w4.at && w4.at[no] == v4.at[no]
  {
    ShapedDelete(v4, victim);
  }

  /** The datagram of a number neither in flight nor closed, nothing being old enough to ask for or to drop. */
  lemma QuietStep(s: State, no: u32)
    requires Shaped(s.v4) && (forall k | k in s.v4.at :: Begun(s.v4.at[k])) && no !in s.done
    requires NackSkipped(s, no) == (s.(highest := NackSkipped(s, no).0.highest), [])
    ensures var u := NackSkipped(s, no).0;
      && Shaped(u.v4)
      && Step(s, Datagram(Start(no), 0.0, 0.0)).0 == Store(Open(u, Start(no), 0.0).0, Start(no)).0
  {
    hide Open, Store, Scan, NackSkipped;
    var u := NackSkipped(s, no).0;
    QuietScan(u, u.v4.order, NackTiming(0.0));
  }

  /** The first half of a new delta while there is room. */
  lemma OneMore(s: State, no: u32)
    requires Shaped(s.v4) && (forall k | k in s.v4.at :: Begun(s.v4.at[k]))
    requires no !in s.v4.at && no !in s.done && s.v4.Size() < MAX_IN_FLIGHT
    requires NackSkipped(s, no) == (s.(highest := NackSkipped(s, no).0.highest), [])
    ensures LeavesOpen(NackSkipped(s, no).0, Step(s, Datagram(Start(no), 0.0, 0.0)).0,
                       s.v4.Set(no, NewState(Start(no), 0.0)), s.done)
  {
    hide Open, Store, Step, NackSkipped, Shaped;
    var u := NackSkipped(s, no).0;
    QuietStep(s, no);
    OpenOne(u, no);
    SetBegun(s.v4, no);
    RoomLeft(s.v4, no);
    StoreOne(Open(u, Start(no), 0.0).0, no);
  }

  lemma RoomLeft(v4: Table<AsmState>, no: u32)
    requires Shaped(v4) && no !in v4.at
    ensures v4.Set(no, NewState(Start(no), 0.0)).Size() == v4.Size() + 1
  {}

  /** The first half of a new delta in a full table: `victim` goes. */
  lemma OneForAnother(s: State, no: u32, victim: u32)
    requires Shaped(s.v4) && (forall k | k in s.v4.at :: Begun(s.v4.at[k]))
    requires no !in s.v4.at && no !in s.done && s.v4.Size() == MAX_IN_FLIGHT
    requires NackSkipped(s, no) == (s.(highest := NackSkipped(s, no).0.highest), [])
    requires s.v4.Set(no, NewState(Start(no), 0.0)).Valid()
    requires victim != no && Victim(s.v4.Set(no, NewState(Start(no), 0.0)), no, false) == Some(victim)
    ensures LeavesOpen(NackSkipped(s, no).0, Step(s, Datagram(Start(no), 0.0, 0.0)).0,
                       s.v4.Set(no, NewState(Start(no), 0.0)).Delete(victim), Add(s.done, victim))
  {
    hide Open, Store, Step, NackSkipped, Shaped, Victim;
    var u := NackSkipped(s, no).0;
    var v4 := s.v4.Set(no, NewState(Start(no), 0.0));
    QuietStep(s, no);
    OpenOne(u, no);
    SetBegun(s.v4, no);
    RoomLeft(s.v4, no);
    DeleteBegun(v4, victim, no);
    StoreOne(Open(u, Start(no), 0.0).0, no);
  }

  lemma FloodStep(s: State, first: u32, n: nat)
    requires Flooded(s, first, n) && n + 1 < TWO32 && (n < 24 || first + n < TWO32)
    ensures Flooded(Step(s, Datagram(Start(Plus(first, n)), 0.0, 0.0)).0, first, n + 1)
  {
    hide Step, Victim, Plus, Ahead, NackSkipped;
    var no, lo := Plus(first, n), if n < 24 then 0 else n - 24;
    Offset(first, n);
    NextSkipsNothing(s, no);
    WindowGrows(s.v4, first, lo, n);
    forall i | 0 <= i < lo ensures s.done[i] != no { Offset(first, i); }
    var t := Step(s, Datagram(Start(no), 0.0, 0.0)).0;
    if n < 24 {
      OneMore(s, no);
      SameWindow(s.v4.Set(no, NewState(Start(no), 0.0)), t.v4, first, lo, n + 1);
    } else {
      FullStep(s, first, n);
    }
  }

  lemma FullParts(s: State, first: u32, n: nat)
    requires Flooded(s, first, n) && 24 <= n < TWO32
    ensures Window(s.v4, first, n - 24, n) && Shaped(s.v4) && s.v4.Size() == MAX_IN_FLIGHT
    ensures forall k | k in s.v4.at :: Begun(s.v4.at[k])
    ensures Plus(first, n) !in s.done && Plus(first, n - 24) !in s.done
    ensures s.highest == Some(Plus(first, n - 1))
  {
    hide Plus, Ahead, Shaped;
    Offset(first, n);
    Offset(first, n - 24);
    forall i | 0 <= i < n - 24 ensures s.done[i] != Plus(first, n) && s.done[i] != Plus(first, n - 24) { Offset(first, i); }
  }

  lemma FloodedNext(s: State, t: State, first: u32, n: nat)
    requires Flooded(s, first, n) && 24 <= n
    requires Window(t.v4, first, n - 23, n + 1) && t.highest == Some(Plus(first, n))
    requires t.done == s.done + [Plus(first, n - 24)] && t.delivered == s.delivered
    ensures Flooded(t, first, n + 1)
  {
    hide Plus, Window;
  }

  lemma FullLeaves(s: State, first: u32, n: nat)
    requires Flooded(s, first, n) && 24 <= n && n + 1 < TWO32 && first + n < TWO32
    ensures var no, victim := Plus(first, n), Plus(first, n - 24);
      LeavesOpen(s.(highest := Some(no)), Step(s, Datagram(Start(no), 0.0, 0.0)).0,
                 s.v4.Set(no, NewState(Start(no), 0.0)).Delete(victim), s.done + [victim])
  {
    hide Step, Victim, Plus, Ahead, NackSkipped, Shaped, Window, Flooded, LeavesOpen, Begun;
    var no, victim := Plus(first, n), Plus(first, n - 24);
    FullParts(s, first, n);
    Offset(first, n);
    Offset(first, n - 24);
    NextSkipsNothing(s, no);
    WindowGrows(s.v4, first, n - 24, n);
    WindowVictim(s.v4.Set(no, NewState(Start(no), 0.0)), first, n - 24, n);
    OneForAnother(s, no, victim);
  }

  lemma FullStep(s: State, first: u32, n: nat)
    requires Flooded(s, first, n) && 24 <= n && n + 1 < TWO32 && first + n < TWO32
    ensures Flooded(Step(s, Datagram(Start(Plus(first, n)), 0.0, 0.0)).0, first, n + 1)
  {
    hide Step, Plus, Shaped, Window, Flooded, Begun;
    var no, victim := Plus(first, n), Plus(first, n - 24);
    FullParts(s, first, n);
    FullLeaves(s, first, n);
    WindowGrows(s.v4, first, n - 24, n);
    var v4 := s.v4.Set(no, NewState(Start(no), 0.0));
    WindowSlides(v4, first, n - 24, n + 1);
    var t := Step(s, Datagram(Start(no), 0.0, 0.0)).0;
    SameWindow(v4.Delete(victim), t.v4, first, n - 23, n + 1);
    FloodedNext(s, t, first, n);
  }

  lemma NextSkipsNothing(s: State, no: u32)
    requires s.highest.None? || Ahead(no, s.highest.value) == 1
    ensures NackSkipped(s, no) == (s.(highest := Some(no)), [])
  {}

  lemma SameWindow(v4: Table<AsmState>, w4: Table<AsmState>, first: u32, lo: nat, n: nat)
    requires Window(v4, first, lo, n) && Shaped(w4) && w4.at.Keys == v4.at.Keys && w4.Size() == v4.Size()
    requires forall k | k in w4.at :: Begun(w4.at[k])
    ensures Window(w4, first, lo, n)
  {
    hide Ahead;
    assert forall k: u32 :: k in w4.at <==> k in v4.at;
  }

  lemma NothingFlooded(first: u32)
    ensures Flooded(Fresh(), first, 0)
  {}

  lemma {:induction false} FloodRuns(first: u32, n: nat)
    requires n < TWO32 && (n <= 24 || first + n <= TWO32)
    ensures Flooded(Run(Starts(first, n)).0, first, n)
  {
    hide Step, Flooded, Run, Plus;
    if n == 0 {
      RunNothing();
      NothingFlooded(first);
    } else {
      FloodRuns(first, n - 1);
      RunSnoc(Starts(first, n - 1), Datagram(Start(Plus(first, n - 1)), 0.0, 0.0));
      FloodStep(Run(Starts(first, n - 1)).0, first, n - 1);
    }
  }

  /** Evictions alone close as many numbers as one likes: the memory of closed numbers has no bound of its own. */
  lemma EvictionsOutgrowTheBound(n: nat)
    requires 24 <= n < TWO32
    ensures |Run(Starts(0, n)).0.done| == n - 24
  {
    hide Run;
    FloodRuns(0, n);
  }

  /** A run past the bound, then the stream copy of the first frame it closed: the frame is delivered, its number is
      open again, and the next datagram for it starts another assembly. */
  lemma StreamCopyReopens(frame: WtFrame)
    requires frame.frameNo == 0
    ensures var es := Starts(0, 537);
      && Run(es + [StreamFrame(frame)]).1 == Run(es).1 + [Deliver(frame)]
      && 0 !in Run(es + [StreamFrame(frame)]).0.done
      && 0 in Run(es + [StreamFrame(frame)] + [Datagram(Start(0), 0.0, 0.0)]).0.v4.at
  {
    hide Run, Step, Remember, Close;
    var es := Starts(0, 537);
    var s := Run(es).0;
    FloodRuns(0, 537);
    Offset(0, 0);
    assert s.done[0] == 0;
    RunSafe(es);
    var e := StreamFrame(frame);
    RunSnoc(es, e);
    RunSnoc(es + [e], Datagram(Start(0), 0.0, 0.0));
    StreamReopens(s, frame);
  }

  lemma StreamReopens(s: State, frame: WtFrame)
    requires Inv(s) && Flooded(s, 0, 537) && frame.frameNo == 0 && s.done[0] == 0
    ensures Step(s, StreamFrame(frame)).1 == [Deliver(frame)] && 0 !in Step(s, StreamFrame(frame)).0.done
    ensures 0 in Step(Step(s, StreamFrame(frame)).0, Datagram(Start(0), 0.0, 0.0)).0.v4.at
  {
    hide Remember, Close, Victim, OnDatagram, NackSkipped;
    DoneDistinct(s);
    CloseHolds(s.done, 0);
    var t := Step(s, StreamFrame(frame)).0;
    var no: u32 := 0;
    NotHeld(s, no);
    OldSkipsNothing(t, no);
    LateNewcomerStays(t.v4, no);
    OneForAnother(t, no, Victim(t.v4.Set(no, NewState(Start(no), 0.0)), no, false).value);
  }

  lemma NotHeld(s: State, no: u32)
    requires Flooded(s, 0, 537) && no == 0
    ensures no !in s.v4.at && s.v4.Delete(no) == s.v4 && s.highest == Some(536)
  {
    assert Ahead(0, 0) == 0;
    assert s.v4.at - {no} == s.v4.at;
  }

  lemma OldSkipsNothing(s: State, no: u32)
    requires s.highest.Some? && Ahead(no, s.highest.value) >= HALF
    ensures NackSkipped(s, no) == (s, [])
  {}

  lemma LateNewcomerStays(v4: Table<AsmState>, no: u32)
    requires v4.Valid() && v4.Size() == MAX_IN_FLIGHT && no !in v4.at && forall k | k in v4.at :: Begun(v4.at[k])
    ensures var w4 := v4.Set(no, NewState(Start(no), 0.0));
      w4.Valid() && Victim(w4, no, false).Some? && Victim(w4, no, false).value != no
  {
    hide Lowest;
    var k := v4.order[0];
    assert k in v4.order && k in v4.at;
    var w4 := v4.Set(no, NewState(Start(no), 0.0));
    assert k in w4.order && Eligible(w4.at, no, true, k);
  }

  // ---- runs in which the wrong frame goes --------------------------------------------------------

  /** Across a wrap the newest delta in flight goes and the oldest stays. */
  lemma WrapEvictsNewest()
    ensures var first: u32, s := TWO32 - 23, Run(Starts(TWO32 - 23, 24)).0;
      && (forall k: u32 :: k in s.v4.at <==> Ahead(k, first) < 24) && 0 in s.v4.at && Ahead(0, first) == 23
      && 0 !in Run(Starts(first, 25)).0.v4.at && first in Run(Starts(first, 25)).0.v4.at
  {
    hide Run, Step, Victim;
    var first: u32, none: u32 := TWO32 - 23, 0;
    FloodRuns(first, 24);
    var s := Run(Starts(first, 24)).0;
    assert Ahead(none, first) == 23 && none in s.v4.at && Ahead(first, first) == 0 && first in s.v4.at;
    var no := Plus(first, 24);
    RunSnoc(Starts(first, 24), Datagram(Start(no), 0.0, 0.0));
    Offset(first, 24);
    NextSkipsNothing(s, no);
    WindowGrows(s.v4, first, 0, 24);
    LowestGoes(s.v4, no, none);
    OneForAnother(s, no, none);
  }

  /** A late first half of an older delta is kept, and a newer delta in flight makes room for it. */
  lemma LateEvictsNewer()
    ensures var s := Run(Starts(1, 24)).0;
      && 1 in s.v4.at && 0 !in s.v4.at
      && var t := Run(Starts(1, 24) + [Datagram(Start(0), 0.0, 0.0)]).0; 0 in t.v4.at && 1 !in t.v4.at
  {
    hide Run, Step, Victim;
    FloodRuns(1, 24);
    var s := Run(Starts(1, 24)).0;
    var one: u32, no: u32 := 1, 0;
    assert Ahead(one, 1) == 0 && Ahead(no, 1) == TWO32 - 1 && Plus(1, 23) == 24;
    assert one in s.v4.at && no !in s.v4.at;
    RunSnoc(Starts(1, 24), Datagram(Start(no), 0.0, 0.0));
    OldSkipsNothing(s, no);
    forall k: u32 | k in s.v4.at ensures one <= k { assert k != 0; }
    LowestGoes(s.v4, no, one);
    OneForAnother(s, no, one);
  }

  lemma LowestGoes(v4: Table<AsmState>, no: u32, low: u32)
    requires v4.Valid() && no !in v4.at && low in v4.at && forall k | k in v4.at :: low <= k && Begun(v4.at[k])
    ensures var w4 := v4.Set(no, NewState(Start(no), 0.0)); w4.Valid() && Victim(w4, no, false) == Some(low)
  {
    hide Lowest;
    var w4 := v4.Set(no, NewState(Start(no), 0.0));
    assert low in w4.order && Eligible(w4.at, no, true, low);
  }
}
