/**
 Nothing is decoded twice and nothing is decoded backwards, as long as the host's
 capture times and frame numbers agree; and what happens when they do not.
 */
module OrderMonotone {
  import opened Bytes
  import opened InsertionOrder
  import opened Wire
  import opened Orderer
  import opened OrderSafety

  /** `place` puts each frame of `fs` on the host's unbounded timeline: its number is the place modulo 2^32, the
      places span less than half the counter, and capture order agrees with them. */
  ghost predicate HostOrder(place: WtFrame -> int, base: int, fs: set<WtFrame>) {
    && (forall f | f in fs :: base <= place(f) < base + HALF && f.frameNo as int == place(f) % TWO32)
    && (forall f, g | f in fs && g in fs && place(f) <= place(g) :: f.captureUs <= g.captureUs)
  }

  function Offered(es: seq<Event>): set<WtFrame> {
    if |es| == 0 then {}
    else Offered(es[..|es| - 1]) + (if es[|es| - 1].Arrive? then {es[|es| - 1].f} else {})
  }

  ghost predicate Rising(place: WtFrame -> int, log: seq<WtFrame>) {
    forall i | 0 < i < |log| :: place(log[i - 1]) < place(log[i])
  }

  /** Everything held and handed over was offered, and the replay guard remembers the end of the log. */
  ghost predicate Known(s: State, log: seq<WtFrame>, fs: set<WtFrame>) {
    && (forall k | k in s.pending.at :: s.pending.at[k] in fs)
    && (forall f | f in log :: f in fs)
    && s.lastReleased == if |log| == 0 then None else Some(ReleasedOf(log[|log| - 1]))
  }

  lemma PlacesApart(a: int, b: int, base: int)
    requires base <= a <= b < base + HALF
    ensures var x, y := a % TWO32, b % TWO32; x == y || IsBefore(x, y)
  {
    var x, y := a % TWO32, b % TWO32;
    assert (y - x) % TWO32 == b - a;
  }

  lemma NextPlace(a: int, b: int, base: int)
    requires base <= a < base + HALF && base <= b < base + HALF
    requires b % TWO32 == Next(a % TWO32)
    ensures b == a + 1
  {
    assert (b - a) % TWO32 == 1;
  }

  /** A frame that is not a replay of the last one released lies strictly after it. */
  lemma FreshIsLater(place: WtFrame -> int, base: int, fs: set<WtFrame>, last: WtFrame, f: WtFrame)
    requires HostOrder(place, base, fs) && last in fs && f in fs
    requires !IsReplay(Some(ReleasedOf(last)), f)
    ensures place(last) < place(f)
  {
    if place(f) <= place(last) {
      PlacesApart(place(f), place(last), base);
    }
  }

  lemma RunRises(place: WtFrame -> int, base: int, fs: set<WtFrame>, out: seq<WtFrame>)
    requires HostOrder(place, base, fs) && (forall f | f in out :: f in fs)
    requires Consecutive(out)
    ensures Rising(place, out)
  {
    forall i | 0 < i < |out| ensures place(out[i - 1]) < place(out[i]) {
      assert out[i] in out && out[i - 1] in out;
      NextPlace(place(out[i - 1]), place(out[i]), base);
    }
  }

  lemma RisingJoin(place: WtFrame -> int, log: seq<WtFrame>, out: seq<WtFrame>)
    requires Rising(place, log) && Rising(place, out)
    requires |log| > 0 && |out| > 0 ==> place(log[|log| - 1]) < place(out[0])
    ensures Rising(place, log + out)
  {
    var all := log + out;
    forall i | 0 < i < |all| ensures place(all[i - 1]) < place(all[i]) {
      if i < |log| { assert all[i] == log[i] && all[i - 1] == log[i - 1]; }
      else if i == |log| { assert all[i] == out[0] && all[i - 1] == log[i - 1]; }
      else { assert all[i] == out[i - |log|] && all[i - 1] == out[i - |log| - 1]; }
    }
  }

  lemma StepKnown(s: State, e: Event, t: State, out: seq<WtFrame>, log: seq<WtFrame>, fs: set<WtFrame>)
    requires s.pending.Valid()
    requires Inv(s) && Known(s, log, fs) && e != Restart(true) && (e.Arrive? ==> e.f in fs)
    requires (t, out) == Step(s, e)
    ensures Known(t, log + out, fs)
    ensures forall f | f in out :: f in fs
  {
    hide Accept;
    if e.Arrive? {
      AcceptSafe(s, e.f);
      forall x | x in out ensures x in fs { assert x == e.f || Holds(s.pending, x); }
    }
    if |out| == 0 {
      assert log + out == log;
    } else {
      assert (log + out)[|log + out| - 1] == out[|out| - 1];
    }
  }

  lemma StepRises(place: WtFrame -> int, base: int, fs: set<WtFrame>, s: State, t: State,
                  log: seq<WtFrame>, out: seq<WtFrame>)
    requires HostOrder(place, base, fs)
    requires Inv(s) && Known(s, log, fs) && (forall f | f in out :: f in fs)
    requires Steps(s, t, out) && Rising(place, log)
    ensures Rising(place, log + out)
  {
    hide HostOrder, Rising;
    RunRises(place, base, fs, out);
    if |log| > 0 && |out| > 0 {
      var last := log[|log| - 1];
      assert last in log && out[0] in out;
      if out[0].key {
        FreshIsLater(place, base, fs, last, out[0]);
      } else {
        NextIsNoReplay(last.frameNo, last.captureUs, out[0]);
        FreshIsLater(place, base, fs, last, out[0]);
      }
    }
    RisingJoin(place, log, out);
  }

  /**
   No rewind: across any losses, duplicates, reorderings, give-ups and plain resets, everything handed to the
   decoder is strictly later on the host's timeline than what went before, so no frame is handed over twice.
   */
  lemma {:induction false} RunNeverRewinds(maxReorder: nat, es: seq<Event>, place: WtFrame -> int, base: int,
                                           fs: set<WtFrame>)
    requires HostOrder(place, base, fs)
    requires forall e | e in es :: e != Restart(true) && (e.Arrive? ==> e.f in fs)
    ensures Known(Run(Fresh(maxReorder), es).0, Run(Fresh(maxReorder), es).1, fs)
    ensures Rising(place, Run(Fresh(maxReorder), es).1)
  {
    hide HostOrder, Rising, Known, Inv, Step, Steps;
    if |es| == 0 {
      FreshKnown(maxReorder, place, fs);
    } else {
      var front, e := es[..|es| - 1], es[|es| - 1];
      assert e in es && forall x | x in front :: x in es;
      RunNeverRewinds(maxReorder, front, place, base, fs);
      RunSafe(maxReorder, front);
      var (s, log) := Run(Fresh(maxReorder), front);
      var (t, out) := Step(s, e);
      StepSafe(s, e);
      StepKnown(s, e, t, out, log, fs);
      StepRises(place, base, fs, s, t, log, out);
    }
  }

  lemma FreshKnown(maxReorder: nat, place: WtFrame -> int, fs: set<WtFrame>)
    ensures Known(Fresh(maxReorder), [], fs) && Rising(place, [])
  {}

  /** A rising log holds no frame twice, however far apart. */
  lemma {:induction false} RisingApart(place: WtFrame -> int, log: seq<WtFrame>, i: nat, j: nat)
    requires Rising(place, log) && i < j < |log|
    ensures place(log[i]) < place(log[j])
    decreases j - i
  {
    if j > i + 1 {
      RisingApart(place, log, i, j - 1);
    }
  }

  /** With nothing held, a frame at the cursor goes straight through. */
  lemma StraightThrough(s: State, f: WtFrame)
    requires s.pending == Empty() && s.next == Some(f.frameNo) && !IsReplay(s.lastReleased, f)
    ensures Insert(s, f) ==
      (s.(farAhead := 0, next := Some(Next(f.frameNo)), lastReleased := Some(ReleasedOf(f))), [f])
  {
    var m := s.(farAhead := 0, pending := s.pending.Set(f.frameNo, f));
    assert m.pending.Delete(f.frameNo) == Empty();
    var t := s.(farAhead := 0, next := Some(Next(f.frameNo)), lastReleased := Some(ReleasedOf(f)));
    assert Drain(t) == (t, []);
    assert Drain(m) == (t, [f] + []);
    assert [f] + [] == [f];
  }

  lemma KeyThrough(s: State, f: WtFrame)
    requires s.pending == Empty() && f.key && !IsReplay(s.lastReleased, f)
    ensures var (t, out) := Accept(s, f);
      t.pending == Empty() && t.next == Some(Next(f.frameNo)) && t.lastReleased == Some(ReleasedOf(f)) && out == [f]
  {
    hide Insert, Horizon;
    var a := Anchor(Clock(s, f), f);
    assert a.pending == Empty();
    StraightThrough(a, f);
  }

  lemma DeltaThrough(s: State, f: WtFrame)
    requires s.pending == Empty() && !f.key && s.next == Some(f.frameNo) && !IsReplay(s.lastReleased, f)
    ensures var (t, out) := Accept(s, f);
      t.pending == Empty() && t.next == Some(Next(f.frameNo)) && t.lastReleased == Some(ReleasedOf(f)) && out == [f]
  {
    hide Insert, Horizon;
    StraightThrough(Clock(s, f), f);
  }

  /** At or behind `no` on the wrapping counter. */
  predicate AtOrBehind(a: u32, no: u32) {
    a == no || IsBefore(a, no)
  }

  lemma NextIsAhead(no: u32)
    ensures !AtOrBehind(Next(no), no)
  {}

  lemma KeyHandsOver(s: State, f: WtFrame)
    requires s.pending.Valid()
    requires Inv(s) && f.key
    ensures if IsReplay(s.lastReleased, f) then Accept(s, f).1 == []
            else |Accept(s, f).1| > 0 && Accept(s, f).1[0] == f
  {
    hide Insert, Clock, Anchor, IsReplay, HoldUnanchored, AcceptAnchored;
    ClockSafe(s, f);
    if !IsReplay(s.lastReleased, f) {
      AnchorSafe(Clock(s, f), f);
    }
  }

  lemma DeltaHandsOver(s: State, f: WtFrame)
    requires s.pending.Valid()
    requires Inv(s) && !f.key && |Accept(s, f).1| > 0
    ensures s.next.Some? && s.lastReleased.Some? && Accept(s, f).1[0].frameNo == Next(s.lastReleased.value.no)
  {
    hide Accept;
    AcceptSafe(s, f);
    InvParts(s);
    var out := Accept(s, f).1;
    assert out[0] in out;
  }

  /**
   The output goes back, or repeats itself, at an arrival exactly if that is a keyframe numbered at or behind the last
   frame handed over and captured after it: the one case in which the replay guard and the numbers disagree.
   */
  lemma RewindsExactly(s: State, f: WtFrame)
    requires s.pending.Valid()
    requires Inv(s) && s.lastReleased.Some?
    ensures var out, last := Accept(s, f).1, s.lastReleased.value;
      |out| > 0 && AtOrBehind(out[0].frameNo, last.no)
      <==> f.key && AtOrBehind(f.frameNo, last.no) && f.captureUs > last.captureUs
  {
    hide Accept, Inv, IsBefore;
    if f.key {
      KeyHandsOver(s, f);
    } else if |Accept(s, f).1| > 0 {
      DeltaHandsOver(s, f);
      NextIsAhead(s.lastReleased.value.no);
    }
  }

  /** Agreement is needed: a keyframe whose number is spent but whose capture time is newer is decoded again. */
  lemma DisagreementRewinds(k: WtFrame, d: WtFrame, again: WtFrame)
    requires k.key && !d.key && again.key
    requires d.frameNo == Next(k.frameNo) && again.frameNo == k.frameNo
    requires d.captureUs < again.captureUs
    ensures Run(Fresh(MAX_REORDER), [Arrive(k), Arrive(d), Arrive(again)]).1 == [k, d, again]
  {
    hide Accept;
    var s0 := Fresh(MAX_REORDER);
    KeyThrough(s0, k);
    var s1 := Accept(s0, k).0;
    NextIsNoReplay(k.frameNo, k.captureUs, d);
    DeltaThrough(s1, d);
    var s2 := Accept(s1, d).0;
    KeyThrough(s2, again);
    var es := [Arrive(k), Arrive(d), Arrive(again)];
    assert es[..2] == [Arrive(k), Arrive(d)] && es[..2][..1] == [Arrive(k)] && es[..2][..1][..0] == [];
    assert [] + [k] == [k] && [k] + [d] == [k, d] && [k, d] + [again] == [k, d, again];
    assert Run(s0, [Arrive(k)]) == (s1, [k]);
    assert Run(s0, es[..2]) == (s2, [k, d]);
  }
}
