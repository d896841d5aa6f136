/** What every run of the frame orderer keeps, whatever arrives and in whatever order. */
module OrderSafety {
  import opened Bytes
  import opened InsertionOrder
  import opened Wire
  import opened Orderer

  // ---- the invariant -----------------------------------------------------------

  /** Held frames are filed under their own numbers. */
  ghost predicate Filed(p: Table<WtFrame>) {
    p.Valid() && forall k | k in p.at :: p.at[k].frameNo == k
  }

  ghost predicate Inv(s: State) {
    && Filed(s.pending)
    && s.pending.Size() <= 64
    && (forall k | k in s.pending.at :: !s.pending.at[k].key)
    && 180.0 <= s.budgetMs <= 300.0
    && (s.resync ==> s.next.None?)
    && (s.next.Some? ==>
          && s.lastReleased.Some? && s.next.value == Next(s.lastReleased.value.no)
          && s.next.value !in s.pending.at
          && forall k | k in s.pending.at :: Ahead(k, s.next.value) < HALF)
  }

  /** Consecutive numbers, and only the first may be a keyframe. */
  ghost predicate Consecutive(fs: seq<WtFrame>) {
    forall i | 0 < i < |fs| :: fs[i].frameNo == Next(fs[i - 1].frameNo) && !fs[i].key
  }

  function ReleasedOf(f: WtFrame): Released { Released(f.frameNo, f.captureUs) }

  // ---- one step of the drain loop ----

  function Handed(s: State, f: WtFrame): State {
    s.(pending := s.pending.Delete(f.frameNo), next := Some(Next(f.frameNo)), lastReleased := Some(ReleasedOf(f)))
  }

  lemma DrainOnce(s: State, f: WtFrame)
    requires s.pending.Valid()
    requires s.next == Some(f.frameNo) && f.frameNo in s.pending.at && s.pending.at[f.frameNo] == f
    requires !IsReplay(s.lastReleased, f)
    ensures Handed(s, f).pending.Valid()
    ensures Drain(s) == (Drain(Handed(s, f)).0, [f] + Drain(Handed(s, f)).1)
  {}

  lemma DrainNone(s: State)
    requires s.pending.Valid() && (s.next.None? || s.next.value !in s.pending.at)
    ensures Drain(s) == (s, [])
  {}

  lemma DrainReplay(s: State, no: u32)
    requires s.pending.Valid() && s.next == Some(no) && no in s.pending.at
    requires IsReplay(s.lastReleased, s.pending.at[no])
    ensures Drain(s) == (s.(pending := s.pending.Delete(no)), [])
  {}

  // ---- draining -------------------------------------------------------------------

  /** Anchored with the cursor's frame possibly held: what the drain loop starts from. */
  ghost predicate Draining(s: State) {
    && Filed(s.pending) && s.next.Some?
    && (forall k | k in s.pending.at :: Ahead(k, s.next.value) < HALF && (s.pending.at[k].key ==> k == s.next.value))
    && (s.next.value in s.pending.at ==> !IsReplay(s.lastReleased, s.pending.at[s.next.value]))
  }

  lemma AheadNext(k: u32, n: u32)
    requires k != n
    ensures Ahead(k, Next(n)) == Ahead(k, n) - 1
  {}

  lemma NextIsNoReplay(no: u32, captureUs: nat, f: WtFrame)
    requires f.frameNo == Next(no)
    ensures !IsReplay(Some(Released(no, captureUs)), f)
  {}

  ghost predicate Holds(p: Table<WtFrame>, f: WtFrame) {
    f.frameNo in p.at && p.at[f.frameNo] == f
  }

  /** `t` and `out` as a drain from `s` leaves them. */
  ghost predicate Drained(s: State, t: State, out: seq<WtFrame>)
    requires s.next.Some?
  {
    && t == s.(pending := t.pending, next := t.next, lastReleased := t.lastReleased)
    && Filed(t.pending) && t.next.Some? && t.next.value !in t.pending.at
    && (forall k | k in t.pending.at :: Ahead(k, t.next.value) < HALF && !t.pending.at[k].key)
    && Consecutive(out)
    && t.pending.Size() + |out| == s.pending.Size()
    && (forall x | x in out :: Holds(s.pending, x))
    && (forall k | k in t.pending.at :: k in s.pending.at && t.pending.at[k] == s.pending.at[k])
    && (if |out| == 0 then t == s && s.next.value !in s.pending.at
        else s.next.value in s.pending.at && out[0] == s.pending.at[s.next.value]
             && t.lastReleased == Some(ReleasedOf(out[|out| - 1]))
             && t.next.value == Next(out[|out| - 1].frameNo))
  }

  function Release(s: State): (t: State)
    requires s.next.Some? && s.next.value in s.pending.at
  {
    var f := s.pending.at[s.next.value];
    s.(pending := s.pending.Delete(s.next.value), next := Some(Next(s.next.value)), lastReleased := Some(ReleasedOf(f)))
  }

  lemma ReleaseDraining(s: State)
    requires Draining(s) && s.next.value in s.pending.at
    ensures Draining(Release(s))
    ensures forall k | k in Release(s).pending.at :: !Release(s).pending.at[k].key
  {
    var n := s.next.value;
    var f, t := s.pending.at[n], Release(s);
    forall k | k in t.pending.at
      ensures Ahead(k, Next(n)) < HALF && !t.pending.at[k].key
    {
      AheadNext(k, n);
    }
    if Next(n) in t.pending.at {
      NextIsNoReplay(n, f.captureUs, t.pending.at[Next(n)]);
    }
  }

  lemma DrainedCons(s: State, t: State, out: seq<WtFrame>)
    requires Draining(s) && s.next.value in s.pending.at
    requires forall k | k in Release(s).pending.at :: !Release(s).pending.at[k].key
    requires Drained(Release(s), t, out)
    ensures Drained(s, t, [s.pending.at[s.next.value]] + out)
  {
    hide IsReplay;
    var f := s.pending.at[s.next.value];
    var all := [f] + out;
    if |out| > 0 {
      assert all[|all| - 1] == out[|out| - 1];
      assert out[0] == Release(s).pending.at[Next(s.next.value)];
    }
    forall i | 0 < i < |all| ensures all[i].frameNo == Next(all[i - 1].frameNo) && !all[i].key {
      if i == 1 { assert all[1] == out[0]; } else { assert all[i] == out[i - 1] && all[i - 1] == out[i - 2]; }
    }
  }

  lemma {:induction false} DrainSafe(s: State)
    requires Draining(s)
    ensures Drained(s, Drain(s).0, Drain(s).1)
    decreases |s.pending.at|
  {
    var n := s.next.value;
    if n in s.pending.at {
      ReleaseDraining(s);
      DrainSafe(Release(s));
      hide Draining, Drained;
      assert Drain(s) == (Drain(Release(s)).0, [s.pending.at[n]] + Drain(Release(s)).1) by { DrainStep(s); }
      DrainedCons(s, Drain(Release(s)).0, Drain(Release(s)).1);
    }
  }

  lemma DrainStep(s: State)
    requires Draining(s) && s.next.value in s.pending.at
    ensures Release(s).pending.Valid()
    ensures Drain(s) == (Drain(Release(s)).0, [s.pending.at[s.next.value]] + Drain(Release(s)).1)
  {}

  /** What one transition hands over and how the cursor follows it. */
  ghost predicate Steps(s: State, t: State, out: seq<WtFrame>) {
    && Consecutive(out)
    && (|out| > 0 ==> (out[0].key || (s.next.Some? && out[0].frameNo == s.next.value))
                      && t.lastReleased == Some(ReleasedOf(out[|out| - 1])))
    && (|out| > 0 && out[0].key ==> !IsReplay(s.lastReleased, out[0]))
    && (|out| == 0 ==> t.lastReleased == s.lastReleased && (t.next.Some? ==> t.next == s.next))
  }

  /** Nothing is held or handed over that was not held before or offered now. */
  ghost predicate FromOffers(s: State, f: WtFrame, t: State, out: seq<WtFrame>) {
    && (forall x | x in out :: x == f || Holds(s.pending, x))
    && (forall k | k in t.pending.at :: t.pending.at[k] == f || (k in s.pending.at && t.pending.at[k] == s.pending.at[k]))
  }

  lemma UnspentIsSmall(s: State, newestUs: nat)
    requires s.pending.Valid() && !Spent(s, newestUs)
    ensures s.pending.Size() <= MAX_HELD_FRAMES
  {}

  lemma BudgetSafe(t: State, newestUs: nat)
    requires Filed(t.pending) && t.next.Some? && t.next.value !in t.pending.at
    requires forall k | k in t.pending.at :: Ahead(k, t.next.value) < HALF && !t.pending.at[k].key
    requires 180.0 <= t.budgetMs <= REORDER_BUDGET_MS && !t.resync
    requires t.lastReleased.Some? && t.next.value == Next(t.lastReleased.value.no)
    ensures Inv(BudgetSpent(t, newestUs))
    ensures BudgetSpent(t, newestUs).next.Some? ==> !Spent(BudgetSpent(t, newestUs), newestUs)
  {
    hide HeldTooLong;
    if !Spent(t, newestUs) {
      UnspentIsSmall(t, newestUs);
    }
  }

  lemma DrainedSteps(s: State, f: WtFrame, t: State, out: seq<WtFrame>)
    requires Filed(s.pending) && s.next.Some?
    requires Draining(s.(farAhead := 0, pending := s.pending.Set(f.frameNo, f)))
    requires Drained(s.(farAhead := 0, pending := s.pending.Set(f.frameNo, f)), t, out)
    requires f.key ==> f.frameNo == s.next.value
    ensures Steps(s, t, out) && FromOffers(s, f, t, out)
    ensures |out| == 0 ==> t.next == s.next && t.lastReleased == s.lastReleased
    ensures |out| > 0 ==> t.next.value == Next(t.lastReleased.value.no)
    ensures s.next.value in s.pending.Set(f.frameNo, f).at ==>
      |out| > 0 && out[0] == s.pending.Set(f.frameNo, f).at[s.next.value]
    ensures s.next.value !in s.pending.Set(f.frameNo, f).at ==> |out| == 0
  {}

  lemma InsertSafe(s: State, f: WtFrame)
    requires Filed(s.pending)
    requires Draining(s.(farAhead := 0, pending := s.pending.Set(f.frameNo, f)))
    requires s.next.Some? && 180.0 <= s.budgetMs <= REORDER_BUDGET_MS && !s.resync
    requires f.key ==> f.frameNo == s.next.value
    requires f.key || (s.lastReleased.Some? && s.next.value == Next(s.lastReleased.value.no))
    ensures var (t, out) := Insert(s, f);
      && Inv(t) && Steps(s, t, out) && FromOffers(s, f, t, out)
      && (t.next.Some? ==> !Spent(t, f.captureUs))
      && (s.next.value in s.pending.Set(f.frameNo, f).at ==>
            |out| > 0 && out[0] == s.pending.Set(f.frameNo, f).at[s.next.value])
      && (s.next.value !in s.pending.Set(f.frameNo, f).at ==> |out| == 0)
  {
    hide Drain, Spent, Inv, Draining;
    var m := s.(farAhead := 0, pending := s.pending.Set(f.frameNo, f));
    DrainSafe(m);
    var (t, out) := Drain(m);
    DrainedSteps(s, f, t, out);
    BudgetSafe(t, f.captureUs);
  }

  // ---- one transition ---------------------------------------------------------------------

  /** The arrival is one the code drops outright: behind the cursor, or a keyframe already had. */
  predicate Dropped(s: State, f: WtFrame) {
    if f.key then IsReplay(s.lastReleased, f) else s.next.Some? && IsBefore(f.frameNo, s.next.value)
  }

  lemma OldestIsHeld(s: State)
    requires Filed(s.pending)
    ensures var o := Oldest(s.pending.order, s.pending.at); o.Some? ==> Holds(s.pending, o.value)
    ensures Oldest(s.pending.order, s.pending.at).None? <==> s.pending.Size() == 0
  {
    hide Oldest;
    var o := Oldest(s.pending.order, s.pending.at);
    if o.Some? {
      var k :| k in s.pending.order && s.pending.at[k] == o.value;
    }
  }

  lemma RoomSafe(p: Table<WtFrame>, oldest: WtFrame)
    requires Filed(p) && Holds(p, oldest)
    ensures Filed(p.Delete(oldest.frameNo)) && p.Delete(oldest.frameNo).Size() == p.Size() - 1
  {}

  lemma SetSafe(s: State, p: Table<WtFrame>, f: WtFrame, keyDue: bool)
    requires Filed(p) && !f.key && (forall k | k in p.at :: !p.at[k].key)
    requires p.Size() + (if f.frameNo in p.at then 0 else 1) <= MAX_HELD_FRAMES
    requires Inv(s) && s.next.None?
    requires forall k | k in p.at :: k in s.pending.at && p.at[k] == s.pending.at[k]
    ensures var t := s.(pending := p.Set(f.frameNo, f), keyDue := keyDue);
      Inv(t) && FromOffers(s, f, t, [])
  {}

  lemma InvParts(s: State)
    requires Inv(s)
    ensures Filed(s.pending) && s.pending.Size() <= MAX_HELD_FRAMES
    ensures forall k | k in s.pending.at :: !s.pending.at[k].key
  {}

  lemma Unchanged(s: State, f: WtFrame)
    ensures FromOffers(s, f, s, [])
  {}

  lemma HoldSafe(s: State, f: WtFrame)
    requires s.pending.Valid()
    requires Inv(s) && s.next.None? && !f.key
    ensures var t := HoldUnanchored(s, f);
      Inv(t) && FromOffers(s, f, t, []) && t == s.(pending := t.pending, keyDue := t.keyDue)
  {
    hide Inv, FromOffers, Oldest;
    InvParts(s);
    Unchanged(s, f);
    OldestIsHeld(s);
    var full := f.frameNo !in s.pending.at && s.pending.Size() >= MAX_HELD_FRAMES;
    var oldest := Oldest(s.pending.order, s.pending.at);
    var due := s.keyDue || s.keyDueAtUs.None? || s.newestUs >= s.keyDueAtUs.value;
    if full && oldest.Some? {
      RoomSafe(s.pending, oldest.value);
      SetSafe(s, s.pending.Delete(oldest.value.frameNo), f, due);
    } else if !full {
      SetSafe(s, s.pending, f, due);
    }
  }

  lemma ClockSafe(s: State, f: WtFrame)
    requires Inv(s)
    ensures var t := Clock(s, f);
      && Inv(t)
      && t == s.(cadenceUs := t.cadenceUs, lastCaptureUs := t.lastCaptureUs, newestUs := t.newestUs,
                 keyDueAtUs := t.keyDueAtUs)
  {}

  lemma AnchorDraining(s: State, f: WtFrame)
    requires Inv(s) && f.key && !IsReplay(s.lastReleased, f)
    ensures var a := Anchor(s, f);
      && Filed(a.pending) && a.next == Some(f.frameNo) && !a.resync && a.budgetMs == s.budgetMs
      && Draining(a.(pending := a.pending.Set(f.frameNo, f)))
      && a.lastReleased == s.lastReleased
      && forall k | k in a.pending.at :: k in s.pending.at && a.pending.at[k] == s.pending.at[k]
  {
    hide Horizon, IsReplay, KeepPlausible;
  }

  lemma AnchorSafe(s: State, f: WtFrame)
    requires s.pending.Valid()
    requires Inv(s) && f.key && !IsReplay(s.lastReleased, f)
    ensures var (t, out) := Insert(Anchor(s, f), f);
      && Inv(t) && Steps(s, t, out) && FromOffers(s, f, t, out)
      && (t.next.Some? ==> !Spent(t, f.captureUs))
      && |out| > 0 && out[0] == f
  {
    hide Insert, HeldTooLong, Horizon, Anchor, IsReplay;
    AnchorDraining(s, f);
    InsertSafe(Anchor(s, f), f);
  }

  lemma WindowDraining(s: State, f: WtFrame)
    requires Inv(s) && !f.key && s.next.Some? && Ahead(f.frameNo, s.next.value) < HALF
    ensures Filed(s.pending) && !s.resync && 180.0 <= s.budgetMs <= REORDER_BUDGET_MS
    ensures s.lastReleased.Some? && s.next.value == Next(s.lastReleased.value.no)
    ensures Draining(s.(farAhead := 0, pending := s.pending.Set(f.frameNo, f)))
  {
    hide IsReplay, Ahead;
    if f.frameNo == s.next.value {
      NextIsNoReplay(s.lastReleased.value.no, s.lastReleased.value.captureUs, f);
    }
  }

  lemma InWindowSafe(s: State, f: WtFrame)
    requires Inv(s) && !f.key && s.next.Some? && Ahead(f.frameNo, s.next.value) < HALF
    ensures s.pending.Valid()
    ensures var (t, out) := Insert(s, f);
      && Inv(t) && Steps(s, t, out) && FromOffers(s, f, t, out)
      && (t.next.Some? ==> !Spent(t, f.captureUs))
  {
    WindowDraining(s, f);
    hide Insert, HeldTooLong, Inv, Draining, Ahead, Steps, FromOffers;
    InsertSafe(s, f);
  }

  /** One arrival keeps the invariant, hands over a consecutive run, and leaves an anchored hole within budget. */
  lemma AcceptSafe(s0: State, f: WtFrame)
    requires s0.pending.Valid()
    requires Inv(s0)
    ensures var (t, out) := Accept(s0, f);
      && Inv(t) && Steps(s0, t, out) && FromOffers(s0, f, t, out)
      && (t.next.Some? && !Dropped(s0, f) ==> !Spent(t, f.captureUs))
  {
    hide Insert, HoldUnanchored, HeldTooLong, Horizon, Clock, Anchor, IsReplay;
    var s := Clock(s0, f);
    ClockSafe(s0, f);
    if f.key {
      if !IsReplay(s.lastReleased, f) {
        AnchorSafe(s, f);
      }
    } else if s.next.None? {
      if !IsReplay(s.lastReleased, f) {
        HoldSafe(s, f);
      }
    } else if !IsBefore(f.frameNo, s.next.value) && !Spent(s, f.captureUs)
           && IsPlausibleNext(f.frameNo, s.next.value, Horizon(s)) {
      InWindowSafe(s, f);
    }
  }

  // ---- whole runs -----------------------------------------------------------------------------

  datatype Event = Arrive(f: WtFrame) | Restart(newStream: bool) | RttMeasured(ms: real) | KeyAsked

  function Step(s: State, e: Event): (r: (State, seq<WtFrame>))
    requires s.pending.Valid()
    ensures r.0.pending.Valid()
  {
    match e
    case Arrive(f) => Accept(s, f)
    case Restart(newStream) => (Reset(s, newStream), [])
    case RttMeasured(ms) => (SetRtt(s, ms), [])
    case KeyAsked => (KeyframeRequested(s), [])
  }

  /** The state after a run, and everything handed to the decoder along it. */
  function Run(s: State, es: seq<Event>): (r: (State, seq<WtFrame>))
    requires s.pending.Valid()
    ensures r.0.pending.Valid()
  {
    if |es| == 0 then (s, [])
    else
      var (t, log) := Run(s, es[..|es| - 1]);
      var (u, out) := Step(t, es[|es| - 1]);
      (u, log + out)
  }

  /** Every delta is handed over right behind the frame numbered one less; a break starts at a keyframe. */
  ghost predicate Chained(log: seq<WtFrame>) {
    forall i | 0 <= i < |log| :: log[i].key || (i > 0 && log[i].frameNo == Next(log[i - 1].frameNo))
  }

  /** The cursor follows the end of what was handed over. */
  ghost predicate Follows(s: State, log: seq<WtFrame>) {
    s.next.Some? ==> |log| > 0 && s.lastReleased == Some(ReleasedOf(log[|log| - 1]))
  }

  lemma ChainExtends(s: State, t: State, log: seq<WtFrame>, out: seq<WtFrame>)
    requires Inv(s) && Inv(t) && Steps(s, t, out)
    requires Chained(log) && Follows(s, log)
    ensures Chained(log + out) && Follows(t, log + out)
  {
    var all := log + out;
    forall i | 0 <= i < |all|
      ensures all[i].key || (i > 0 && all[i].frameNo == Next(all[i - 1].frameNo))
    {
      if i > |log| {
        assert all[i] == out[i - |log|] && all[i - 1] == out[i - |log| - 1];
      } else if i == |log| {
        assert all[i] == out[0];
        if i > 0 { assert all[i - 1] == log[i - 1]; }
      } else {
        assert all[i] == log[i];
        if i > 0 { assert all[i - 1] == log[i - 1]; }
      }
    }
    if |out| > 0 {
      assert all[|all| - 1] == out[|out| - 1];
    } else {
      assert all == log;
    }
  }

  lemma StepSafe(s: State, e: Event)
    requires Inv(s)
    ensures Inv(Step(s, e).0)
    ensures e != Restart(true) ==> Steps(s, Step(s, e).0, Step(s, e).1)
    ensures e == Restart(true) ==> Step(s, e).1 == [] && Step(s, e).0.next.None?
  {
    hide Accept;
    if e.Arrive? {
      AcceptSafe(s, e.f);
    }
  }

  /** The invariant and reference-chain safety over every run, resets and RTT changes included. */
  lemma {:induction false} RunSafe(maxReorder: nat, es: seq<Event>)
    ensures var (t, log) := Run(Fresh(maxReorder), es);
      Inv(t) && Chained(log) && Follows(t, log)
  {
    hide Inv, Chained, Follows, Steps, Step;
    if |es| == 0 {
      FreshSafe(maxReorder);
    } else {
      RunSafe(maxReorder, es[..|es| - 1]);
      var (s, log) := Run(Fresh(maxReorder), es[..|es| - 1]);
      var e := es[|es| - 1];
      StepSafe(s, e);
      if e != Restart(true) {
        ChainExtends(s, Step(s, e).0, log, Step(s, e).1);
      } else {
        RestartChain(s, Step(s, e).0, log);
        assert log + [] == log;
      }
    }
  }

  lemma FreshSafe(maxReorder: nat)
    ensures Inv(Fresh(maxReorder)) && Chained([]) && Follows(Fresh(maxReorder), [])
  {}

  lemma RestartChain(s: State, t: State, log: seq<WtFrame>)
    requires t.next.None?
    ensures Follows(t, log)
  {}
}
