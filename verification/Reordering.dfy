/**
 Reordering is invisible: the next frames of a stream, or a keyframe and the deltas behind
 it, delivered in any order with any repetition, come out exactly once each and in order.
 */
module Reordering {
  import opened Bytes
  import opened InsertionOrder
  import opened Wire
  import opened Orderer
  import opened OrderSafety
  import opened OrderReach

  /** Up to 64 frames consecutively numbered and captured in order, only the first perhaps a keyframe. */
  ghost predicate IsBurst(fs: seq<WtFrame>) {
    && 0 < |fs| <= 64
    && (forall i | 0 <= i < |fs| :: (fs[i].key ==> i == 0) && fs[i].frameNo == Plus(fs[0].frameNo, i))
    && (forall i, j | 0 <= i <= j < |fs| :: fs[i].captureUs <= fs[j].captureUs)
  }

  /** Captured within a repair budget. */
  ghost predicate Fits(fs: seq<WtFrame>, budgetMs: real) {
    |fs| > 0 && (fs[|fs| - 1].captureUs - fs[0].captureUs) as real / 1000.0 < budgetMs
  }

  /** Nothing is held in `s0` and the burst is next: from the cursor on, or by its keyframe while nothing anchors. */
  ghost predicate Continues(s0: State, fs: seq<WtFrame>) {
    && |fs| > 0 && s0.pending == Empty()
    && (if s0.next.Some? then s0.next.value == fs[0].frameNo
        else fs[0].key && forall i | 0 <= i < |fs| :: !IsReplay(s0.lastReleased, fs[i]))
  }

  /** What is held is exactly the frames of `fs` at the offsets of `held`. */
  ghost predicate Holding(p: Table<WtFrame>, fs: seq<WtFrame>, held: set<nat>) {
    && (forall i | i in held :: i < |fs| && Holds(p, fs[i]))
    && (forall k | k in p.at :: exists i :: i in held && i < |fs| && p.at[k] == fs[i])
  }

  /** The first offset from `i` on that has not arrived. */
  function FirstGap(arrived: set<nat>, i: nat, n: nat): (g: nat)
    requires i <= n
    ensures i <= g <= n
    ensures forall k | i <= k < g :: k in arrived
    ensures g < n ==> g !in arrived
    decreases n - i
  {
    if i < n && i in arrived then FirstGap(arrived, i + 1, n) else i
  }

  lemma GapUnique(arrived: set<nat>, n: nat, g: nat)
    requires g <= n && (forall k | 0 <= k < g :: k in arrived) && (g < n ==> g !in arrived)
    ensures FirstGap(arrived, 0, n) == g
  {
    var h := FirstGap(arrived, 0, n);
    assert h < g ==> h in arrived;
    assert g < h ==> g in arrived;
  }

  lemma PlusWraps(n: u32, k: nat)
    requires k < TWO32
    ensures Plus(n, k) == if n + k < TWO32 then n + k else n + k - TWO32
  {}

  lemma Offsets(n: u32, i: nat, k: nat)
    requires i <= MAX_HELD_FRAMES + 1 && k <= MAX_HELD_FRAMES + 1
    ensures i >= k ==> Ahead(Plus(n, i), Plus(n, k)) == i - k
    ensures i < k ==> IsBefore(Plus(n, i), Plus(n, k))
    ensures Next(Plus(n, i)) == Plus(n, i + 1)
    ensures Plus(n, i) == Plus(n, k) ==> i == k
  {
    hide Plus;
    PlusWraps(n, i);
    PlusWraps(n, k);
    PlusWraps(n, i + 1);
    hide Ahead;
    AheadIs(Plus(n, i), Plus(n, k));
  }

  lemma AheadIs(a: u32, b: u32)
    ensures Ahead(a, b) == if a >= b then a - b else a - b + TWO32
  {}

  // ---- sizes ---------------------------------------------------------------------

  lemma {:induction false} SubsetSize(a: set<nat>, lo: nat, n: nat)
    requires lo <= n && forall i | i in a :: lo <= i < n
    ensures |a| <= n - lo
    decreases n
  {
    if lo == n {
      assert a == {};
    } else if n - 1 in a {
      SubsetSize(a - {n - 1}, lo, n - 1);
    } else {
      SubsetSize(a, lo, n - 1);
    }
  }

  lemma EmptyOrder(order: seq<u32>)
    ensures |order| > 0 ==> exists k :: k in order
  {
    if |order| > 0 {
      assert order[0] in order;
    }
  }

  lemma {:induction false} HoldingSize(p: Table<WtFrame>, fs: seq<WtFrame>, held: set<nat>)
    requires Filed(p) && Holding(p, fs, held)
    ensures p.Size() <= |held|
    decreases held
  {
    if held == {} {
      assert forall k | k in p.order :: k in p.at;
      EmptyOrder(p.order);
    } else {
      var i :| i in held;
      var q := p.Delete(fs[i].frameNo);
      var rest := set h | h in held && fs[h].frameNo != fs[i].frameNo;
      assert rest <= held - {i};
      forall k | k in q.at ensures exists h :: h in rest && h < |fs| && q.at[k] == fs[h] {
        var h :| h in held && h < |fs| && p.at[k] == fs[h];
        assert h in rest;
      }
      HoldingSize(q, fs, rest);
      SmallerSet(rest, held - {i});
    }
  }

  /** A burst never spends the budget: it spans less than the shortest one and there is room for all of it. */
  lemma BurstInBudget(p: Table<WtFrame>, fs: seq<WtFrame>, held: set<nat>, budgetMs: real, j: nat)
    requires IsBurst(fs) && j < |fs| && Fits(fs, budgetMs)
    requires Filed(p) && Holding(p, fs, held)
    ensures !HeldTooLong(p, budgetMs, fs[j].captureUs)
    ensures p.Size() <= |fs|
  {
    HoldingSize(p, fs, held);
    SubsetSize(held, 0, |fs|);
    if p.Size() > 0 {
      var o := Oldest(p.order, p.at).value;
      var k :| k in p.order && p.at[k] == o;
      var i :| i in held && i < |fs| && p.at[k] == fs[i];
      assert fs[0].captureUs <= fs[i].captureUs && fs[j].captureUs <= fs[|fs| - 1].captureUs;
    }
  }

  // ---- draining and inserting ---------------------------------------------------------

  function From(a: set<nat>, g: nat): (r: set<nat>)
    ensures forall i :: i in r <==> i in a && i >= g
  {
    set i | i in a && i >= g
  }

  /** The cursor at offset `k`, everything of the burst before it released. */
  ghost predicate At(s0: State, s: State, fs: seq<WtFrame>, k: nat) {
    && k <= |fs| && |fs| > 0
    && s.next == Some(Plus(fs[0].frameNo, k))
    && s.lastReleased == if k == 0 then s0.lastReleased else Some(ReleasedOf(fs[k - 1]))
  }

  lemma DeleteHolding(p: Table<WtFrame>, fs: seq<WtFrame>, held: set<nat>, k: nat)
    requires IsBurst(fs) && Filed(p) && Holding(p, fs, held) && k in held
    ensures Filed(p.Delete(fs[k].frameNo)) && Holding(p.Delete(fs[k].frameNo), fs, held - {k})
  {
    var q := p.Delete(fs[k].frameNo);
    forall i | i in held - {k} ensures Holds(q, fs[i]) {
      Offsets(fs[0].frameNo, i, k);
    }
    forall x | x in q.at ensures exists i :: i in held - {k} && i < |fs| && q.at[x] == fs[i] {
      var i :| i in held && i < |fs| && p.at[x] == fs[i];
      assert i != k;
    }
  }

  lemma SetHolding(p: Table<WtFrame>, fs: seq<WtFrame>, held: set<nat>, j: nat)
    requires IsBurst(fs) && Filed(p) && Holding(p, fs, held) && j < |fs|
    ensures Filed(p.Set(fs[j].frameNo, fs[j])) && Holding(p.Set(fs[j].frameNo, fs[j]), fs, held + {j})
  {
    var q := p.Set(fs[j].frameNo, fs[j]);
    forall i | i in held ensures Holds(q, fs[i]) {
      Offsets(fs[0].frameNo, i, j);
    }
    forall x | x in q.at ensures exists i :: i in held + {j} && i < |fs| && q.at[x] == fs[i] {
      if x == fs[j].frameNo {
        assert j in held + {j} && q.at[x] == fs[j];
      } else {
        var i :| i in held && i < |fs| && p.at[x] == fs[i];
        assert i in held + {j};
      }
    }
  }

  lemma SlotHeld(p: Table<WtFrame>, fs: seq<WtFrame>, held: set<nat>, k: nat)
    requires IsBurst(fs) && Filed(p) && Holding(p, fs, held) && k <= |fs|
    ensures Plus(fs[0].frameNo, k) in p.at <==> k in held
  {
    var no := Plus(fs[0].frameNo, k);
    if no in p.at {
      var i :| i in held && i < |fs| && p.at[no] == fs[i];
      Offsets(fs[0].frameNo, i, k);
    }
  }

  lemma {:induction false} DrainBurst(s0: State, s: State, fs: seq<WtFrame>, held: set<nat>, k: nat, g: nat)
    requires s.pending.Valid()
    requires Inv(s0) && Continues(s0, fs)
    requires IsBurst(fs) && Filed(s.pending) && Holding(s.pending, fs, held)
    requires At(s0, s, fs, k) && k <= g <= |fs|
    requires (forall i | k <= i < g :: i in held) && g !in held && (forall i | i in held :: i >= k)
    ensures var (t, out) := Drain(s);
      && out == fs[k..g] && At(s0, t, fs, g) && Filed(t.pending) && Holding(t.pending, fs, From(held, g))
      && t == s.(pending := t.pending, next := t.next, lastReleased := t.lastReleased)
    decreases g - k
  {
    hide Holding, Filed, IsReplay, Drain, IsBurst, Inv, Continues;
    SlotHeld(s.pending, fs, held, k);
    if k == g {
      assert From(held, g) == held;
      DrainNone(s);
    } else {
      var f := fs[k];
      SlotIs(s.pending, fs, held, k);
      FreshInBurst(s0, s, fs, k);
      DrainOnce(s, f);
      DeleteHolding(s.pending, fs, held, k);
      BurstSize(fs);
      Offsets(fs[0].frameNo, k, k + 1);
      DrainBurst(s0, Handed(s, f), fs, held - {k}, k + 1, g);
      assert From(held - {k}, g) == From(held, g);
      assert [f] + fs[k + 1..g] == fs[k..g];
    }
  }

  lemma BurstSize(fs: seq<WtFrame>)
    requires IsBurst(fs)
    ensures 0 < |fs| <= MAX_HELD_FRAMES
  {}

  lemma SlotIs(p: Table<WtFrame>, fs: seq<WtFrame>, held: set<nat>, k: nat)
    requires IsBurst(fs) && Holding(p, fs, held) && k in held
    ensures k < |fs| && Plus(fs[0].frameNo, k) == fs[k].frameNo && fs[k].frameNo in p.at && p.at[fs[k].frameNo] == fs[k]
  {
    assert Holds(p, fs[k]);
  }

  lemma FreshInBurst(s0: State, s: State, fs: seq<WtFrame>, k: nat)
    requires Inv(s0) && Continues(s0, fs)
    requires IsBurst(fs) && At(s0, s, fs, k) && k < |fs|
    ensures !IsReplay(s.lastReleased, fs[k])
  {
    if k == 0 {
      FirstIsFresh(s0, fs);
    } else {
      Offsets(fs[0].frameNo, k - 1, k);
      NextIsNoReplay(fs[k - 1].frameNo, fs[k - 1].captureUs, fs[k]);
    }
  }

  lemma FirstIsFresh(s0: State, fs: seq<WtFrame>)
    requires Inv(s0) && Continues(s0, fs)
    ensures !IsReplay(s0.lastReleased, fs[0])
  {
    if s0.next.Some? {
      NextIsNoReplay(s0.lastReleased.value.no, s0.lastReleased.value.captureUs, fs[0]);
    }
  }

  /** Inserting offset `j` at or after the cursor releases up to the next gap. */
  lemma InsertBurst(s0: State, s: State, fs: seq<WtFrame>, held: set<nat>, j: nat, k: nat, g: nat)
    requires Inv(s0) && Continues(s0, fs)
    requires IsBurst(fs) && Filed(s.pending) && Holding(s.pending, fs, held)
    requires At(s0, s, fs, k) && k <= g <= |fs| && k <= j < |fs| && Fits(fs, s.budgetMs)
    requires (forall i | k <= i < g :: i in held + {j}) && g !in held + {j} && (forall i | i in held :: i >= k)
    ensures var (t, out) := Insert(s, fs[j]);
      && out == fs[k..g] && At(s0, t, fs, g) && Filed(t.pending) && Holding(t.pending, fs, From(held + {j}, g))
      && t.budgetMs == s.budgetMs && t.maxReorder == s.maxReorder
  {
    hide Holding, Filed, Drain, HeldTooLong, Inv, Continues;
    SetHolding(s.pending, fs, held, j);
    var m := s.(farAhead := 0, pending := s.pending.Set(fs[j].frameNo, fs[j]));
    DrainBurst(s0, m, fs, held + {j}, k, g);
    BurstInBudget(Drain(m).0.pending, fs, From(held + {j}, g), s.budgetMs, j);
  }

  // ---- every prefix of every arrival order ------------------------------------------------

  /** Where the orderer stands once, from `s0`, exactly the offsets of `a` have arrived. */
  ghost predicate Stands(s0: State, s: State, log: seq<WtFrame>, fs: seq<WtFrame>, a: set<nat>) {
    && Filed(s.pending) && Fits(fs, s.budgetMs) && s.maxReorder == s0.maxReorder
    && (forall i | i in a :: i < |fs|)
    && (if s0.next.Some? || 0 in a then
          var g := FirstGap(a, 0, |fs|);
          At(s0, s, fs, g) && Holding(s.pending, fs, From(a, g)) && log == fs[..g]
        else
          s.next.None? && s.lastReleased == s0.lastReleased && Holding(s.pending, fs, a) && log == [])
  }

  /** An orderer with nothing held, and a burst that comes next. */
  ghost predicate Awaits(s0: State, fs: seq<WtFrame>) {
    Inv(s0) && Continues(s0, fs) && IsBurst(fs) && Fits(fs, s0.budgetMs)
  }

  /** The event finds the burst within what the orderer holds: a delta ahead of the cursor within reach of it, a
      measured round trip leaving budget enough. */
  ghost predicate Holdable(s: State, e: Event, fs: seq<WtFrame>) {
    match e
    case Arrive(f) =>
      !f.key && s.next.Some? && Ahead(f.frameNo, s.next.value) < HALF ==>
        WithinReach(Ahead(f.frameNo, s.next.value), s.maxReorder, Clock(s, f).cadenceUs)
    case Restart(_) => true
    case RttMeasured(ms) => Fits(fs, RepairBudgetMs(ms))
    case KeyAsked => true
  }

  ghost predicate AllHoldable(s0: State, fs: seq<WtFrame>, es: seq<Event>)
    requires s0.pending.Valid()
  {
    forall k | 0 <= k < |es| :: Holdable(Run(s0, es[..k]).0, es[k], fs)
  }

  lemma ClockFrame(s: State, f: WtFrame)
    ensures var t := Clock(s, f);
      t.pending == s.pending && t.next == s.next && t.lastReleased == s.lastReleased
      && t.budgetMs == s.budgetMs && t.maxReorder == s.maxReorder
  {}

  lemma HoldBurst(s0: State, s: State, fs: seq<WtFrame>, a: set<nat>, j: nat)
    requires s.pending.Valid()
    requires Awaits(s0, fs) && 0 < j < |fs| && s0.next.None?
    requires Stands(s0, s, [], fs, a) && 0 !in a
    ensures Accept(s, fs[j]).1 == []
    ensures Stands(s0, Accept(s, fs[j]).0, [], fs, a + {j})
  {
    hide Holding, Filed, Clock, Oldest, Inv, IsReplay;
    var c := Clock(s, fs[j]);
    ClockFrame(s, fs[j]);
    HoldingSize(c.pending, fs, a);
    SubsetSize(a, 1, |fs|);
    BurstSize(fs);
    SetHolding(c.pending, fs, a, j);
  }

  /** Before the first offset has arrived nothing is released, and all that has arrived is held. */
  lemma BeforeFirst(s0: State, s: State, log: seq<WtFrame>, fs: seq<WtFrame>, a: set<nat>)
    requires Stands(s0, s, log, fs, a) && 0 !in a
    ensures log == [] && s.lastReleased == s0.lastReleased && Holding(s.pending, fs, a)
    ensures Filed(s.pending) && Fits(fs, s.budgetMs) && s.maxReorder == s0.maxReorder
    ensures forall i | i in a :: i < |fs|
  {
    hide Holding, Filed;
    assert From(a, 0) == a;
  }

  lemma StandsAt(s0: State, s: State, fs: seq<WtFrame>, a: set<nat>)
    requires Filed(s.pending) && Fits(fs, s.budgetMs) && s.maxReorder == s0.maxReorder
    requires 0 in a && forall i | i in a :: i < |fs|
    requires var g := FirstGap(a, 0, |fs|); At(s0, s, fs, g) && Holding(s.pending, fs, From(a, g))
    ensures Stands(s0, s, fs[..FirstGap(a, 0, |fs|)], fs, a)
  {
    hide Holding, Filed, At;
  }

  lemma KeyAccepts(s: State, f: WtFrame)
    requires s.pending.Valid() && f.key && !IsReplay(s.lastReleased, f)
    ensures Clock(s, f).pending.Valid() && Accept(s, f) == Insert(Anchor(Clock(s, f), f), f)
  {
    hide Anchor, Insert, HoldUnanchored, AcceptAnchored, IsReplay;
  }

  lemma KeyBurst(s0: State, s: State, log: seq<WtFrame>, fs: seq<WtFrame>, a: set<nat>)
    requires s.pending.Valid()
    requires Awaits(s0, fs) && fs[0].key
    requires Stands(s0, s, log, fs, a) && 0 !in a
    ensures Stands(s0, Accept(s, fs[0]).0, Accept(s, fs[0]).1, fs, a + {0})
  {
    hide Holding, Filed, Clock, Insert, Horizon, Accept, Inv, Continues, IsReplay, Stands, IsBurst, At, Anchor, From;
    BurstSize(fs);
    BeforeFirst(s0, s, log, fs, a);
    FirstIsFresh(s0, fs);
    KeyAccepts(s, fs[0]);
    var c := Clock(s, fs[0]);
    ClockFrame(s, fs[0]);
    var n := Anchor(c, fs[0]);
    KeepAll(s0, c, fs, a);
    var g := FirstGap(a + {0}, 0, |fs|);
    InsertBurst(s0, n, fs, a, 0, 0, g);
    assert fs[0..g] == fs[..g];
    StandsAt(s0, Insert(n, fs[0]).0, fs, a + {0});
  }

  lemma KeepAll(s0: State, s: State, fs: seq<WtFrame>, a: set<nat>)
    requires s.pending.Valid()
    requires IsBurst(fs) && Filed(s.pending) && Holding(s.pending, fs, a)
    requires s.lastReleased == s0.lastReleased
    ensures var n := Anchor(s, fs[0]);
      && Filed(n.pending) && Holding(n.pending, fs, a) && At(s0, n, fs, 0)
      && n.budgetMs == s.budgetMs && n.maxReorder == s.maxReorder
  {
    hide KeepPlausible, Horizon;
    var n := Anchor(s, fs[0]);
    forall i | i in a ensures Holds(n.pending, fs[i]) {
      Offsets(fs[0].frameNo, i, 0);
    }
    forall k | k in n.pending.at ensures exists i :: i in a && i < |fs| && n.pending.at[k] == fs[i] {
      assert s.pending.at[k] == n.pending.at[k];
    }
  }

  /** The frame is one already released: dropped. */
  lemma BehindBurst(s0: State, s: State, log: seq<WtFrame>, fs: seq<WtFrame>, a: set<nat>, j: nat)
    requires s.pending.Valid()
    requires Awaits(s0, fs) && Stands(s0, s, log, fs, a) && (s0.next.Some? || 0 in a)
    requires j < FirstGap(a, 0, |fs|)
    ensures Accept(s, fs[j]).1 == []
    ensures Stands(s0, Accept(s, fs[j]).0, log, fs, a + {j})
  {
    hide Holding, Filed, Clock, Insert, Inv, Continues;
    var g := FirstGap(a, 0, |fs|);
    ClockFrame(s, fs[j]);
    assert a + {j} == a;
    Offsets(fs[0].frameNo, j, g);
    Offsets(fs[0].frameNo, j, g - 1);
  }

  /** What an arrival at or past the cursor inserts, on offsets alone. */
  lemma AheadOffsets(a: set<nat>, j: nat, n: nat)
    requires (forall i | i in a :: i < n) && FirstGap(a, 0, n) <= j < n
    ensures FirstGap(a, 0, n) <= FirstGap(a + {j}, 0, n) <= n
    ensures forall i | FirstGap(a, 0, n) <= i < FirstGap(a + {j}, 0, n) :: i in From(a, FirstGap(a, 0, n)) + {j}
    ensures FirstGap(a + {j}, 0, n) !in From(a, FirstGap(a, 0, n)) + {j}
    ensures From(From(a, FirstGap(a, 0, n)) + {j}, FirstGap(a + {j}, 0, n)) == From(a + {j}, FirstGap(a + {j}, 0, n))
  {
    var g, h := FirstGap(a, 0, n), FirstGap(a + {j}, 0, n);
    GapGrows(a, a + {j}, n);
    forall i | g <= i < h ensures i in From(a, g) + {j} {
      assert i in a + {j};
    }
    assert From(From(a, g) + {j}, h) == From(a + {j}, h);
  }

  lemma AheadBurst(s0: State, s: State, log: seq<WtFrame>, fs: seq<WtFrame>, a: set<nat>, j: nat)
    requires s.pending.Valid()
    requires Awaits(s0, fs) && Stands(s0, s, log, fs, a) && (s0.next.Some? || 0 in a)
    requires FirstGap(a, 0, |fs|) <= j < |fs| && !fs[j].key && Holdable(s, Arrive(fs[j]), fs)
    ensures Stands(s0, Accept(s, fs[j]).0, log + Accept(s, fs[j]).1, fs, a + {j})
  {
    hide Holding, Filed, Clock, Insert, HeldTooLong, Horizon, FirstGap, Accept, IsBurst, Inv, Continues, Holdable, Fits;
    var g, h := FirstGap(a, 0, |fs|), FirstGap(a + {j}, 0, |fs|);
    var c := Clock(s, fs[j]);
    ClockFrame(s, fs[j]);
    AheadOffsets(a, j, |fs|);
    AheadAccepts(s0, s, fs, From(a, g), j, g);
    InsertBurst(s0, c, fs, From(a, g), j, g, h);
    assert fs[..g] + fs[g..h] == fs[..h];
  }

  lemma AheadAccepts(s0: State, s: State, fs: seq<WtFrame>, held: set<nat>, j: nat, g: nat)
    requires s.pending.Valid()
    requires IsBurst(fs) && Filed(s.pending) && Holding(s.pending, fs, held)
    requires g <= j < |fs| && !fs[j].key && At(s0, s, fs, g) && Fits(fs, s.budgetMs)
    requires Holdable(s, Arrive(fs[j]), fs)
    ensures Accept(s, fs[j]) == Insert(Clock(s, fs[j]), fs[j])
  {
    hide Holding, Filed, Clock, Insert, HeldTooLong, HorizonAt, WithinReach, Fits;
    ClockFrame(s, fs[j]);
    Offsets(fs[0].frameNo, j, g);
    HorizonReaches(j - g, s.maxReorder, Clock(s, fs[j]).cadenceUs);
    BurstInBudget(s.pending, fs, held, s.budgetMs, j);
  }

  lemma GapGrows(a: set<nat>, b: set<nat>, n: nat)
    requires a <= b
    ensures FirstGap(a, 0, n) <= FirstGap(b, 0, n)
  {
    var g, h := FirstGap(a, 0, n), FirstGap(b, 0, n);
    assert h < g ==> h in a;
  }

  lemma ArrivalStands(s0: State, s: State, log: seq<WtFrame>, fs: seq<WtFrame>, a: set<nat>, j: nat)
    requires s.pending.Valid()
    requires Awaits(s0, fs) && Stands(s0, s, log, fs, a) && j < |fs| && Holdable(s, Arrive(fs[j]), fs)
    ensures Stands(s0, Accept(s, fs[j]).0, log + Accept(s, fs[j]).1, fs, a + {j})
  {
    hide Accept, Holding, Filed, Inv, IsReplay, Holdable;
    if s0.next.None? && 0 !in a && j > 0 {
      HoldBurst(s0, s, fs, a, j);
    } else if 0 !in a && fs[j].key {
      BeforeFirst(s0, s, log, fs, a);
      KeyBurst(s0, s, log, fs, a);
      assert log + Accept(s, fs[0]).1 == Accept(s, fs[0]).1;
    } else if j < FirstGap(a, 0, |fs|) {
      BehindBurst(s0, s, log, fs, a, j);
      assert log + [] == log;
    } else {
      AheadBurst(s0, s, log, fs, a, j);
    }
  }

  /** A frame from before the burst, late or once more: behind its first number by less than half the counter, and where
      captures decide, one that they too tell from a new frame. */
  ghost predicate Stale(s0: State, fs: seq<WtFrame>, f: WtFrame) {
    && |fs| > 0 && 0 < Ahead(fs[0].frameNo, f.frameNo) <= HALF - |fs|
    && (f.key || s0.next.None? ==> IsReplay(s0.lastReleased, f))
    && (f.key ==> f.captureUs <= fs[0].captureUs)
  }

  lemma BehindAll(n: u32, x: u32, k: nat, size: nat)
    requires 0 < Ahead(n, x) <= HALF - size && k <= size <= MAX_HELD_FRAMES
    ensures IsBefore(x, Plus(n, k))
  {
    PlusWraps(n, k);
    AheadIs(n, x);
    AheadIs(x, Plus(n, k));
  }

  /** Whatever of the burst has arrived, such a frame is dropped, and only moves the clock. */
  lemma StaleIsDropped(s0: State, s: State, log: seq<WtFrame>, fs: seq<WtFrame>, a: set<nat>, f: WtFrame)
    requires s.pending.Valid()
    requires Awaits(s0, fs) && Stands(s0, s, log, fs, a) && Stale(s0, fs, f)
    ensures Accept(s, f) == (Clock(s, f), []) && Stands(s0, Clock(s, f), log, fs, a)
  {
    hide Holding, Filed, Clock, Insert, HoldUnanchored, Anchor, Inv, Continues, Ahead, IsBefore;
    ClockFrame(s, f);
    BurstSize(fs);
    if s0.next.Some? || 0 in a {
      var g := FirstGap(a, 0, |fs|);
      BehindAll(fs[0].frameNo, f.frameNo, g, |fs|);
      if g > 0 {
        BehindAll(fs[0].frameNo, f.frameNo, g - 1, |fs|);
      }
    }
  }

  lemma StaleIsOther(s0: State, fs: seq<WtFrame>, f: WtFrame, i: nat)
    requires Awaits(s0, fs) && Stale(s0, fs, f) && i < |fs|
    ensures f.frameNo != fs[i].frameNo
  {
    hide Inv, Continues, IsReplay;
    BehindAll(fs[0].frameNo, f.frameNo, i, |fs|);
    AheadIs(f.frameNo, fs[i].frameNo);
  }

  /** Arrivals out of `fs` and from before it, RTT updates and keyframe requests, in any order. */
  ghost predicate BurstEvent(s0: State, e: Event, fs: seq<WtFrame>) {
    match e
    case Arrive(f) => f in fs || Stale(s0, fs, f)
    case Restart(_) => false
    case RttMeasured(_) => true
    case KeyAsked => true
  }

  ghost function ArrivedOffsets(es: seq<Event>, fs: seq<WtFrame>): set<nat> {
    set i: nat | i < |fs| && Arrive(fs[i]) in es
  }

  /**
   Reordering is invisible. From any state with nothing held, whatever order the next frames of the stream arrive in,
   or a keyframe and the deltas behind it while nothing anchors, with whatever repetition: what has been handed over is
   always the longest run from the first that has arrived complete, as long as each finds the cursor within reach.
   Frames from before it change nothing.
   */
  lemma {:induction false} BurstStands(s0: State, fs: seq<WtFrame>, es: seq<Event>)
    requires s0.pending.Valid()
    requires Awaits(s0, fs)
    requires forall e | e in es :: BurstEvent(s0, e, fs)
    requires AllHoldable(s0, fs, es)
    ensures Stands(s0, Run(s0, es).0, Run(s0, es).1, fs, ArrivedOffsets(es, fs))
  {
    hide Stands, Accept, Awaits, Holdable;
    if |es| == 0 {
      FirstStands(s0, fs);
      assert ArrivedOffsets(es, fs) == {};
    } else {
      var front, e := es[..|es| - 1], es[|es| - 1];
      assert e in es;
      HoldableBefore(s0, fs, es, |front|);
      assert Holdable(Run(s0, es[..|front|]).0, es[|front|], fs);
      BurstStands(s0, fs, front);
      var (s, log) := Run(s0, front);
      var a := ArrivedOffsets(front, fs);
      if e.Arrive? && e.f in fs {
        var j :| 0 <= j < |fs| && fs[j] == e.f;
        ArrivalStands(s0, s, log, fs, a, j);
        NewOffset(s0, front, e, fs, j);
      } else if e.Arrive? {
        StaleIsDropped(s0, s, log, fs, a, e.f);
        SameOffsets(front, e, fs);
        assert log + [] == log;
      } else {
        QuietStands(s0, s, e, log, fs, a);
        SameOffsets(front, e, fs);
        assert log + [] == log;
      }
      assert es == front + [e];
    }
  }

  lemma HoldableBefore(s0: State, fs: seq<WtFrame>, es: seq<Event>, n: nat)
    requires s0.pending.Valid() && AllHoldable(s0, fs, es) && n <= |es|
    ensures AllHoldable(s0, fs, es[..n])
  {
    hide Holdable, Run;
    forall k | 0 <= k < n ensures Holdable(Run(s0, es[..n][..k]).0, es[..n][k], fs) {
      assert es[..n][..k] == es[..k];
    }
  }

  lemma AwaitsValid(s0: State, fs: seq<WtFrame>)
    requires Awaits(s0, fs)
    ensures s0.pending.Valid()
  {}

  lemma FirstStands(s0: State, fs: seq<WtFrame>)
    requires Awaits(s0, fs)
    ensures Stands(s0, s0, [], fs, {})
  {
    PlusWraps(fs[0].frameNo, 0);
    assert From({}, 0) == {};
  }

  lemma QuietStands(s0: State, s: State, e: Event, log: seq<WtFrame>, fs: seq<WtFrame>, a: set<nat>)
    requires s.pending.Valid()
    requires Stands(s0, s, log, fs, a) && (e.RttMeasured? || e.KeyAsked?) && Holdable(s, e, fs)
    ensures Step(s, e).1 == [] && Stands(s0, Step(s, e).0, log, fs, a)
  {
    hide Holding, Filed, FirstGap;
  }

  lemma NewOffset(s0: State, front: seq<Event>, e: Event, fs: seq<WtFrame>, j: nat)
    requires Awaits(s0, fs) && j < |fs| && e == Arrive(fs[j])
    ensures ArrivedOffsets(front + [e], fs) == ArrivedOffsets(front, fs) + {j}
  {
    var es := front + [e];
    assert es[|front|] == e;
    forall i: nat | i < |fs| ensures Arrive(fs[i]) in es <==> Arrive(fs[i]) in front || i == j {
      Offsets(fs[0].frameNo, i, j);
    }
  }

  lemma SameOffsets(front: seq<Event>, e: Event, fs: seq<WtFrame>)
    requires e.Arrive? ==> e.f !in fs
    ensures ArrivedOffsets(front + [e], fs) == ArrivedOffsets(front, fs)
  {}

  /** Once all of a burst has arrived, it has been handed over exactly once, in order, and the orderer is anchored
      behind it with nothing held: ready for the next burst of the stream. */
  lemma ReorderingIsInvisible(s0: State, fs: seq<WtFrame>, es: seq<Event>)
    requires s0.pending.Valid()
    requires Awaits(s0, fs)
    requires forall e | e in es :: BurstEvent(s0, e, fs)
    requires AllHoldable(s0, fs, es)
    requires forall i | 0 <= i < |fs| :: Arrive(fs[i]) in es
    ensures var (s, log) := Run(s0, es);
      && log == fs && s.pending == Empty() && s.maxReorder == s0.maxReorder
      && s.next == Some(Next(fs[|fs| - 1].frameNo)) && s.lastReleased == Some(ReleasedOf(fs[|fs| - 1]))
  {
    hide Run, Inv, IsReplay, BurstEvent, AllHoldable;
    BurstStands(s0, fs, es);
    var a := ArrivedOffsets(es, fs);
    GapUnique(a, |fs|, |fs|);
    var (s, log) := Run(s0, es);
    assert 0 in a && From(a, |fs|) == {};
    assert s.pending.at == map[] by {
      assert forall k :: k !in s.pending.at;
    }
    EmptyOrder(s.pending.order);
    Offsets(fs[0].frameNo, |fs| - 1, 0);
  }

  /** A burst no longer than the reorder floor and within the shortest budget is always held. */
  lemma {:induction false} ShortIsHoldable(s0: State, fs: seq<WtFrame>, es: seq<Event>)
    requires s0.pending.Valid()
    requires Awaits(s0, fs) && |fs| - 1 <= s0.maxReorder && Fits(fs, 180.0)
    requires forall e | e in es :: BurstEvent(s0, e, fs)
    ensures AllHoldable(s0, fs, es)
  {
    hide Accept, Awaits, Stands, Fits, Stale;
    if |es| > 0 {
      var front, e := es[..|es| - 1], es[|es| - 1];
      assert e in es;
      ShortIsHoldable(s0, fs, front);
      BurstStands(s0, fs, front);
      ShortStep(s0, Run(s0, front).0, Run(s0, front).1, fs, ArrivedOffsets(front, fs), e);
      forall k | 0 <= k < |es| ensures Holdable(Run(s0, es[..k]).0, es[k], fs) {
        if k < |front| {
          assert Holdable(Run(s0, front[..k]).0, front[k], fs);
          assert front[..k] == es[..k];
        }
      }
    }
  }

  lemma ShortStep(s0: State, s: State, log: seq<WtFrame>, fs: seq<WtFrame>, a: set<nat>, e: Event)
    requires Awaits(s0, fs) && |fs| - 1 <= s0.maxReorder && Fits(fs, 180.0)
    requires BurstEvent(s0, e, fs) && Stands(s0, s, log, fs, a)
    ensures Holdable(s, e, fs)
  {
    hide Inv, Continues, IsReplay, Holding, Filed, Clock, Ahead;
    if e.Arrive? && s.next.Some? {
      var g := FirstGap(a, 0, |fs|);
      if e.f in fs {
        var j :| 0 <= j < |fs| && fs[j] == e.f;
        Offsets(fs[0].frameNo, j, g);
      } else {
        BehindAll(fs[0].frameNo, e.f.frameNo, g, |fs|);
      }
    }
  }
}
