/**
 Frame pacing: the playout clock that sizes the added delay from recent arrivals, and
 the short queue frames wait in. Times are real numbers of milliseconds.
 */
module Pacing {

  const WINDOW := 240
  const MAX_DELAY_MS := 40.0
  const DECAY_MS_PER_S := 4.0
  const MARGIN_MS := 1.0
  const MAX_PACED := 16

  // ---- order statistics ------------------------------------------------------------

  function Base(t: seq<real>): (m: real)
    requires |t| > 0
    ensures forall i | 0 <= i < |t| :: m <= t[i]
    ensures exists i | 0 <= i < |t| :: t[i] == m
  {
    if |t| == 1 then t[0]
    else
      var m := Base(t[..|t| - 1]);
      if t[|t| - 1] < m then t[|t| - 1] else m
  }

  function Insert(s: seq<real>, x: real): seq<real> {
    if |s| == 0 || x <= s[0] then [x] + s else [s[0]] + Insert(s[1..], x)
  }

  function Sorted(s: seq<real>): seq<real> {
    if |s| == 0 then [] else Insert(Sorted(s[..|s| - 1]), s[|s| - 1])
  }

  function CountAtMost(s: seq<real>, x: real): nat {
    if |s| == 0 then 0 else CountAtMost(s[..|s| - 1], x) + (if s[|s| - 1] <= x then 1 else 0)
  }

  ghost predicate Ascending(s: seq<real>) {
    forall i, j | 0 <= i <= j < |s| :: s[i] <= s[j]
  }

  lemma {:induction false} CountSplit(a: seq<real>, b: seq<real>, x: real)
    ensures CountAtMost(a + b, x) == CountAtMost(a, x) + CountAtMost(b, x)
  {
    if |b| == 0 {
      assert a + b == a;
    } else {
      CountSplit(a, b[..|b| - 1], x);
      assert (a + b)[..|a + b| - 1] == a + b[..|b| - 1];
    }
  }

  lemma CountOne(y: real, x: real)
    ensures CountAtMost([y], x) == if y <= x then 1 else 0
  {
    assert [y][..0] == [];
  }

  lemma {:induction false} InsertSorts(s: seq<real>, x: real)
    requires Ascending(s)
    ensures Ascending(Insert(s, x)) && |Insert(s, x)| == |s| + 1
    ensures forall y | y in Insert(s, x) :: y == x || y in s
    ensures forall y :: CountAtMost(Insert(s, x), y) == CountAtMost(s, y) + (if x <= y then 1 else 0)
  {
    if |s| == 0 || x <= s[0] {
      forall y ensures CountAtMost(Insert(s, x), y) == CountAtMost(s, y) + (if x <= y then 1 else 0) {
        CountSplit([x], s, y);
        CountOne(x, y);
      }
    } else {
      InsertSorts(s[1..], x);
      var rest := Insert(s[1..], x);
      assert s == [s[0]] + s[1..];
      forall y ensures CountAtMost(Insert(s, x), y) == CountAtMost(s, y) + (if x <= y then 1 else 0) {
        CountSplit([s[0]], rest, y);
        CountSplit([s[0]], s[1..], y);
      }
      assert forall j | 0 <= j < |rest| :: rest[j] in rest;
    }
  }

  /** Sorting keeps every count, so it is a rearrangement, and leaves the list ascending. */
  lemma {:induction false} SortedIs(s: seq<real>)
    ensures Ascending(Sorted(s)) && |Sorted(s)| == |s|
    ensures forall y :: CountAtMost(Sorted(s), y) == CountAtMost(s, y)
  {
    if |s| > 0 {
      SortedIs(s[..|s| - 1]);
      InsertSorts(Sorted(s[..|s| - 1]), s[|s| - 1]);
    }
  }

  lemma {:induction false} CountOfAll(s: seq<real>, x: real)
    requires forall i | 0 <= i < |s| :: s[i] <= x
    ensures CountAtMost(s, x) == |s|
  {
    if |s| > 0 {
      CountOfAll(s[..|s| - 1], x);
    }
  }

  lemma CountUpTo(s: seq<real>, k: nat, x: real)
    requires Ascending(s) && k < |s| && s[k] <= x
    ensures CountAtMost(s, x) >= k + 1
  {
    assert s == s[..k + 1] + s[k + 1..];
    CountSplit(s[..k + 1], s[k + 1..], x);
    CountOfAll(s[..k + 1], x);
  }

  lemma {:induction false} CountOfNone(s: seq<real>, x: real)
    requires forall i | 0 <= i < |s| :: s[i] > x
    ensures CountAtMost(s, x) == 0
  {
    if |s| > 0 {
      CountOfNone(s[..|s| - 1], x);
    }
  }

  lemma {:induction false} CountBounded(s: seq<real>, x: real)
    ensures CountAtMost(s, x) <= |s|
  {
    if |s| > 0 {
      CountBounded(s[..|s| - 1], x);
    }
  }

  lemma CountBelow(s: seq<real>, k: nat, x: real)
    requires Ascending(s) && k < |s| && s[k] > x
    ensures CountAtMost(s, x) <= k
  {
    assert s == s[..k] + s[k..];
    CountSplit(s[..k], s[k..], x);
    CountBounded(s[..k], x);
    CountOfNone(s[k..], x);
  }

  // ---- the clock ------------------------------------------------------------------------

  datatype Clock = Clock(transit: seq<real>, delay: real, lastMs: real)

  const START := Clock([], 0.0, 0.0)

  function Push(t: seq<real>, x: real): (r: seq<real>)
    ensures 0 < |r|
    ensures |t| <= WINDOW ==> |r| <= WINDOW
  {
    if |t| + 1 > WINDOW then (t + [x])[1..] else t + [x]
  }

  /** How much longer each frame took than the fastest in the window. */
  function Lateness(t: seq<real>): (r: seq<real>)
    requires |t| > 0
    ensures |r| == |t| && forall i | 0 <= i < |t| :: r[i] == t[i] - Base(t) && r[i] >= 0.0
  {
    seq(|t|, i requires 0 <= i < |t| => t[i] - Base(t))
  }

  /** Index of the 95th percentile among `n`. */
  function Rank(n: nat): (k: nat)
    requires n > 0
    ensures k < n && 100 * (k + 1) > 95 * n && 100 * k <= 95 * n
  {
    var k := n * 95 / 100;
    if k < n - 1 then k else n - 1
  }

  function Percentile(t: seq<real>): (p: real)
    requires |t| > 0
  {
    SortedIs(Lateness(t));
    Sorted(Lateness(t))[Rank(|t|)]
  }

  function Target(t: seq<real>): real
    requires |t| > 0
  {
    if Percentile(t) + MARGIN_MS < MAX_DELAY_MS then Percentile(t) + MARGIN_MS else MAX_DELAY_MS
  }

  function Elapsed(fromMs: real, toMs: real): (d: real)
    ensures d >= 0.0
  {
    if toMs - fromMs > 0.0 then toMs - fromMs else 0.0
  }

  function NextDelay(c: Clock, target: real, arrivedMs: real): real {
    if target >= c.delay then target
    else if c.lastMs > 0.0 then
      var eased := c.delay - DECAY_MS_PER_S * (Elapsed(c.lastMs, arrivedMs) / 1000.0);
      if target > eased then target else eased
    else c.delay
  }

  function Transit(captureUs: int, arrivedMs: real): real {
    arrivedMs - captureUs as real / 1000.0
  }

  function Observed(c: Clock, captureUs: int, arrivedMs: real): Clock {
    var t := Push(c.transit, Transit(captureUs, arrivedMs));
    Clock(t, NextDelay(c, Target(t), arrivedMs), arrivedMs)
  }

  function DueMs(c: Clock, captureUs: int): real {
    if |c.transit| == 0 then 0.0 else captureUs as real / 1000.0 + Base(c.transit) + c.delay
  }

  datatype Sighting = Sighting(captureUs: int, arrivedMs: real)

  function Run(c: Clock, seen: seq<Sighting>): Clock {
    if |seen| == 0 then c
    else Observed(Run(c, seen[..|seen| - 1]), seen[|seen| - 1].captureUs, seen[|seen| - 1].arrivedMs)
  }

  // ---- clock offset cancels -----------------------------------------------------------------

  ghost predicate Shifted(a: seq<real>, b: seq<real>, d: real) {
    |a| == |b| && forall i | 0 <= i < |a| :: b[i] == a[i] - d
  }

  lemma BaseShifts(a: seq<real>, b: seq<real>, d: real)
    requires |a| > 0 && Shifted(a, b, d)
    ensures Base(b) == Base(a) - d && Lateness(a) == Lateness(b) && Target(a) == Target(b)
  {
    hide Base, Sorted;
    var i :| 0 <= i < |a| && a[i] == Base(a);
    var j :| 0 <= j < |b| && b[j] == Base(b);
    assert b[i] == a[i] - d && b[j] == a[j] - d;
  }

  /** Moving every capture time by one amount, earlier or later, moves no decision: the delay is the same after
      every run, and every frame is due at the same moment. */
  lemma {:induction false} OffsetCancels(seen: seq<Sighting>, moved: seq<Sighting>, us: int)
    requires |moved| == |seen|
    requires forall i | 0 <= i < |seen| ::
      moved[i].arrivedMs == seen[i].arrivedMs && moved[i].captureUs == seen[i].captureUs + us
    ensures var a, b := Run(START, seen), Run(START, moved);
      && a.delay == b.delay && a.lastMs == b.lastMs
      && Shifted(a.transit, b.transit, us as real / 1000.0)
      && (|seen| > 0 ==> |a.transit| > 0)
      && forall captureUs :: |seen| > 0 ==> DueMs(a, captureUs) == DueMs(b, captureUs + us)
  {
    hide Target, Base;
    if |seen| > 0 {
      OffsetCancels(seen[..|seen| - 1], moved[..|moved| - 1], us);
      var a, b := Run(START, seen), Run(START, moved);
      BaseShifts(a.transit, b.transit, us as real / 1000.0);
    }
  }

  // ---- the delay's range and pace ---------------------------------------------------------------

  lemma TargetRange(t: seq<real>)
    requires |t| > 0
    ensures 1.0 <= Target(t) <= MAX_DELAY_MS
  {
    SortedIs(Lateness(t));
    var p := Percentile(t);
    if p < 0.0 {
      CountUpTo(Sorted(Lateness(t)), Rank(|t|), p);
      NoneBelow(Lateness(t), p);
    }
  }

  lemma {:induction false} NoneBelow(s: seq<real>, x: real)
    requires forall i | 0 <= i < |s| :: s[i] >= 0.0
    ensures x < 0.0 ==> CountAtMost(s, x) == 0
  {
    if |s| > 0 {
      NoneBelow(s[..|s| - 1], x);
    }
  }

  /** After any run the delay is within 0 and 40 ms, and not below its current target. */
  lemma {:induction false} DelayRange(seen: seq<Sighting>)
    ensures var c := Run(START, seen);
      && 0.0 <= c.delay <= 40.0 && |c.transit| <= 240
      && (|seen| > 0 ==> |c.transit| > 0 && c.delay >= Target(c.transit) >= 1.0)
  {
    hide Target;
    if |seen| > 0 {
      DelayRange(seen[..|seen| - 1]);
      TargetRange(Run(START, seen).transit);
    }
  }

  /** Over any stretch of a run the delay falls by at most 4 ms per second between arrivals. */
  lemma {:induction false} FallsSlowly(c: Clock, seen: seq<Sighting>)
    requires forall i | 0 <= i < |seen| :: c.lastMs <= seen[i].arrivedMs
    requires forall i, j | 0 <= i <= j < |seen| :: seen[i].arrivedMs <= seen[j].arrivedMs
    ensures var d := Run(c, seen);
      d.lastMs >= c.lastMs && d.delay >= c.delay - 4.0 * ((d.lastMs - c.lastMs) / 1000.0)
  {
    hide Target;
    if |seen| > 0 {
      FallsSlowly(c, seen[..|seen| - 1]);
    }
  }

  /** And it does come down: over a stretch in which no target is above `x`, by 4 ms per second until it reaches `x`. */
  lemma {:induction false} ComesDown(c: Clock, seen: seq<Sighting>, x: real)
    requires c.lastMs > 0.0
    requires forall i | 0 <= i < |seen| :: c.lastMs <= seen[i].arrivedMs
    requires forall i, j | 0 <= i <= j < |seen| :: seen[i].arrivedMs <= seen[j].arrivedMs
    requires forall i | 0 < i <= |seen| :: Calm(Run(c, seen[..i]), x)
    ensures var d := Run(c, seen);
      && d.lastMs >= c.lastMs
      && (d.delay <= x || d.delay <= c.delay - 4.0 * ((d.lastMs - c.lastMs) / 1000.0))
  {
    hide Target;
    if |seen| > 0 {
      var front := seen[..|seen| - 1];
      assert forall i | 0 < i <= |front| :: front[..i] == seen[..i];
      ComesDown(c, front, x);
      assert seen[..|seen|] == seen;
      assert Calm(Run(c, seen), x);
    }
  }

  /** The target now is at most `x`. */
  ghost predicate Calm(c: Clock, x: real) {
    |c.transit| > 0 && Target(c.transit) <= x
  }

  // ---- what the delay buys ---------------------------------------------------------------------

  lemma {:induction false} CountShifted(t: seq<real>, s: seq<real>, base: real, delay: real)
    requires |s| == |t| && forall i | 0 <= i < |t| :: s[i] == t[i] - base
    ensures CountAtMost(s, delay) == CountAtMost(t, base + delay)
  {
    if |t| > 0 {
      CountShifted(t[..|t| - 1], s[..|s| - 1], base, delay);
    }
  }

  lemma WindowCovered(t: seq<real>, delay: real)
    requires |t| > 0 && delay >= Percentile(t)
    ensures 100 * CountAtMost(t, Base(t) + delay) > 95 * |t|
  {
    hide Base, Sorted, Rank;
    var late := Lateness(t);
    SortedIs(late);
    CountShifted(t, late, Base(t), delay);
    CountUpTo(Sorted(late), Rank(|t|), delay);
  }

  /** Whenever the target is not capped, more than 95 % of the window's frames arrived by base plus delay. */
  lemma CoversNinetyFivePercent(seen: seq<Sighting>)
    requires |seen| > 0
    ensures |Run(START, seen).transit| > 0
    ensures var c := Run(START, seen);
      Percentile(c.transit) + MARGIN_MS <= MAX_DELAY_MS ==>
        100 * CountAtMost(c.transit, Base(c.transit) + c.delay) > 95 * |c.transit|
  {
    hide Base, Run, Percentile, CountAtMost;
    DelayRange(seen);
    var c := Run(START, seen);
    if Percentile(c.transit) + MARGIN_MS <= MAX_DELAY_MS {
      WindowCovered(c.transit, c.delay);
    }
  }

  // ---- and no more than it has to be -----------------------------------------------------------------

  /** How much of the window an added delay `x` covers. */
  function Coverage(t: seq<real>, x: real): nat
    requires |t| > 0
  {
    CountAtMost(t, Base(t) + x)
  }

  /** `x` is the least added delay by which more than 95 % of the window has arrived. */
  ghost predicate LeastCover(t: seq<real>, x: real)
    requires |t| > 0
  {
    && 100 * Coverage(t, x) > 95 * |t|
    && forall y: real | y < x :: 100 * Coverage(t, y) <= 95 * |t|
  }

  lemma PercentileIsLeast(t: seq<real>)
    requires |t| > 0
    ensures LeastCover(t, Percentile(t)) && Percentile(t) >= 0.0
  {
    hide Base, Sorted, Rank, CountAtMost;
    var late := Lateness(t);
    SortedIs(late);
    WindowCovered(t, Percentile(t));
    forall y: real | y < Percentile(t) ensures 100 * Coverage(t, y) <= 95 * |t| {
      CountShifted(t, late, Base(t), y);
      CountBelow(Sorted(late), Rank(|t|), y);
    }
    PercentileIsLate(t);
  }

  lemma PercentileIsLate(t: seq<real>)
    requires |t| > 0
    ensures Percentile(t) >= 0.0
  {
    hide Base, Sorted, Rank;
    SortedIs(Lateness(t));
    var p := Percentile(t);
    if p < 0.0 {
      CountUpTo(Sorted(Lateness(t)), Rank(|t|), p);
      NoneBelow(Lateness(t), p);
    }
  }

  lemma LeastIsOne(t: seq<real>, x: real, y: real)
    requires |t| > 0 && LeastCover(t, x) && LeastCover(t, y)
    ensures x == y
  {
    hide Coverage;
  }

  /** An arrival that raises the delay raises it to the least cover of the window plus a millisecond, 40 ms at most; and
      none leaves it below that. */
  lemma RaisesToTheLeast(c: Clock, captureUs: int, arrivedMs: real, x: real)
    requires var t := Observed(c, captureUs, arrivedMs).transit; LeastCover(t, x)
    ensures var after := Observed(c, captureUs, arrivedMs);
      var least := if x + 1.0 < 40.0 then x + 1.0 else 40.0;
      after.delay >= least && (after.delay > c.delay ==> after.delay == least)
  {
    hide Base, Sorted, Rank, CountAtMost, Percentile, LeastCover;
    var t := Observed(c, captureUs, arrivedMs).transit;
    PercentileIsLeast(t);
    LeastIsOne(t, x, Percentile(t));
  }

  // ---- what a due time means -------------------------------------------------------------------------

  function Transits(seen: seq<Sighting>): (r: seq<real>)
    ensures |r| == |seen| && forall i | 0 <= i < |seen| :: r[i] == Transit(seen[i].captureUs, seen[i].arrivedMs)
  {
    seq(|seen|, i requires 0 <= i < |seen| => Transit(seen[i].captureUs, seen[i].arrivedMs))
  }

  /** The last 240 of a list. */
  function Last<T>(s: seq<T>): seq<T> {
    if |s| <= 240 then s else s[|s| - 240..]
  }

  lemma PushIsLast(s: seq<real>, x: real)
    ensures Push(Last(s), x) == Last(s + [x])
  {
    if |s| >= 240 {
      var all := s + [x];
      assert Push(Last(s), x) == (s[|s| - 240..] + [x])[1..];
      assert all[|all| - 240..] == (s[|s| - 240..] + [x])[1..];
    }
  }

  lemma TransitsOfLast(seen: seq<Sighting>)
    ensures Last(Transits(seen)) == Transits(Last(seen))
  {}

  /** The window is how long the last 240 frames took. */
  lemma {:induction false} WindowIs(seen: seq<Sighting>)
    ensures Run(START, seen).transit == Last(Transits(seen))
  {
    hide Target, Base, Push, Last, Transit;
    if |seen| == 0 {
      NothingLast();
    } else {
      var front, last := seen[..|seen| - 1], seen[|seen| - 1];
      WindowIs(front);
      PushIsLast(Transits(front), Transit(last.captureUs, last.arrivedMs));
      assert Transits(seen) == Transits(front) + [Transit(last.captureUs, last.arrivedMs)];
    }
  }

  lemma NothingLast()
    ensures Last(Transits([])) == []
  {}

  /** How many of `seen` had arrived when they were due. */
  function OnTime(c: Clock, seen: seq<Sighting>): nat {
    if |seen| == 0 then 0
    else
      var last := seen[|seen| - 1];
      OnTime(c, seen[..|seen| - 1]) + (if last.arrivedMs <= DueMs(c, last.captureUs) then 1 else 0)
  }

  lemma {:induction false} OnTimeIs(c: Clock, seen: seq<Sighting>)
    requires |c.transit| > 0
    ensures OnTime(c, seen) == CountAtMost(Transits(seen), Base(c.transit) + c.delay)
  {
    hide Base;
    if |seen| > 0 {
      OnTimeIs(c, seen[..|seen| - 1]);
      assert Transits(seen)[..|seen| - 1] == Transits(seen[..|seen| - 1]);
    }
  }

  /** Whenever the delay is below its cap, more than 95 % of the last 240 frames had arrived by the moment they are
      due. */
  lemma DueWhenArrived(seen: seq<Sighting>)
    requires |seen| > 0 && Run(START, seen).delay < 40.0
    ensures 100 * OnTime(Run(START, seen), Last(seen)) > 95 * |Last(seen)|
  {
    hide Run, Base, Percentile, CountAtMost, OnTime;
    DelayRange(seen);
    WindowIs(seen);
    TransitsOfLast(seen);
    var c := Run(START, seen);
    OnTimeIs(c, Last(seen));
    CoversNinetyFivePercent(seen);
  }

  /** A frame of the window is due at most the delay after it arrived, and the fastest just that long after. */
  lemma DueSoonAfter(c: Clock, captureUs: int, arrivedMs: real)
    requires Transit(captureUs, arrivedMs) in c.transit
    ensures DueMs(c, captureUs) <= arrivedMs + c.delay
    ensures (forall x | x in c.transit :: Transit(captureUs, arrivedMs) <= x) <==>
      DueMs(c, captureUs) == arrivedMs + c.delay
  {
    hide Base;
    var i :| 0 <= i < |c.transit| && c.transit[i] == Transit(captureUs, arrivedMs);
    var j :| 0 <= j < |c.transit| && c.transit[j] == Base(c.transit);
    assert c.transit[j] in c.transit;
  }

  /** The first frame seen is due a millisecond after it arrived. */
  lemma FirstSeen(captureUs: int, arrivedMs: real)
    ensures DueMs(Observed(START, captureUs, arrivedMs), captureUs) == arrivedMs + 1.0
    ensures Observed(START, captureUs, arrivedMs).delay == 1.0
  {
    var t := [Transit(captureUs, arrivedMs)];
    assert Push([], t[0]) == t;
    assert Lateness(t) == [0.0];
    assert [0.0][..0] == [] && Sorted([0.0]) == [0.0];
  }

  // ---- the clock as the browser keeps it -----------------------------------------------------------

  class PlayoutClock {
    var transit: seq<real>
    var delay: real
    var lastMs: real

    ghost function Model(): Clock
      reads this
    {
      Clock(transit, delay, lastMs)
    }

    constructor ()
      ensures Model() == START
    {
      transit := [];
      delay := 0.0;
      lastMs := 0.0;
    }

    method Minimum() returns (base: real)
      requires |transit| > 0
      ensures base == Base(transit)
    {
      base := transit[0];
      for i := 1 to |transit|
        invariant base == Base(transit[..i])
      {
        assert transit[..i + 1][..i] == transit[..i];
        if transit[i] < base {
          base := transit[i];
        }
      }
      assert transit[..|transit|] == transit;
    }

    method Observe(captureUs: int, arrivedMs: real)
      modifies this
      ensures Model() == Observed(old(Model()), captureUs, arrivedMs)
    {
      hide Base, Sorted, Rank;
      transit := transit + [Transit(captureUs, arrivedMs)];
      if |transit| > WINDOW {
        transit := transit[1..];
      }
      var base := Minimum();
      var window := transit;
      var lateness := seq(|window|, i requires 0 <= i < |window| => window[i] - base);
      assert lateness == Lateness(window);
      var late := Sorted(lateness);
      SortedIs(lateness);
      var wanted := late[Rank(|transit|)] + MARGIN_MS;
      var target := if wanted < MAX_DELAY_MS then wanted else MAX_DELAY_MS;
      if target >= delay {
        delay := target;
      } else if lastMs > 0.0 {
        var dt := Elapsed(lastMs, arrivedMs) / 1000.0;
        var eased := delay - DECAY_MS_PER_S * dt;
        delay := if target > eased then target else eased;
      }
      lastMs := arrivedMs;
    }

    method Due(captureUs: int) returns (due: real)
      ensures due == DueMs(Model(), captureUs)
    {
      if |transit| == 0 {
        return 0.0;
      }
      var base := Minimum();
      return captureUs as real / 1000.0 + base + delay;
    }

    method Reset()
      modifies this
      ensures Model() == START
    {
      transit := [];
      delay := 0.0;
      lastMs := 0.0;
    }
  }
}
