/**
 Between the orderer and the decoder: frames are submitted at once, or wait for their
 pacing slot. Whatever is switched and whenever timers fire, order is kept.
 */
module PacedPath {
  import opened Bytes
  import opened Wire
  import opened Pacing

  datatype Held = Held(item: WtFrame, due: real)

  // ---- the queue ---------------------------------------------------------------------

  function Items(q: seq<Held>): (r: seq<WtFrame>)
    ensures |r| == |q| && forall i | 0 <= i < |q| :: r[i] == q[i].item
  {
    seq(|q|, i requires 0 <= i < |q| => q[i].item)
  }

  /** How many of the oldest are due by `nowMs`; None is the end of time. */
  function DueCount(q: seq<Held>, nowMs: Option<real>): (n: nat)
    ensures n <= |q|
    ensures forall i | 0 <= i < n :: nowMs.None? || q[i].due <= nowMs.value
    ensures n < |q| ==> nowMs.Some? && q[n].due > nowMs.value
  {
    if |q| > 0 && (nowMs.None? || q[0].due <= nowMs.value) then 1 + DueCount(q[1..], nowMs) else 0
  }

  /** The queue with a frame added, and what that releases early because the queue is full: the oldest. */
  function Pushed(q: seq<Held>, h: Held): (seq<Held>, seq<WtFrame>) {
    var all := q + [h];
    var over := if |all| > MAX_PACED then |all| - MAX_PACED else 0;
    (all[over..], Items(all[..over]))
  }

  /** A first-in first-out queue of at most 16 frames with due times. */
  class PacedQueue {
    var items: seq<Held>

    constructor ()
      ensures items == []
    {
      items := [];
    }

    method Push(item: WtFrame, due: real) returns (early: seq<WtFrame>)
      modifies this
      ensures (items, early) == Pushed(old(items), Held(item, due))
    {
      items := items + [Held(item, due)];
      var over := |items| - MAX_PACED;
      if over > 0 {
        early := Items(items[..over]);
        items := items[over..];
      } else {
        early := [];
        assert Items(items[..0]) == [];
      }
    }

    /** Frames due by `nowMs`, oldest first: none due stays, and none leaves ahead of an older one. */
    method Take(nowMs: Option<real>) returns (taken: seq<WtFrame>)
      modifies this
      ensures var n := DueCount(old(items), nowMs);
        taken == Items(old(items)[..n]) && items == old(items)[n..]
      ensures taken + Items(items) == Items(old(items))
    {
      hide Items;
      var n := 0;
      while n < |items| && (nowMs.None? || items[n].due <= nowMs.value)
        invariant n <= |items|
        invariant DueCount(items, nowMs) == n + DueCount(items[n..], nowMs)
      {
        assert items[n..][1..] == items[n + 1..];
        n := n + 1;
      }
      ItemsSplit(items, n);
      taken := Items(items[..n]);
      items := items[n..];
    }

    method Clear() returns (dropped: seq<WtFrame>)
      modifies this
      ensures items == [] && dropped == Items(old(items))
    {
      dropped := Items(items);
      items := [];
    }
  }

  // ---- the path, as transitions ----------------------------------------------------------

  datatype State = State(pacing: bool, announced: bool, clock: Clock, queue: seq<Held>)

  const FRESH := State(false, false, START, [])

  datatype Event =
    | Admit(f: WtFrame, arrivedMs: real, nowMs: real)
    | TimerFires(nowMs: real)
    | SetPacing(on: bool)
    | FirstPicture
    | DropHeld

  function ReleaseDue(s: State, nowMs: Option<real>): (State, seq<WtFrame>) {
    var n := DueCount(s.queue, nowMs);
    (s.(queue := s.queue[n..]), Items(s.queue[..n]))
  }

  function Admitted(s: State, f: WtFrame, arrivedMs: real, nowMs: real): (State, seq<WtFrame>) {
    if !s.pacing || !s.announced then (s, [f])
    else
      var clock := Observed(s.clock, f.captureUs, arrivedMs);
      var (queue, early) := Pushed(s.queue, Held(f, DueMs(clock, f.captureUs)));
      var (t, out) := ReleaseDue(s.(clock := clock, queue := queue), Some(nowMs));
      (t, early + out)
  }

  /** The state after an event and the frames it handed to the decoder, in order. */
  function Step(s: State, e: Event): (State, seq<WtFrame>) {
    match e
    case Admit(f, arrivedMs, nowMs) => Admitted(s, f, arrivedMs, nowMs)
    case TimerFires(nowMs) => ReleaseDue(s, Some(nowMs))
    case SetPacing(on) =>
      if on == s.pacing then (s, [])
      else
        var (t, out) := ReleaseDue(s.(pacing := on), None);
        (t.(clock := START), out)
    case FirstPicture => (s.(announced := true), [])
    case DropHeld => (s.(queue := []), [])
  }

  /** A run's end state and all it submitted to the decoder, in order. */
  function Run(s: State, es: seq<Event>): (State, seq<WtFrame>) {
    if |es| == 0 then (s, [])
    else
      var (t, log) := Run(s, es[..|es| - 1]);
      var (u, out) := Step(t, es[|es| - 1]);
      (u, log + out)
  }

  function AdmittedFrames(es: seq<Event>): seq<WtFrame> {
    if |es| == 0 then []
    else AdmittedFrames(es[..|es| - 1]) + (if es[|es| - 1].Admit? then [es[|es| - 1].f] else [])
  }

  // ---- order and conservation ---------------------------------------------------------------

  /** Nothing waits unless it may, and at most 16 do. */
  ghost predicate Inv(s: State) {
    |s.queue| <= MAX_PACED && ((!s.pacing || !s.announced) ==> s.queue == [])
  }

  lemma ItemsSplit(q: seq<Held>, n: nat)
    requires n <= |q|
    ensures Items(q[..n]) + Items(q[n..]) == Items(q)
  {}

  lemma ItemsSnoc(q: seq<Held>, h: Held)
    ensures Items(q + [h]) == Items(q) + [h.item]
  {}

  lemma PushKeeps(q: seq<Held>, h: Held)
    ensures var (kept, early) := Pushed(q, h);
      |kept| <= MAX_PACED && early + Items(kept) == Items(q) + [h.item]
  {
    hide Items;
    var all := q + [h];
    ItemsSnoc(q, h);
    ItemsSplit(all, if |all| > MAX_PACED then |all| - MAX_PACED else 0);
  }

  lemma ReleaseKeeps(s: State, nowMs: Option<real>)
    ensures var (t, out) := ReleaseDue(s, nowMs);
      && t == s.(queue := t.queue) && |t.queue| <= |s.queue| && (nowMs.None? ==> t.queue == [])
      && out + Items(t.queue) == Items(s.queue)
  {
    ItemsSplit(s.queue, DueCount(s.queue, nowMs));
  }

  lemma AdmitKeeps(s: State, f: WtFrame, arrivedMs: real, nowMs: real)
    requires Inv(s)
    ensures var (t, out) := Admitted(s, f, arrivedMs, nowMs);
      Inv(t) && out + Items(t.queue) == Items(s.queue) + [f]
  {
    hide Observed, DueMs, ReleaseDue, Pushed, Items;
    if !s.pacing || !s.announced {
      assert [f] + Items([]) == Items([]) + [f];
    } else {
      var clock := Observed(s.clock, f.captureUs, arrivedMs);
      var h := Held(f, DueMs(clock, f.captureUs));
      var (queue, early) := Pushed(s.queue, h);
      var mid := s.(clock := clock, queue := queue);
      var (t, out) := ReleaseDue(mid, Some(nowMs));
      PushKeeps(s.queue, h);
      ReleaseKeeps(mid, Some(nowMs));
      Regroup(early, out, Items(t.queue));
    }
  }

  lemma StepKeeps(s: State, e: Event)
    requires Inv(s)
    ensures Inv(Step(s, e).0)
    ensures e != DropHeld ==>
      Step(s, e).1 + Items(Step(s, e).0.queue) == Items(s.queue) + (if e.Admit? then [e.f] else [])
    ensures e == DropHeld ==> Step(s, e).1 == [] && Step(s, e).0.queue == []
  {
    hide Admitted, ReleaseDue;
    assert Items(s.queue) + [] == Items(s.queue);
    assert [] + Items(s.queue) == Items(s.queue);
    match e
    case Admit(f, arrivedMs, nowMs) => AdmitKeeps(s, f, arrivedMs, nowMs);
    case TimerFires(nowMs) => ReleaseKeeps(s, Some(nowMs));
    case SetPacing(on) => ReleaseKeeps(s.(pacing := on), None);
    case FirstPicture =>
    case DropHeld =>
  }

  /**
   Between drops, under any timer firings and any switching, what was submitted followed by what is waiting is
   exactly what was admitted, in order: nothing lost, repeated or overtaken, and never more than 16 waiting.
   */
  lemma {:induction false} OrderIsKept(s: State, es: seq<Event>)
    requires Inv(s) && DropHeld !in es
    ensures var (t, log) := Run(s, es);
      Inv(t) && log + Items(t.queue) == Items(s.queue) + AdmittedFrames(es)
  {
    hide Step, Inv;
    if |es| == 0 {
      assert [] + Items(s.queue) == Items(s.queue) + [];
    } else {
      var front, e := es[..|es| - 1], es[|es| - 1];
      OrderIsKept(s, front);
      var (t, log) := Run(s, front);
      StepKeeps(t, e);
      assert e in es;
      var (u, out) := Step(t, e);
      var next := if e.Admit? then [e.f] else [];
      Regroup(log, out, Items(u.queue));
      Regroup(log, Items(t.queue), next);
      Regroup(Items(s.queue), AdmittedFrames(front), next);
    }
  }

  /** Across drops too the bound holds, and nothing waits while pacing is off. */
  lemma {:induction false} BoundIsKept(es: seq<Event>)
    ensures Inv(Run(FRESH, es).0)
  {
    hide Step;
    if |es| > 0 {
      BoundIsKept(es[..|es| - 1]);
      StepKeeps(Run(FRESH, es[..|es| - 1]).0, es[|es| - 1]);
    }
  }

  // ---- when a frame leaves ------------------------------------------------------------------

  /** The `k` oldest of `all` leave: each because it is due or because more than 16 would wait behind it, and the next
      one stays because it is neither. */
  ghost predicate LeavesDue(all: seq<Held>, k: nat, nowMs: real) {
    && k <= |all| && |all| - k <= 16
    && (forall j | 0 <= j < k :: all[j].due <= nowMs || |all| - j > 16)
    && (k < |all| ==> all[k].due > nowMs)
  }

  /** How many leave when `all` wait: those too many, and then those due. */
  function Leaving(all: seq<Held>, nowMs: real): (k: nat)
    ensures LeavesDue(all, k, nowMs)
  {
    var over := if |all| > 16 then |all| - 16 else 0;
    var n := DueCount(all[over..], Some(nowMs));
    assert forall j | over <= j < over + n :: all[j] == all[over..][j - over];
    over + n
  }

  lemma LeaveInTwo(all: seq<Held>, over: nat, n: nat)
    requires over <= |all| && n <= |all| - over
    ensures Items(all[..over]) + Items(all[over..][..n]) == Items(all[..over + n])
    ensures all[over..][n..] == all[over + n..]
  {}

  /** At every admission and every timer: exactly what is due, or too many, is submitted, the oldest first. */
  lemma LeavesWhenDue(s: State, e: Event)
    requires Inv(s) && (e.TimerFires? || (e.Admit? && s.pacing && s.announced))
    ensures var all := if e.Admit?
                       then s.queue + [Held(e.f, DueMs(Observed(s.clock, e.f.captureUs, e.arrivedMs), e.f.captureUs))]
                       else s.queue;
      var k := Leaving(all, e.nowMs);
      var (t, out) := Step(s, e);
      LeavesDue(all, k, e.nowMs) && t.queue == all[k..] && out == Items(all[..k])
  {
    hide Observed, DueMs, Items, DueCount;
    if e.TimerFires? {
      assert s.queue[0..] == s.queue;
    } else {
      var all := s.queue + [Held(e.f, DueMs(Observed(s.clock, e.f.captureUs, e.arrivedMs), e.f.captureUs))];
      var over := if |all| > 16 then |all| - 16 else 0;
      LeaveInTwo(all, over, DueCount(all[over..], Some(e.nowMs)));
    }
  }

  /** While pacing is off, or before the first picture, a frame is submitted at once; switching pacing submits all that
      waits. */
  lemma NothingHeldBack(s: State, e: Event)
    requires Inv(s)
    ensures e.Admit? && (!s.pacing || !s.announced) ==> Step(s, e) == (s, [e.f])
    ensures e.SetPacing? && e.on != s.pacing ==>
      Step(s, e).1 == Items(s.queue) && Step(s, e).0 == State(e.on, s.announced, START, [])
  {
    assert s.queue[..|s.queue|] == s.queue;
  }

  /** The last way pacing was switched; off before the first. */
  function LastSwitch(es: seq<Event>): bool {
    if |es| == 0 then false
    else if es[|es| - 1].SetPacing? then es[|es| - 1].on
    else LastSwitch(es[..|es| - 1])
  }

  /** Over every run frames may wait for their slot exactly if pacing was last switched on and a first picture was
      shown. */
  lemma {:induction false} HeldOnlyThen(es: seq<Event>)
    ensures var s := Run(FRESH, es).0; s.pacing == LastSwitch(es) && (s.announced <==> FirstPicture in es)
  {
    hide Observed, DueMs, DueCount, Pushed;
    if |es| > 0 {
      var front, e := es[..|es| - 1], es[|es| - 1];
      HeldOnlyThen(front);
      assert forall x | x in es :: x in front || x == e;
    }
  }

  // ---- the path as the browser runs it ---------------------------------------------------------

  class PacedDecoder {
    var pacing: bool
    var announced: bool
    const playout: PlayoutClock
    const paced: PacedQueue

    ghost function Model(): State
      reads this, playout, paced
    {
      State(pacing, announced, playout.Model(), paced.items)
    }

    ghost predicate Valid()
      reads this, playout, paced
    {
      Inv(Model())
    }

    constructor ()
      ensures Valid() && Model() == FRESH && fresh(playout) && fresh(paced)
    {
      pacing := false;
      announced := false;
      playout := new PlayoutClock();
      paced := new PacedQueue();
    }

    method ReleasePaced(nowMs: Option<real>) returns (submitted: seq<WtFrame>)
      modifies paced
      ensures (Model(), submitted) == ReleaseDue(old(Model()), nowMs)
    {
      submitted := paced.Take(nowMs);
    }

    method OnTimer(nowMs: real) returns (submitted: seq<WtFrame>)
      requires Valid()
      modifies paced
      ensures Valid() && (Model(), submitted) == Step(old(Model()), TimerFires(nowMs))
    {
      StepKeeps(Model(), TimerFires(nowMs));
      submitted := ReleasePaced(Some(nowMs));
    }

    /** The first picture is on screen: from now on frames may wait. */
    method Announce()
      requires Valid()
      modifies `announced
      ensures Valid() && Model() == Step(old(Model()), FirstPicture).0
    {
      announced := true;
    }

    /** The next frame in decode order, submitted at once or queued; what is submitted because of it. */
    method AdmitFrame(f: WtFrame, arrivedMs: real, nowMs: real) returns (submitted: seq<WtFrame>)
      requires Valid()
      modifies playout, paced
      ensures Valid() && (Model(), submitted) == Step(old(Model()), Admit(f, arrivedMs, nowMs))
    {
      hide Observed, DueMs, ReleaseDue, Pushed, Inv;
      StepKeeps(Model(), Admit(f, arrivedMs, nowMs));
      if !pacing || !announced {
        return [f];
      }
      playout.Observe(f.captureUs, arrivedMs);
      var due := playout.Due(f.captureUs);
      var early := paced.Push(f, due);
      var more := ReleasePaced(Some(nowMs));
      submitted := early + more;
    }

    method Switch(on: bool) returns (submitted: seq<WtFrame>)
      requires Valid()
      modifies this, playout, paced
      ensures Valid() && (Model(), submitted) == Step(old(Model()), SetPacing(on))
    {
      hide ReleaseDue, Inv;
      StepKeeps(Model(), SetPacing(on));
      if on == pacing {
        return [];
      }
      pacing := on;
      submitted := ReleasePaced(None);
      playout.Reset();
    }

    method DropPaced() returns (dropped: seq<WtFrame>)
      requires Valid()
      modifies paced
      ensures Valid() && Model() == Step(old(Model()), DropHeld).0 && dropped == Items(old(paced.items))
    {
      dropped := paced.Clear();
    }
  }
}
