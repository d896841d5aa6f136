/** Draws against a small balance that each display refresh tops up; of the frames that must wait, only the newest. */
module RefreshCoalescing {
  import opened Bytes

  const DRAW_BURST := 2

  datatype State<T> = State(tokens: int, held: Option<T>)

  function Fresh<T>(): State<T> { State(DRAW_BURST, None) }

  datatype Event<T> = Offer(frame: T) | Refresh

  /** What became of a frame: drawn, or closed undrawn because a newer one took its place. */
  datatype Fate<T> = Drawn(frame: T) | Superseded(frame: T)

  function Step<T>(s: State<T>, e: Event<T>): (State<T>, seq<Fate<T>>) {
    match e
    case Offer(f) =>
      if s.held.None? && s.tokens > 0 then (s.(tokens := s.tokens - 1), [Drawn(f)])
      else (s.(held := Some(f)), if s.held.Some? then [Superseded(s.held.value)] else [])
    case Refresh =>
      var tokens := if s.tokens + 1 < DRAW_BURST then s.tokens + 1 else DRAW_BURST;
      if s.held.Some? then (State(tokens - 1, None), [Drawn(s.held.value)]) else (State(tokens, None), [])
  }

  function Run<T>(s: State<T>, es: seq<Event<T>>): (State<T>, seq<Fate<T>>) {
    if |es| == 0 then (s, [])
    else
      var (t, log) := Run(s, es[..|es| - 1]);
      var (u, out) := Step(t, es[|es| - 1]);
      (u, log + out)
  }

  /** A frame waits only when no draw is banked. */
  predicate Inv<T>(s: State<T>) {
    0 <= s.tokens <= DRAW_BURST && (s.held.Some? ==> s.tokens == 0)
  }

  function Waiting<T>(s: State<T>): seq<T> { if s.held.Some? then [s.held.value] else [] }

  function Offered<T>(es: seq<Event<T>>): seq<T> {
    if |es| == 0 then []
    else Offered(es[..|es| - 1]) + (if es[|es| - 1].Offer? then [es[|es| - 1].frame] else [])
  }

  function Frames<T>(log: seq<Fate<T>>): (r: seq<T>)
    ensures |r| == |log| && forall i | 0 <= i < |log| :: r[i] == log[i].frame
  {
    seq(|log|, i requires 0 <= i < |log| => log[i].frame)
  }

  function Draws<T>(log: seq<Fate<T>>): nat {
    if |log| == 0 then 0 else Draws(log[..|log| - 1]) + (if log[|log| - 1].Drawn? then 1 else 0)
  }

  function Refreshes<T>(es: seq<Event<T>>): nat {
    if |es| == 0 then 0 else Refreshes(es[..|es| - 1]) + (if es[|es| - 1].Refresh? then 1 else 0)
  }

  lemma DrawsSnoc<T>(log: seq<Fate<T>>, out: seq<Fate<T>>)
    requires |out| <= 1
    ensures Draws(log + out) == Draws(log) + (if |out| == 1 && out[0].Drawn? then 1 else 0)
  {
    if |out| == 0 {
      assert log + out == log;
    } else {
      assert (log + out)[..|log|] == log;
    }
  }

  lemma StepKeeps<T>(s: State<T>, e: Event<T>)
    requires Inv(s)
    ensures var (t, out) := Step(s, e);
      && Inv(t) && |out| <= 1
      && Frames(out) + Waiting(t) == Waiting(s) + (if e.Offer? then [e.frame] else [])
      && (if |out| == 1 && out[0].Drawn? then 1 else 0) <= s.tokens - t.tokens + (if e.Refresh? then 1 else 0)
  {}

  /** From any state the coalescer can be in: every frame offered is drawn, superseded or the one waiting, in the
      order offered; and draws are at most the refreshes plus the draws banked at the start, two at most. */
  lemma {:induction false} NothingLostNothingFast<T>(s: State<T>, es: seq<Event<T>>)
    requires Inv(s)
    ensures var (t, log) := Run(s, es);
      && Inv(t)
      && Frames(log) + Waiting(t) == Waiting(s) + Offered(es)
      && Draws(log) + t.tokens <= Refreshes(es) + s.tokens
      && Draws(log) <= Refreshes(es) + 2
  {
    hide Step, Waiting;
    if |es| == 0 {
      assert Frames<T>([]) == [] && [] + Waiting(s) == Waiting(s) + [];
    } else {
      var front, e := es[..|es| - 1], es[|es| - 1];
      NothingLostNothingFast(s, front);
      var (t, log) := Run(s, front);
      StepKeeps(t, e);
      var (u, out) := Step(t, e);
      DrawsSnoc(log, out);
      FramesJoin(log, out);
      var next := if e.Offer? then [e.frame] else [];
      Regroup(Frames(log), Frames(out), Waiting(u));
      Regroup(Frames(log), Waiting(t), next);
      Regroup(Waiting(s), Offered(front), next);
    }
  }

  lemma FramesJoin<T>(a: seq<Fate<T>>, b: seq<Fate<T>>)
    ensures Frames(a + b) == Frames(a) + Frames(b)
  {}

  // ---- when nothing is superseded ---------------------------------------------------------

  /** Draws taken beyond what refreshes have given back, a waiting frame counted as one. */
  function Level<T>(s: State<T>): int {
    2 - s.tokens + (if s.held.Some? then 1 else 0)
  }

  /** How many more frames a stretch offers than it has refreshes. */
  function Excess<T>(es: seq<Event<T>>): int {
    if |es| == 0 then 0 else Excess(es[..|es| - 1]) + (if es[|es| - 1].Offer? then 1 else -1)
  }

  ghost predicate Superseding<T>(log: seq<Fate<T>>) {
    exists o :: o in log && o.Superseded?
  }

  lemma LevelSteps<T>(s: State<T>, e: Event<T>)
    requires Inv(s)
    ensures Inv(Step(s, e).0) && 0 <= Level(s) <= 3
    ensures e.Offer? ==> Level(Step(s, e).0) == if Level(s) < 3 then Level(s) + 1 else 3
    ensures e.Refresh? ==> Level(Step(s, e).0) == if Level(s) > 0 then Level(s) - 1 else 0
    ensures Superseding(Step(s, e).1) <==> e.Offer? && Level(s) == 3
  {
    var out := Step(s, e).1;
    assert |out| > 0 ==> out[0] in out;
  }

  lemma {:induction false} FreshInv<T>(es: seq<Event<T>>)
    ensures Inv(Run(Fresh(), es).0)
  {
    if |es| > 0 {
      FreshInv(es[..|es| - 1]);
      LevelSteps(Run(Fresh(), es[..|es| - 1]).0, es[|es| - 1]);
    }
  }

  /** No stretch lies above the level, until something has been superseded. */
  lemma {:induction false} LevelCovers<T>(es: seq<Event<T>>, i: nat)
    requires i <= |es| && !Superseding(Run(Fresh(), es).1)
    ensures Level(Run(Fresh(), es).0) >= Excess(es[i..])
  {
    FreshInv(es);
    if i == |es| {
      LevelSteps(Run(Fresh(), es).0, Refresh);
    } else {
      var front, e := es[..|es| - 1], es[|es| - 1];
      var (s, log) := Run(Fresh(), front);
      StillNone(log, Step(s, e).1);
      FreshInv(front);
      LevelCovers(front, i);
      LevelSteps(s, e);
      assert es[i..][..|es[i..]| - 1] == front[i..];
    }
  }

  lemma StillNone<T>(log: seq<Fate<T>>, out: seq<Fate<T>>)
    ensures Superseding(log + out) <==> Superseding(log) || Superseding(out)
  {
    forall o | o in log || o in out ensures o in log + out {}
  }

  /** Some stretch comes up to the level. */
  lemma {:induction false} LevelIsSome<T>(es: seq<Event<T>>) returns (i: nat)
    ensures i <= |es| && Level(Run(Fresh(), es).0) <= Excess(es[i..])
  {
    i := |es|;
    if |es| > 0 {
      var front, e := es[..|es| - 1], es[|es| - 1];
      FreshInv(front);
      var j := LevelIsSome(front);
      LevelSteps(Run(Fresh(), front).0, e);
      assert es[j..][..|es[j..]| - 1] == front[j..];
      if e.Offer? || Level(Run(Fresh(), front).0) > 0 {
        i := j;
      }
    }
  }

  /** A frame is superseded exactly if some stretch offers four more frames than it has refreshes: the draws banked, the
      one frame that may wait, and a draw a refresh are all there to be used. */
  lemma {:induction false} SupersedesExactly<T>(es: seq<Event<T>>)
    ensures Superseding(Run(Fresh(), es).1) <==> exists i: nat, j: nat :: i <= j <= |es| && Excess(es[i..j]) > 3
  {
    if |es| > 0 {
      var front, e := es[..|es| - 1], es[|es| - 1];
      SupersedesExactly(front);
      FreshInv(front);
      var (s, log) := Run(Fresh(), front);
      LevelSteps(s, e);
      StillNone(log, Step(s, e).1);
      if Superseding(log) {
        var i: nat, j: nat :| i <= j <= |front| && Excess(front[i..j]) > 3;
        assert es[i..j] == front[i..j];
      } else if Superseding(Step(s, e).1) {
        var i := LevelIsSome(front);
        assert es[i..|es|][..|es| - i - 1] == front[i..];
        assert Excess(es[i..|es|]) > 3;
      }
      if i: nat, j: nat :| i <= j <= |es| && Excess(es[i..j]) > 3 {
        if j <= |front| {
          assert es[i..j] == front[i..j];
        } else if !Superseding(Run(Fresh(), es).1) {
          LevelCovers(es, i);
          FreshInv(es);
          LevelSteps(Run(Fresh(), es).0, e);
          assert es[i..] == es[i..j];
        }
      }
    }
  }

  // ---- the coalescer as the browser runs it ----------------------------------------------------

  class RefreshCoalescer<T> {
    var tokens: int
    var held: Option<T>

    ghost function Model(): State<T>
      reads this
    {
      State(tokens, held)
    }

    ghost predicate Valid()
      reads this
    {
      Inv(Model())
    }

    constructor ()
      ensures Valid() && Model() == Fresh<T>()
    {
      tokens := DRAW_BURST;
      held := None;
    }

    /** True: draw it now. False: it waits, and `release` is the frame it replaces. */
    method OfferFrame(frame: T) returns (draw: bool, release: Option<T>)
      requires Valid()
      modifies this
      ensures Valid()
      ensures (Model(), if draw then [Drawn(frame)] else if release.Some? then [Superseded(release.value)] else [])
           == Step(old(Model()), Offer(frame))
      ensures draw ==> release.None?
    {
      if held.None? && tokens > 0 {
        tokens := tokens - 1;
        return true, None;
      }
      draw, release := false, held;
      held := Some(frame);
    }

    method OnRefresh() returns (f: Option<T>)
      requires Valid()
      modifies this
      ensures Valid() && (Model(), if f.Some? then [Drawn(f.value)] else []) == Step(old(Model()), Refresh)
    {
      tokens := if tokens + 1 < DRAW_BURST then tokens + 1 else DRAW_BURST;
      f := held;
      held := None;
      if f.Some? {
        tokens := tokens - 1;
      }
    }

    method Clear() returns (f: Option<T>)
      requires Valid()
      modifies this
      ensures Valid() && Model() == Fresh<T>() && f == old(held)
    {
      f := held;
      held := None;
      tokens := DRAW_BURST;
    }
  }
}
