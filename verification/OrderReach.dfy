/** How far ahead of the cursor the orderer still holds a frame, and what makes it give up a hole. */
module OrderReach {
  import opened Bytes
  import opened InsertionOrder
  import opened Wire
  import opened Orderer
  import opened OrderSafety

  // ---- the reach -------------------------------------------------------------------------

  /** `d` ahead of the cursor is late, not another sequence: within the reorder floor, or the frames skipped last less
      than 300 ms at the observed cadence, taken as at least a microsecond. */
  predicate WithinReach(d: nat, maxReorder: nat, cadenceUs: real) {
    d <= maxReorder || Lasting(d - 1, if cadenceUs > 1.0 then cadenceUs else 1.0) < 300_000.0
  }

  function Lasting(steps: int, stepUs: real): real {
    steps as real * stepUs
  }

  lemma CeilIs(x: real, d: int)
    ensures d <= Ceil(x) <==> (d - 1) as real < x
  {}

  lemma StepsFit(steps: int, b: real, c: real)
    requires c > 0.0
    ensures steps as real < b / c <==> Lasting(steps, c) < b
  {
    var n, q := steps as real, b / c;
    assert q * c == b;
    if n < q {
      assert (q - n) * c > 0.0;
    } else {
      assert (n - q) * c >= 0.0;
    }
  }

  /** The horizon in frames is that reach. */
  lemma HorizonReaches(d: nat, maxReorder: nat, cadenceUs: real)
    ensures d <= HorizonAt(maxReorder, cadenceUs) <==> WithinReach(d, maxReorder, cadenceUs)
  {
    hide Ceil, Lasting, HorizonAt;
    var c := if cadenceUs > 1.0 then cadenceUs else 1.0;
    CeilIs(300_000.0 / c, d);
    StepsFit(d - 1, 300_000.0, c);
    HorizonIs(maxReorder, cadenceUs, Ceil(300_000.0 / c));
  }

  lemma HorizonIs(maxReorder: nat, cadenceUs: real, frames: int)
    requires frames == Ceil(300_000.0 / (if cadenceUs > 1.0 then cadenceUs else 1.0))
    ensures HorizonAt(maxReorder, cadenceUs) == if frames > maxReorder then frames else maxReorder
  {
    hide Ceil;
  }

  /** A session starts with eight frames of reordering, and at the cadence it assumes reaches 18 ahead. */
  lemma FirstReach(d: nat)
    ensures var s := Fresh(MAX_REORDER);
      && s.maxReorder == 8 && s.budgetMs == 300.0
      && (WithinReach(d, s.maxReorder, s.cadenceUs) <==> d <= 18)
  {}

  /** A keyframe keeps of what is held exactly what is ahead of it by at most 64 or within reach. */
  lemma AnchorKeepsExactly(s: State, f: WtFrame, x: WtFrame)
    requires s.pending.Valid() && Filed(s.pending)
    ensures var d := Ahead(x.frameNo, f.frameNo);
      Holds(Anchor(s, f).pending, x) <==>
        Holds(s.pending, x) && d < HALF && (d <= 64 || WithinReach(d, s.maxReorder, s.cadenceUs))
  {
    hide HorizonAt, WithinReach;
    HorizonReaches(Ahead(x.frameNo, f.frameNo), s.maxReorder, s.cadenceUs);
  }

  // ---- the observed cadence -----------------------------------------------------------------

  function Power(x: real, n: nat): real {
    if n == 0 then 1.0 else x * Power(x, n - 1)
  }

  ghost predicate EvenlyCaptured(s: State, fs: seq<WtFrame>, stepUs: nat) {
    && s.lastCaptureUs.Some?
    && (|fs| > 0 ==> fs[0].captureUs == s.lastCaptureUs.value + stepUs)
    && forall i | 0 < i < |fs| :: fs[i].captureUs == fs[i - 1].captureUs + stepUs
  }

  function Clocked(s: State, fs: seq<WtFrame>): State {
    if |fs| == 0 then s else Clock(Clocked(s, fs[..|fs| - 1]), fs[|fs| - 1])
  }

  lemma StepCloser(c: real, step: real)
    ensures c * 0.9 + step * 0.1 - step == 0.9 * (c - step)
  {}

  lemma ClockSteps(s: State, f: WtFrame, stepUs: nat)
    requires s.lastCaptureUs.Some? && f.captureUs == s.lastCaptureUs.value + stepUs && 0 < stepUs < 1_000_000
    ensures Error(Clock(s, f), stepUs) == 0.9 * Error(s, stepUs)
    ensures Clock(s, f).lastCaptureUs == Some(f.captureUs)
  {
    StepCloser(s.cadenceUs, stepUs as real);
  }

  /** How far the observed cadence is from a step. */
  function Error(s: State, stepUs: nat): real { s.cadenceUs - stepUs as real }

  lemma LessError(n: nat, before: real, start: real)
    requires before == Power(0.9, n) * start
    ensures 0.9 * before == Power(0.9, n + 1) * start
  {}

  /** On frames captured evenly, less than a second apart, a tenth of what is left of the error goes with each. */
  lemma {:induction false} CadenceConverges(s: State, fs: seq<WtFrame>, stepUs: nat)
    requires EvenlyCaptured(s, fs, stepUs) && 0 < stepUs < 1_000_000
    ensures Error(Clocked(s, fs), stepUs) == Power(0.9, |fs|) * Error(s, stepUs)
    ensures Clocked(s, fs).lastCaptureUs == if |fs| == 0 then s.lastCaptureUs else Some(fs[|fs| - 1].captureUs)
  {
    hide Clock, Power, Error;
    if |fs| == 0 {
      NoPower(Error(s, stepUs));
    } else {
      var front := fs[..|fs| - 1];
      EvenBefore(s, fs, stepUs);
      CadenceConverges(s, front, stepUs);
      ClockSteps(Clocked(s, front), fs[|fs| - 1], stepUs);
      LessError(|front|, Error(Clocked(s, front), stepUs), Error(s, stepUs));
    }
  }

  lemma EvenBefore(s: State, fs: seq<WtFrame>, stepUs: nat)
    requires EvenlyCaptured(s, fs, stepUs) && |fs| > 0
    ensures EvenlyCaptured(s, fs[..|fs| - 1], stepUs)
    ensures fs[|fs| - 1].captureUs
         == (if |fs| == 1 then s.lastCaptureUs.value else fs[|fs| - 2].captureUs) + stepUs
  {
    var front := fs[..|fs| - 1];
    forall i | 0 < i < |front| ensures front[i].captureUs == front[i - 1].captureUs + stepUs {
      assert front[i] == fs[i] && front[i - 1] == fs[i - 1];
    }
  }

  lemma NoPower(x: real)
    ensures Power(0.9, 0) * x == x
  {}

  /** Anything else leaves the cadence as it was: a first frame, one captured no later, or a second or more on. */
  lemma CadenceKeeps(s: State, f: WtFrame)
    requires s.lastCaptureUs.Some? ==>
      f.captureUs <= s.lastCaptureUs.value || f.captureUs >= s.lastCaptureUs.value + 1_000_000
    ensures Clock(s, f).cadenceUs == s.cadenceUs
  {}

  // ---- what is held, and what is given up ---------------------------------------------------------

  /** Held video is too long exactly if some frame held was captured the budget or more before, or over 64 are held. */
  lemma TooLongExactly(p: Table<WtFrame>, budgetMs: real, newestUs: nat)
    requires p.Valid()
    ensures HeldTooLong(p, budgetMs, newestUs) <==>
      p.Size() > 0 && (p.Size() > 64
        || exists k :: k in p.at && newestUs as real - p.at[k].captureUs as real >= budgetMs * 1000.0)
  {
    hide Oldest;
    var o := Oldest(p.order, p.at);
    if o.Some? {
      var k :| k in p.order && p.at[k] == o.value;
      forall x | x in p.at ensures o.value.captureUs <= p.at[x].captureUs {
        assert x in p.order;
      }
      assert (newestUs - o.value.captureUs) as real == newestUs as real - o.value.captureUs as real;
      assert k in p.at;
    }
  }

  lemma DrainNothing(s: State)
    requires s.pending.Valid() && (s.next.None? || s.next.value !in s.pending.at)
    ensures Drain(s) == (s, [])
  {}

  /**
   A new delta ahead of the cursor is held exactly if it is within reach and, with it, what is held is not too long. Out
   of reach it is only counted.
   */
  lemma HeldExactly(s: State, f: WtFrame)
    requires s.pending.Valid()
    requires Inv(s) && s.next.Some? && !f.key && f.frameNo !in s.pending.at
    requires 0 < Ahead(f.frameNo, s.next.value) < HALF
    ensures var c, t := Clock(s, f), Accept(s, f).0;
      && Accept(s, f).1 == []
      && (Holds(t.pending, f) <==>
            && WithinReach(Ahead(f.frameNo, s.next.value), s.maxReorder, c.cadenceUs)
            && !HeldTooLong(c.pending, c.budgetMs, f.captureUs)
            && !HeldTooLong(c.pending.Set(f.frameNo, f), c.budgetMs, f.captureUs))
      && (Holds(t.pending, f) ==> t.pending == c.pending.Set(f.frameNo, f) && t.next == s.next && t.farAhead == 0)
  {
    hide HeldTooLong, HorizonAt, Drain, Clock, WithinReach;
    ClockSafe(s, f);
    var c := Clock(s, f);
    HorizonReaches(Ahead(f.frameNo, s.next.value), c.maxReorder, c.cadenceUs);
    var m := c.(farAhead := 0, pending := c.pending.Set(f.frameNo, f));
    DrainNothing(m);
  }

  /**
   A delta out of reach, with patience left, gives the sequence up exactly if, with it, more have come in a row than the
   reach: otherwise nothing held is lost.
   */
  lemma FarAheadGivesUp(s: State, f: WtFrame)
    requires s.pending.Valid()
    requires Inv(s) && s.next.Some? && !f.key && Ahead(f.frameNo, s.next.value) < HALF
    requires !WithinReach(Ahead(f.frameNo, s.next.value), s.maxReorder, Clock(s, f).cadenceUs)
    requires !HeldTooLong(s.pending, s.budgetMs, f.captureUs)
    ensures var c, t := Clock(s, f), Accept(s, f).0;
      if WithinReach(s.farAhead + 1, s.maxReorder, c.cadenceUs)
      then t.next == s.next && t.pending == s.pending && t.farAhead == s.farAhead + 1 && !t.resync
      else t.next.None? && t.pending == Empty() && t.resync
  {
    hide HeldTooLong, HorizonAt, Clock, WithinReach, Insert;
    ClockSafe(s, f);
    var c := Clock(s, f);
    ClockCounts(s, f);
    HorizonReaches(Ahead(f.frameNo, s.next.value), c.maxReorder, c.cadenceUs);
    HorizonReaches(s.farAhead + 1, c.maxReorder, c.cadenceUs);
  }

  lemma ClockCounts(s: State, f: WtFrame)
    ensures var c := Clock(s, f); c.farAhead == s.farAhead && c.maxReorder == s.maxReorder && c.resync == s.resync
  {}

  /** The page is told of every gap: the anchor goes exactly when a keyframe is asked for. */
  lemma GapIsTold(s: State, f: WtFrame)
    requires s.pending.Valid()
    requires Inv(s) && !s.resync
    ensures var t := Accept(s, f).0;
      && (t.resync ==> t.next.None? && t.pending == Empty())
      && (s.next.Some? && t.next.None? ==> t.resync)
      && (f.key && !IsReplay(s.lastReleased, f) && t.next.None? ==> t.resync)
  {
    hide HeldTooLong, HorizonAt, Clock, IsReplay, KeepPlausible, Drain, Oldest, Inv;
    ClockSafe(s, f);
    ClockCounts(s, f);
    var c := Clock(s, f);
    if f.key {
      DrainAnchors(Anchor(c, f).(farAhead := 0, pending := Anchor(c, f).pending.Set(f.frameNo, f)));
    } else if c.next.Some? {
      DrainAnchors(c.(farAhead := 0, pending := c.pending.Set(f.frameNo, f)));
    }
  }

  /** The cursor moved past the frame at it. */
  function Past(s: State): State
    requires s.pending.Valid() && s.next.Some? && s.next.value in s.pending.at
  {
    var f := s.pending.at[s.next.value];
    s.(pending := s.pending.Delete(s.next.value), next := Some(Next(s.next.value)),
       lastReleased := Some(Released(f.frameNo, f.captureUs)))
  }

  lemma DrainPast(s: State)
    requires s.pending.Valid() && s.next.Some? && s.next.value in s.pending.at
    requires !IsReplay(s.lastReleased, s.pending.at[s.next.value])
    ensures Past(s).pending.Valid() && |Past(s).pending.at| < |s.pending.at|
    ensures Drain(s).0 == Drain(Past(s)).0
  {
    hide IsReplay;
  }

  lemma {:induction false} DrainAnchors(s: State)
    requires s.pending.Valid() && s.next.Some?
    ensures Drain(s).0.next.Some? && Drain(s).0.resync == s.resync
    decreases |s.pending.at|
  {
    hide Drain, IsReplay;
    if s.next.value !in s.pending.at {
      DrainNothing(s);
    } else if IsReplay(s.lastReleased, s.pending.at[s.next.value]) {
      DrainReplay(s, s.next.value);
    } else {
      DrainPast(s);
      DrainAnchors(Past(s));
    }
  }
}
