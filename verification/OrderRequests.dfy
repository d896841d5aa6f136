/** What the orderer holds for a keyframe that is still to come, and how often it asks for one. */
module OrderRequests {
  import opened Bytes
  import opened Wire
  import opened Orderer
  import opened OrderSafety

  /** Held or offered, in an unanchored hold. */
  ghost predicate Candidate(s: State, f: WtFrame, x: WtFrame) {
    x == f || (Holds(s.pending, x) && x.frameNo != f.frameNo)
  }

  /** While nothing anchors the sequence, what is given up for want of room was captured no later than anything kept. */
  lemma HoldKeepsNewest(s: State, f: WtFrame, x: WtFrame, y: WtFrame)
    requires s.pending.Valid() && Inv(s)
    requires Candidate(s, f, x) && !Holds(HoldUnanchored(s, f).pending, x)
    requires Holds(HoldUnanchored(s, f).pending, y)
    ensures s.pending.Size() == 64 && x.captureUs <= y.captureUs
  {
    hide Oldest;
    OldestIsHeld(s);
    var oldest := Oldest(s.pending.order, s.pending.at);
    assert forall k | k in s.pending.at :: k in s.pending.order;
  }

  /** And an arrival is kept exactly if its number or room is there, or something held was captured before it. */
  lemma KeptExactly(s: State, f: WtFrame)
    requires s.pending.Valid() && Inv(s)
    ensures Holds(HoldUnanchored(s, f).pending, f) <==>
      || f.frameNo in s.pending.at || s.pending.Size() < 64
      || exists k :: k in s.pending.at && s.pending.at[k].captureUs < f.captureUs
  {
    hide Oldest;
    OldestIsHeld(s);
    assert forall k | k in s.pending.at :: k in s.pending.order;
  }

  // ---- when a keyframe request falls due -------------------------------------------------

  /** Nothing of the request schedule, and not the newest capture, has changed. */
  ghost predicate SameSchedule(s: State, t: State) {
    t.keyDue == s.keyDue && t.keyDueAtUs == s.keyDueAtUs && t.newestUs == s.newestUs
  }

  lemma {:induction false} DrainQuiet(s: State)
    requires s.pending.Valid()
    ensures SameSchedule(s, Drain(s).0)
    decreases |s.pending.at|
  {
    hide IsReplay;
    if s.next.Some? && s.next.value in s.pending.at {
      var f := s.pending.at[s.next.value];
      var t := s.(pending := s.pending.Delete(s.next.value));
      if !IsReplay(s.lastReleased, f) {
        DrainQuiet(t.(next := Some(Next(s.next.value)), lastReleased := Some(Released(f.frameNo, f.captureUs))));
      }
    }
  }

  lemma InsertQuiet(s: State, f: WtFrame)
    requires s.pending.Valid()
    ensures SameSchedule(s, Insert(s, f).0)
  {
    hide Drain, HeldTooLong;
    DrainQuiet(s.(farAhead := 0, pending := s.pending.Set(f.frameNo, f)));
  }

  lemma AnchoredQuiet(s: State, f: WtFrame)
    requires s.pending.Valid() && s.next.Some?
    ensures SameSchedule(s, AcceptAnchored(s, f).0)
  {
    hide Insert, Horizon, HeldTooLong;
    InsertQuiet(s, f);
  }

  lemma HoldSchedule(s: State, f: WtFrame)
    requires s.pending.Valid() && s.keyDueAtUs.Some?
    ensures var t := HoldUnanchored(s, f);
      && t.keyDueAtUs == s.keyDueAtUs && t.newestUs == s.newestUs
      && (s.newestUs < s.keyDueAtUs.value ==> t.keyDue == s.keyDue)
      && (s.newestUs >= s.keyDueAtUs.value && s.pending.Size() < MAX_HELD_FRAMES ==> t.keyDue)
  {
    hide Oldest;
  }

  /** A request went out on the clock that now reads less than `dueUs`, and is not due before that. */
  ghost predicate Asked(s: State, dueUs: nat) {
    && !s.keyDue && s.keyDueAtUs.Some? && s.keyDueAtUs.value >= dueUs
    && s.newestUs < dueUs <= s.newestUs + KEY_REREQUEST_US
  }

  /** No anchoring keyframe, no new stream, no new capture clock, and nothing captured at `dueUs` or after. */
  ghost predicate Undisturbed(s: State, e: Event, dueUs: nat) {
    match e
    case Arrive(f) =>
      && (f.key ==> IsReplay(s.lastReleased, f))
      && s.newestUs <= f.captureUs + 5_000_000 && f.captureUs < dueUs
    case Restart(newStream) => !newStream
    case RttMeasured(_) => true
    case KeyAsked => true
  }

  lemma ClockQuiet(s: State, f: WtFrame, dueUs: nat)
    requires Asked(s, dueUs) && s.newestUs <= f.captureUs + 5_000_000 && f.captureUs < dueUs
    ensures Asked(Clock(s, f), dueUs)
    ensures Clock(s, f).pending == s.pending && Clock(s, f).next == s.next && Clock(s, f).lastReleased == s.lastReleased
  {}

  lemma ArrivalQuiet(s: State, f: WtFrame, dueUs: nat)
    requires s.pending.Valid() && Asked(s, dueUs) && Undisturbed(s, Arrive(f), dueUs)
    ensures Asked(Accept(s, f).0, dueUs)
  {
    hide Insert, Clock, Anchor, AcceptAnchored, HoldUnanchored, IsReplay;
    var t := Clock(s, f);
    ClockQuiet(s, f, dueUs);
    if t.next.Some? {
      AnchoredQuiet(t, f);
    }
    HoldSchedule(t, f);
  }

  lemma StepQuiet(s: State, e: Event, dueUs: nat)
    requires s.pending.Valid() && Asked(s, dueUs) && Undisturbed(s, e, dueUs)
    ensures Asked(Step(s, e).0, dueUs)
  {
    hide Accept;
    if e.Arrive? {
      ArrivalQuiet(s, e.f, dueUs);
    }
  }

  lemma {:induction false} RunQuiet(s: State, es: seq<Event>, dueUs: nat)
    requires s.pending.Valid() && Asked(s, dueUs)
    requires forall k | 0 <= k < |es| :: Undisturbed(Run(s, es[..k]).0, es[k], dueUs)
    ensures Asked(Run(s, es).0, dueUs)
  {
    hide Step, Asked, Undisturbed;
    if |es| > 0 {
      var front := es[..|es| - 1];
      assert forall k | 0 <= k < |front| :: front[..k] == es[..k] && front[k] == es[k];
      RunQuiet(s, front, dueUs);
      assert es[..|es| - 1] == front && Undisturbed(Run(s, front).0, es[|es| - 1], dueUs);
      StepQuiet(Run(s, front).0, es[|es| - 1], dueUs);
    }
  }

  /**
   Once a keyframe request has gone out, over every run without an anchoring keyframe, a new stream or a new capture
   clock, none falls due again before 600 ms more video has been captured.
   */
  lemma RequestsArePaced(s: State, es: seq<Event>)
    requires s.pending.Valid()
    requires forall k | 0 <= k < |es| :: Undisturbed(Run(KeyframeRequested(s), es[..k]).0, es[k], s.newestUs + 600_000)
    ensures !Run(KeyframeRequested(s), es).0.keyDue
  {
    hide Run;
    RunQuiet(KeyframeRequested(s), es, s.newestUs + 600_000);
  }

  /**
   An arrival makes a request due exactly if it is a delta that is not a replay, held while nothing anchors the
   sequence, and by the capture clock after it the last request is 600 ms old, or none is on the schedule.
   */
  lemma RequestFallsDueExactly(s: State, f: WtFrame)
    requires s.pending.Valid() && Inv(s) && !s.keyDue
    ensures var c, t := Clock(s, f), Accept(s, f).0;
      t.keyDue <==>
        && !f.key && s.next.None? && !IsReplay(s.lastReleased, f) && Holds(t.pending, f)
        && (c.keyDueAtUs.None? || c.newestUs >= c.keyDueAtUs.value)
  {
    hide Oldest, AcceptAnchored, Insert, IsReplay, Clock, Anchor, Inv;
    var c := Clock(s, f);
    ClockSafe(s, f);
    if f.key {
      AnchorQuiet(c, f);
    } else if c.next.Some? {
      AnchoredQuiet(c, f);
    } else {
      InvParts(c);
      HeldExactly(c, f);
    }
  }

  lemma AnchorQuiet(s: State, f: WtFrame)
    requires s.pending.Valid()
    ensures var t := Insert(Anchor(s, f), f).0; !t.keyDue && t.keyDueAtUs.None?
  {
    hide Insert, KeepPlausible, Horizon;
    InsertQuiet(Anchor(s, f), f);
  }

  /** Without an anchor a request falls due exactly by holding the arrival when one may. */
  lemma HeldExactly(s: State, f: WtFrame)
    requires s.pending.Valid() && Filed(s.pending)
    ensures var t := HoldUnanchored(s, f);
      t.keyDue <==>
        s.keyDue || (Holds(t.pending, f) && (s.keyDueAtUs.None? || s.newestUs >= s.keyDueAtUs.value))
  {
    hide Oldest;
  }

  /** The schedule of the last request is forgotten exactly by an anchoring keyframe, a new capture clock or a new
      stream; until then no request is put off by anything but a later one. */
  lemma ScheduleEndsExactly(s: State, e: Event)
    requires s.pending.Valid() && Inv(s) && s.keyDueAtUs.Some?
    ensures var t := Step(s, e).0;
      && (t.keyDueAtUs.None? <==>
            match e
            case Arrive(f) => (f.key && !IsReplay(s.lastReleased, f)) || s.newestUs > f.captureUs + 5_000_000
            case Restart(newStream) => newStream
            case RttMeasured(_) => false
            case KeyAsked => false)
      && (t.keyDueAtUs.Some? ==>
            t.keyDueAtUs == if e.KeyAsked? then Some(s.newestUs + 600_000) else s.keyDueAtUs)
  {
    hide Accept, Inv;
    if e.Arrive? {
      ArrivalSchedule(s, e.f);
    }
  }

  /** A new stream starts over: whatever went before, its first frame's capture is the newest, and a first delta asks
      for a keyframe at once. */
  lemma NewStreamStartsOver(s: State, f: WtFrame)
    ensures var t := Reset(s, true);
      && t.pending.Valid()
      && Accept(t, f).0.newestUs == f.captureUs
      && (!f.key ==> Accept(t, f) == (Accept(t, f).0, []) && Accept(t, f).0.keyDue && Holds(Accept(t, f).0.pending, f))
  {
    hide Insert;
    var c := Clock(Reset(s, true), f);
    if f.key {
      InsertQuiet(Anchor(c, f), f);
    }
  }

  /** The step across a reset is not taken for a frame's: the cadence stays as observed before it. */
  lemma ResetKeepsCadence(s: State, newStream: bool, f: WtFrame)
    ensures Clock(Reset(s, newStream), f).cadenceUs == s.cadenceUs
  {}

  lemma ArrivalSchedule(s: State, f: WtFrame)
    requires s.pending.Valid() && Inv(s) && s.keyDueAtUs.Some?
    ensures var t := Accept(s, f).0;
      t.keyDueAtUs == if (f.key && !IsReplay(s.lastReleased, f)) || s.newestUs > f.captureUs + 5_000_000
                      then None else s.keyDueAtUs
  {
    hide Oldest, AcceptAnchored, Insert, IsReplay, Anchor, Inv;
    var c := Clock(s, f);
    ClockSafe(s, f);
    AnchorQuiet(c, f);
    if c.next.Some? {
      AnchoredQuiet(c, f);
    }
  }
}
