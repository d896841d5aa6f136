/** What the host lets through of a stream of input packets: a rate, newer packets only, no absurd jumps. */
module InputGate {
  import opened Bytes
  import C = InputCodec
  import InputBuffers

  const MAX_PACKET_BYTES := 1024

  /** Sequence numbers less than this far ahead are newer; half the counter's largest value. */
  const NEWER := 0x7FFF_FFFF

  datatype Limits = Limits(maxPerSec: nat, burst: nat, maxMouseDelta: int)

  datatype Gate = Gate(tokens: real, refilledAt: real, highWater: Option<u32>)

  function Open(l: Limits, now: real): Gate { Gate(l.burst as real, now, None) }

  datatype Verdict =
    | Oversize | Undecodable(error: C.CodecError) | Throttled | Stale | Implausible | Applied(packet: C.Packet)

  // ---- the token bucket ------------------------------------------------------------

  /** Seconds since the last refill; a clock that has not advanced gives none. */
  function Elapsed(fromS: real, toS: real): (d: real)
    ensures d >= 0.0
  {
    if toS > fromS then toS - fromS else 0.0
  }

  /** What the rate grants in a time. */
  function Earned(l: Limits, seconds: real): real {
    seconds * (l.maxPerSec as real)
  }

  lemma EarnedAdds(l: Limits, a: real, b: real)
    ensures Earned(l, a + b) == Earned(l, a) + Earned(l, b)
  {}

  lemma EarnedGrows(l: Limits, a: real, b: real)
    requires a <= b
    ensures Earned(l, a) <= Earned(l, b)
    ensures a == 0.0 ==> Earned(l, a) == 0.0
  {}

  function Refilled(l: Limits, g: Gate, now: real): real {
    var full := g.tokens + Earned(l, Elapsed(g.refilledAt, now));
    if full < l.burst as real then full else l.burst as real
  }

  function Admit(l: Limits, g: Gate, now: real): (Gate, bool) {
    var tokens := Refilled(l, g, now);
    if tokens >= 1.0 then (g.(tokens := tokens - 1.0, refilledAt := now), true)
    else (g.(tokens := tokens, refilledAt := now), false)
  }

  predicate IsFresh(highWater: Option<u32>, sequence: u32) {
    highWater.None? || Ahead(sequence, highWater.value) < NEWER
  }

  predicate Plausible(l: Limits, e: C.Event) {
    e.MouseMove? ==>
      && -l.maxMouseDelta <= e.dx <= l.maxMouseDelta && -l.maxMouseDelta <= e.dy <= l.maxMouseDelta
      && -l.maxMouseDelta <= e.wheelX <= l.maxMouseDelta && -l.maxMouseDelta <= e.wheelY <= l.maxMouseDelta
  }

  function SequenceOf(p: C.Packet): u32 {
    if 0 <= p.sequence < TWO32 then p.sequence else 0
  }

  /** A decoded sequence number is a 32-bit one. */
  lemma DecodedSequence(b: bytes)
    requires C.Decode(b).Good?
    ensures SequenceOf(C.Decode(b).value) == C.Decode(b).value.sequence
  {
    hide C.DecodeEvent;
    var h := C.ReadFields(b, 0, C.HEADER_WIDTHS);
    assert C.HEADER_WIDTHS == [1] + [1, 2, 4, 8];
    InputBuffers.ReadMore(b, 0, 1, [1, 2, 4, 8]);
    assert [1, 2, 4, 8] == [1] + [2, 4, 8];
    InputBuffers.ReadMore(b, 1, 1, [2, 4, 8]);
    assert [2, 4, 8] == [2] + [4, 8];
    InputBuffers.ReadMore(b, 2, 2, [4, 8]);
    assert [4, 8] == [4] + [8];
    InputBuffers.ReadMore(b, 4, 4, [8]);
    FromLeBound(b[4..8]);
    Widths();
  }

  /** One packet: size before anything is parsed, then decoding, rate, freshness, plausibility. */
  function Handle(l: Limits, g: Gate, b: bytes, now: real): (Gate, Verdict) {
    if |b| > MAX_PACKET_BYTES then (g, Oversize)
    else
      var p := C.Decode(b);
      if p.Bad? then (g, Undecodable(p.error))
      else
        var (t, ok) := Admit(l, g, now);
        if !ok then (t, Throttled)
        else if !IsFresh(t.highWater, SequenceOf(p.value)) then (t, Stale)
        else
          var u := t.(highWater := Some(SequenceOf(p.value)));
          (u, if Plausible(l, p.value.event) then Applied(p.value) else Implausible)
  }

  datatype Arrival = Arrival(b: bytes, at: real)

  function Run(l: Limits, g: Gate, ps: seq<Arrival>): (r: (Gate, seq<Verdict>))
    ensures |r.1| == |ps|
  {
    if |ps| == 0 then (g, [])
    else
      var (t, log) := Run(l, g, ps[..|ps| - 1]);
      var (u, v) := Handle(l, t, ps[|ps| - 1].b, ps[|ps| - 1].at);
      (u, log + [v])
  }

  // ---- the rate -------------------------------------------------------------------------

  predicate Let(v: Verdict) { v.Applied? || v.Stale? || v.Implausible? }

  function Admitted(log: seq<Verdict>): nat {
    if |log| == 0 then 0 else Admitted(log[..|log| - 1]) + (if Let(log[|log| - 1]) then 1 else 0)
  }

  ghost predicate InOrder(g: Gate, ps: seq<Arrival>) {
    && (forall i | 0 <= i < |ps| :: g.refilledAt <= ps[i].at)
    && forall i, j | 0 <= i <= j < |ps| :: ps[i].at <= ps[j].at
  }

  ghost predicate Filled(l: Limits, g: Gate) { 0.0 <= g.tokens <= l.burst as real }

  lemma HandleFilled(l: Limits, g: Gate, b: bytes, now: real)
    requires Filled(l, g) && g.refilledAt <= now
    ensures var t := Handle(l, g, b, now).0; Filled(l, t) && g.refilledAt <= t.refilledAt <= now
  {
    hide C.Decode, Plausible, Earned;
    EarnedGrows(l, 0.0, now - g.refilledAt);
  }

  lemma {:induction false} RunFilled(l: Limits, g: Gate, ps: seq<Arrival>)
    requires Filled(l, g) && InOrder(g, ps)
    ensures var t := Run(l, g, ps).0;
      && Filled(l, t) && g.refilledAt <= t.refilledAt
      && (if |ps| > 0 then t.refilledAt <= ps[|ps| - 1].at else t == g)
  {
    hide Handle;
    if |ps| > 0 {
      RunFilled(l, g, ps[..|ps| - 1]);
      HandleFilled(l, Run(l, g, ps[..|ps| - 1]).0, ps[|ps| - 1].b, ps[|ps| - 1].at);
    }
  }

  /** What is let through is taken out of the bucket as it stands at that moment. */
  lemma HandleSpends(l: Limits, g: Gate, b: bytes, now: real)
    requires Filled(l, g) && g.refilledAt <= now
    ensures var (t, v) := Handle(l, g, b, now);
      Refilled(l, t, now) + (if Let(v) then 1.0 else 0.0) <= Refilled(l, g, now)
  {
    hide C.Decode, Plausible, Earned;
    EarnedGrows(l, 0.0, now - g.refilledAt);
    EarnedGrows(l, 0.0, 0.0);
  }

  /** From one moment to a later one the bucket gains at most what the rate grants. */
  lemma RefillsSlowly(l: Limits, g: Gate, now: real, later: real)
    requires g.refilledAt <= now <= later
    ensures Refilled(l, g, later) <= Refilled(l, g, now) + Earned(l, later - now)
  {
    hide Earned;
    EarnedAdds(l, now - g.refilledAt, later - now);
    EarnedGrows(l, 0.0, later - now);
    assert now - g.refilledAt + (later - now) == later - g.refilledAt;
  }

  lemma AdmittedSnoc(log: seq<Verdict>, v: Verdict)
    ensures Admitted(log + [v]) == Admitted(log) + (if Let(v) then 1 else 0)
  {
    assert (log + [v])[..|log|] == log;
  }

  lemma {:induction false} RunSpends(l: Limits, g: Gate, ps: seq<Arrival>)
    requires Filled(l, g) && InOrder(g, ps) && |ps| > 0
    ensures var (t, log) := Run(l, g, ps);
      Admitted(log) as real + Refilled(l, t, ps[|ps| - 1].at)
        <= l.burst as real + Earned(l, ps[|ps| - 1].at - ps[0].at)
  {
    hide Handle, Earned, Refilled;
    var front, last := ps[..|ps| - 1], ps[|ps| - 1];
    var (t, log) := Run(l, g, front);
    RunFilled(l, g, front);
    HandleSpends(l, t, last.b, last.at);
    AdmittedSnoc(log, Handle(l, t, last.b, last.at).1);
    if |front| == 0 {
      FullAtMost(l, g, last.at);
      EarnedGrows(l, 0.0, 0.0);
    } else {
      RunSpends(l, g, front);
      var before := front[|front| - 1].at;
      RefillsSlowly(l, t, before, last.at);
      EarnedAdds(l, before - ps[0].at, last.at - before);
      assert before - ps[0].at + (last.at - before) == last.at - ps[0].at;
    }
  }

  lemma FullAtMost(l: Limits, g: Gate, now: real)
    ensures Refilled(l, g, now) <= l.burst as real
    ensures Filled(l, g) && g.refilledAt <= now ==> Refilled(l, g, now) >= 0.0
  {
    hide Earned;
    if g.refilledAt <= now {
      EarnedGrows(l, 0.0, now - g.refilledAt);
    }
  }

  /** In any stretch of arrivals, from any state the gate can be in, what is let through is at most the burst plus
      the rate times the time from the stretch's first packet to its last. */
  lemma RateIsBounded(l: Limits, g: Gate, ps: seq<Arrival>)
    requires Filled(l, g) && InOrder(g, ps) && |ps| > 0
    ensures Admitted(Run(l, g, ps).1) as real <= l.burst as real + Earned(l, ps[|ps| - 1].at - ps[0].at)
  {
    hide Run, Earned, Admitted, Refilled;
    RunFilled(l, g, ps);
    RunSpends(l, g, ps);
    FullAtMost(l, Run(l, g, ps).0, ps[|ps| - 1].at);
  }

  /** Each packet comes no sooner after the one before than the rate grants one. */
  ghost predicate Steady(l: Limits, ps: seq<Arrival>) {
    forall i | 0 < i < |ps| :: Earned(l, ps[i].at - ps[i - 1].at) >= 1.0
  }

  lemma SpacedIsAdmitted(l: Limits, g: Gate, b: bytes, before: real, now: real)
    requires Filled(l, g) && l.burst >= 1 && g.refilledAt <= before <= now && Earned(l, now - before) >= 1.0
    ensures Handle(l, g, b, now).1 != Throttled
  {
    hide C.Decode, Plausible, Earned;
    EarnedGrows(l, now - before, now - g.refilledAt);
  }

  lemma StockedIsAdmitted(l: Limits, g: Gate, b: bytes, now: real)
    requires Filled(l, g) && g.tokens >= 1.0 && g.refilledAt <= now
    ensures Handle(l, g, b, now).1 != Throttled
  {
    hide C.Decode, Plausible, Earned;
    EarnedGrows(l, 0.0, now - g.refilledAt);
  }

  /** A sender that keeps to the rate is never throttled, however long it goes on and whatever it sends: from a bucket
      with a token in it, no packet of a steady run is refused for its rate. */
  lemma {:induction false} SteadyIsAdmitted(l: Limits, g: Gate, ps: seq<Arrival>)
    requires Filled(l, g) && l.burst >= 1 && g.tokens >= 1.0
    requires InOrder(g, ps) && Steady(l, ps)
    ensures Throttled !in Run(l, g, ps).1
  {
    hide Handle, Earned, Filled;
    if |ps| > 0 {
      var front, last := ps[..|ps| - 1], ps[|ps| - 1];
      SteadyIsAdmitted(l, g, front);
      RunFilled(l, g, front);
      if |front| == 0 {
        StockedIsAdmitted(l, g, last.b, last.at);
      } else {
        SpacedIsAdmitted(l, Run(l, g, front).0, last.b, front[|front| - 1].at, last.at);
      }
    }
  }

  // ---- the burst is granted ------------------------------------------------------------

  /** One packet takes at most one token. */
  lemma HandleKeeps(l: Limits, g: Gate, b: bytes, now: real)
    requires Filled(l, g) && g.refilledAt <= now
    ensures Refilled(l, Handle(l, g, b, now).0, now) >= Refilled(l, g, now) - 1.0
  {
    hide C.Decode, Plausible, Earned;
    EarnedGrows(l, 0.0, now - g.refilledAt);
    EarnedGrows(l, 0.0, 0.0);
  }

  /** From one moment to a later one the bucket gains all the rate grants, up to the burst. */
  lemma RefillsFully(l: Limits, g: Gate, now: real, later: real)
    requires Filled(l, g) && g.refilledAt <= now <= later
    ensures var full := Refilled(l, g, now) + Earned(l, later - now);
      Refilled(l, g, later) == if full < l.burst as real then full else l.burst as real
  {
    hide Earned;
    EarnedAdds(l, now - g.refilledAt, later - now);
    EarnedGrows(l, 0.0, later - now);
    assert now - g.refilledAt + (later - now) == later - g.refilledAt;
  }

  lemma StockIsAdmitted(l: Limits, g: Gate, b: bytes, now: real)
    requires Refilled(l, g, now) >= 1.0
    ensures Handle(l, g, b, now).1 != Throttled
  {
    hide C.Decode, Plausible, Refilled;
  }

  /** The packets from `i` to `j` are no more than the burst and what the rate grants from the first to the last. */
  ghost predicate Within(l: Limits, ps: seq<Arrival>, i: nat, j: nat)
    requires i <= j < |ps|
  {
    (j - i + 1) as real <= l.burst as real + Earned(l, ps[j].at - ps[i].at)
  }

  /** With the bucket full when the `i`-th packet came, at least this is left when the last one comes. */
  ghost predicate LeftSince(l: Limits, g: Gate, ps: seq<Arrival>, i: nat)
    requires i < |ps|
  {
    var n := |ps| - 1;
    Refilled(l, Run(l, g, ps[..n]).0, ps[n].at) >= l.burst as real + Earned(l, ps[n].at - ps[i].at) - (n - i) as real
  }

  lemma {:induction false} SomeFullSince(l: Limits, g: Gate, ps: seq<Arrival>) returns (i: nat)
    requires g.tokens == l.burst as real && InOrder(g, ps) && |ps| > 0
    ensures i < |ps| && LeftSince(l, g, ps, i)
  {
    hide Handle, Earned, Refilled;
    var n := |ps| - 1;
    var front, now := ps[..n], ps[n].at;
    EarnedGrows(l, 0.0, 0.0);
    if n == 0 {
      FullStays(l, g, now);
      return 0;
    }
    var before := ps[n - 1].at;
    i := SomeFullSince(l, g, front);
    assert front[..n - 1] == ps[..n - 1];
    var s, t := Run(l, g, ps[..n - 1]).0, Run(l, g, front).0;
    RunFilled(l, g, ps[..n - 1]);
    RunFilled(l, g, front);
    HandleKeeps(l, s, ps[n - 1].b, before);
    RefillsFully(l, t, before, now);
    EarnedAdds(l, before - ps[i].at, now - before);
    assert before - ps[i].at + (now - before) == now - ps[i].at;
    if Refilled(l, t, before) + Earned(l, now - before) >= l.burst as real {
      i := n;
    }
  }

  lemma FullStays(l: Limits, g: Gate, now: real)
    requires g.tokens == l.burst as real && g.refilledAt <= now
    ensures Refilled(l, g, now) == l.burst as real
  {
    hide Earned;
    EarnedGrows(l, 0.0, now - g.refilledAt);
  }

  /** From a full bucket, as long as every stretch holds no more packets than the burst and what the rate grants over
      its own length, none is refused for its rate: the whole burst is there to be used at once. */
  lemma {:induction false} BurstIsGranted(l: Limits, g: Gate, ps: seq<Arrival>)
    requires g.tokens == l.burst as real && InOrder(g, ps)
    requires forall i: nat, j: nat | i <= j < |ps| :: Within(l, ps, i, j)
    ensures Throttled !in Run(l, g, ps).1
  {
    hide Handle, Earned, Refilled;
    if |ps| > 0 {
      var n := |ps| - 1;
      forall i: nat, j: nat | i <= j < n ensures Within(l, ps[..n], i, j) {
        assert Within(l, ps, i, j);
      }
      BurstIsGranted(l, g, ps[..n]);
      var i := SomeFullSince(l, g, ps);
      assert Within(l, ps, i, n);
      StockIsAdmitted(l, Run(l, g, ps[..n]).0, ps[n].b, ps[n].at);
    }
  }

  /** A packet that gets as far as the rate check. */
  predicate Readable(b: bytes) { |b| <= 1024 && C.Decode(b).Good? }

  lemma {:induction false} AllAdmitted(l: Limits, g: Gate, ps: seq<Arrival>)
    requires Throttled !in Run(l, g, ps).1 && forall k | 0 <= k < |ps| :: Readable(ps[k].b)
    ensures Admitted(Run(l, g, ps).1) == |ps|
  {
    hide C.Decode, Plausible, Refilled, IsFresh;
    if |ps| > 0 {
      var front := ps[..|ps| - 1];
      assert forall v | v in Run(l, g, front).1 :: v in Run(l, g, ps).1;
      AllAdmitted(l, g, front);
      AdmittedSnoc(Run(l, g, front).1, Run(l, g, ps).1[|ps| - 1]);
      assert Run(l, g, ps).1[|ps| - 1] != Throttled;
    }
  }

  lemma {:induction false} RunOn(l: Limits, g: Gate, ps: seq<Arrival>, qs: seq<Arrival>)
    ensures Run(l, g, ps + qs) == (Run(l, Run(l, g, ps).0, qs).0, Run(l, g, ps).1 + Run(l, Run(l, g, ps).0, qs).1)
  {
    hide Handle;
    var (t, log) := Run(l, g, ps);
    if |qs| == 0 {
      assert ps + qs == ps && log + [] == log;
    } else {
      var front, last := qs[..|qs| - 1], qs[|qs| - 1];
      assert (ps + qs)[..|ps + qs| - 1] == ps + front;
      RunOn(l, g, ps, front);
      Regroup(log, Run(l, t, front).1, [Handle(l, Run(l, t, front).0, last.b, last.at).1]);
    }
  }

  lemma MiddleOf(l: Limits, g: Gate, pre: seq<Arrival>, mid: seq<Arrival>, post: seq<Arrival>, v: Verdict)
    requires v in Run(l, Run(l, g, pre).0, mid).1
    ensures v in Run(l, g, pre + (mid + post)).1
  {
    hide Run;
    RunOn(l, g, pre, mid + post);
    RunOn(l, Run(l, g, pre).0, mid, post);
  }

  lemma MiddleInOrder(l: Limits, g: Gate, ps: seq<Arrival>, i: nat, j: nat)
    requires Filled(l, g) && InOrder(g, ps) && i <= j < |ps|
    ensures Filled(l, Run(l, g, ps[..i]).0) && InOrder(Run(l, g, ps[..i]).0, ps[i..j + 1])
  {
    hide Run;
    RunFilled(l, g, ps[..i]);
    var mid := ps[i..j + 1];
    assert forall k | 0 <= k < |mid| :: mid[k] == ps[i + k];
  }

  lemma StretchIsWithin(l: Limits, g: Gate, ps: seq<Arrival>, i: nat, j: nat)
    requires Filled(l, g) && InOrder(g, ps) && i <= j < |ps|
    requires Throttled !in Run(l, g, ps).1 && forall k | 0 <= k < |ps| :: Readable(ps[k].b)
    ensures Within(l, ps, i, j)
  {
    hide Run, Earned, Admitted, Filled, Readable, InOrder;
    var pre, mid, post := ps[..i], ps[i..j + 1], ps[j + 1..];
    assert ps == pre + (mid + post);
    var s := Run(l, g, pre).0;
    if Throttled in Run(l, s, mid).1 {
      MiddleOf(l, g, pre, mid, post, Throttled);
    }
    forall k | 0 <= k < |mid| ensures Readable(mid[k].b) {
      assert mid[k] == ps[i + k];
    }
    MiddleInOrder(l, g, ps, i, j);
    AllAdmitted(l, s, mid);
    RateIsBounded(l, s, mid);
  }

  /**
   The rate limit, exactly: from a full bucket and for packets that can be read, none is refused for its rate if and
   only if no stretch of them is longer than the burst and what the rate grants over it.
   */
  lemma ThrottlesExactly(l: Limits, g: Gate, ps: seq<Arrival>)
    requires g.tokens == l.burst as real && InOrder(g, ps) && forall k | 0 <= k < |ps| :: Readable(ps[k].b)
    ensures Throttled !in Run(l, g, ps).1 <==> forall i: nat, j: nat | i <= j < |ps| :: Within(l, ps, i, j)
  {
    hide Run, Within, Readable;
    if forall i: nat, j: nat | i <= j < |ps| :: Within(l, ps, i, j) {
      BurstIsGranted(l, g, ps);
    }
    if Throttled !in Run(l, g, ps).1 {
      forall i: nat, j: nat | i <= j < |ps| ensures Within(l, ps, i, j) {
        StretchIsWithin(l, g, ps, i, j);
      }
    }
  }

  // ---- what does not count ------------------------------------------------------------------

  function ReadableOnly(ps: seq<Arrival>): seq<Arrival> {
    if |ps| == 0 then []
    else ReadableOnly(ps[..|ps| - 1]) + (if Readable(ps[|ps| - 1].b) then [ps[|ps| - 1]] else [])
  }

  lemma UnreadCostsNothing(l: Limits, g: Gate, b: bytes, now: real)
    requires !Readable(b)
    ensures Handle(l, g, b, now).0 == g
  {
    hide C.Decode;
  }

  /** Over every run, packets that are too long or cannot be decoded leave the gate as if they had never come. */
  lemma {:induction false} UnreadIsInvisible(l: Limits, g: Gate, ps: seq<Arrival>)
    ensures Run(l, g, ps).0 == Run(l, g, ReadableOnly(ps)).0
  {
    hide Handle, Readable;
    if |ps| > 0 {
      var front, last := ps[..|ps| - 1], ps[|ps| - 1];
      UnreadIsInvisible(l, g, front);
      if Readable(last.b) {
        assert (ReadableOnly(front) + [last])[..|ReadableOnly(front)|] == ReadableOnly(front);
      } else {
        UnreadCostsNothing(l, Run(l, g, front).0, last.b, last.at);
        assert ReadableOnly(front) + [] == ReadableOnly(front);
      }
    }
  }

  /** No packet a sender encodes is too long, but for a snapshot of more than 501 held keys, or 493 beside a gamepad. */
  lemma OversizeExactly(l: Limits, g: Gate, p: C.Packet, now: real)
    requires C.Fits(p)
    ensures Handle(l, g, C.Encode(p), now).1 == Oversize <==>
      p.event.State? && |p.event.snapshot.heldKeys| > (if p.event.snapshot.gamepad.Some? then 493 else 501)
  {
    hide C.Decode, C.Encode, Admit, Plausible, IsFresh;
    C.EncodedSize(p);
  }

  /** Past the freshness check, and so what later packets are compared with. */
  predicate Accepted(v: Verdict) { v.Applied? || v.Implausible? }

  function Abs(v: int): nat { if v < 0 then -v else v }

  /** A packet that gets past the freshness check is refused exactly for a mouse move some part of which, either way, is
      beyond the limit. */
  lemma ImplausibleExactly(l: Limits, g: Gate, b: bytes, now: real)
    requires Accepted(Handle(l, g, b, now).1)
    ensures C.Decode(b).Good?
    ensures var e := C.Decode(b).value.event;
      Handle(l, g, b, now).1 == Implausible <==>
        e.MouseMove? && (Abs(e.dx) > l.maxMouseDelta || Abs(e.dy) > l.maxMouseDelta
                         || Abs(e.wheelX) > l.maxMouseDelta || Abs(e.wheelY) > l.maxMouseDelta)
  {
    hide C.Decode, Admit, IsFresh;
  }

  /** Two different numbers are never each newer than the other, and one of them is newer unless they are half the
      counter apart, give or take one. */
  lemma OneIsNewer(a: u32, b: u32)
    requires a != b
    ensures !(IsFresh(Some(a), b) && IsFresh(Some(b), a))
    ensures IsFresh(Some(a), b) || IsFresh(Some(b), a) <==> !(0x7FFF_FFFF <= Ahead(a, b) <= 0x8000_0001)
  {}

  // ---- what the gate makes of order ---------------------------------------------------------

  /** `place` puts a packet on the sender's unbounded timeline, within half the counter from `base`. */
  ghost predicate Placed(place: C.Packet -> int, base: int, b: bytes) {
    C.Decode(b).Good? ==>
      var p := C.Decode(b).value;
      base <= place(p) < base + NEWER && place(p) % TWO32 == p.sequence
  }

  function PlaceOf(place: C.Packet -> int, b: bytes): int {
    var p := C.Decode(b);
    if p.Good? then place(p.value) else 0
  }

  /** Where the last packet accepted lies. */
  function Mark(l: Limits, g: Gate, ps: seq<Arrival>, place: C.Packet -> int): Option<int> {
    if |ps| == 0 then None
    else if Accepted(Run(l, g, ps).1[|ps| - 1]) then Some(PlaceOf(place, ps[|ps| - 1].b))
    else Mark(l, g, ps[..|ps| - 1], place)
  }

  ghost predicate Marks(g: Gate, mark: Option<int>, base: int) {
    && (g.highWater.None? <==> mark.None?)
    && (mark.Some? ==> base <= mark.value < base + NEWER && g.highWater.value == mark.value % TWO32)
  }

  /** Within half the counter, a number the freshness check passes is not behind the newest. */
  lemma FreshIsNotBehind(base: int, newest: int, at: int)
    requires base <= newest < base + NEWER && base <= at < base + NEWER
    ensures IsFresh(Some(newest % TWO32), at % TWO32) <==> newest <= at
  {
    var d := Ahead(at % TWO32, newest % TWO32);
    assert d == (at - newest) % TWO32;
  }

  lemma HandleMarks(l: Limits, g: Gate, a: Arrival, place: C.Packet -> int, base: int, mark: Option<int>)
    requires Marks(g, mark, base) && Placed(place, base, a.b)
    ensures var (t, v) := Handle(l, g, a.b, a.at);
      && Marks(t, if Accepted(v) then Some(PlaceOf(place, a.b)) else mark, base)
      && (mark.Some? && Accepted(v) ==> mark.value <= PlaceOf(place, a.b))
      && (v.Stale? ==> mark.Some? && PlaceOf(place, a.b) < mark.value)
  {
    hide C.Decode, Plausible, Refilled, IsFresh;
    if C.Decode(a.b).Good? {
      DecodedSequence(a.b);
      if mark.Some? {
        FreshIsNotBehind(base, mark.value, PlaceOf(place, a.b));
      } else {
        NoneIsFresh(g.highWater, C.Decode(a.b).value);
      }
    }
  }

  lemma NoneIsFresh(highWater: Option<u32>, p: C.Packet)
    requires highWater.None?
    ensures IsFresh(highWater, SequenceOf(p))
  {}

  ghost predicate AllPlaced(ps: seq<Arrival>, place: C.Packet -> int, base: int) {
    forall k | 0 <= k < |ps| :: Placed(place, base, ps[k].b)
  }

  lemma {:induction false} RunMarks(l: Limits, g: Gate, ps: seq<Arrival>, place: C.Packet -> int, base: int)
    requires g.highWater.None? && AllPlaced(ps, place, base)
    ensures Marks(Run(l, g, ps).0, Mark(l, g, ps, place), base)
  {
    hide Handle, Placed, Marks, PlaceOf, Accepted;
    if |ps| == 0 {
      NoneMarks(g, base);
    } else {
      var front := ps[..|ps| - 1];
      RunMarks(l, g, front, place, base);
      HandleMarks(l, Run(l, g, front).0, ps[|ps| - 1], place, base, Mark(l, g, front, place));
    }
  }

  lemma NoneMarks(g: Gate, base: int)
    requires g.highWater.None?
    ensures Marks(g, None, base)
  {}

  /** What a run did with its `k`-th packet. */
  lemma {:induction false} VerdictAt(l: Limits, g: Gate, ps: seq<Arrival>, k: nat)
    requires k < |ps|
    ensures Run(l, g, ps).1[k] == Handle(l, Run(l, g, ps[..k]).0, ps[k].b, ps[k].at).1
  {
    hide Handle;
    if k < |ps| - 1 {
      VerdictAt(l, g, ps[..|ps| - 1], k);
      assert ps[..|ps| - 1][..k] == ps[..k];
    }
  }

  /** Between `i` and `j` a packet the sender sent after `i` was accepted. */
  ghost predicate Overtaken(l: Limits, g: Gate, ps: seq<Arrival>, place: C.Packet -> int, i: nat, j: nat)
    requires i < j <= |ps|
  {
    exists k :: i < k < j && Accepted(Run(l, g, ps).1[k]) && PlaceOf(place, ps[k].b) > PlaceOf(place, ps[i].b)
  }

  lemma MarkNext(l: Limits, g: Gate, ps: seq<Arrival>, place: C.Packet -> int, base: int, j: nat)
    requires g.highWater.None? && AllPlaced(ps, place, base) && j < |ps|
    ensures var v, before := Run(l, g, ps).1[j], Mark(l, g, ps[..j], place);
      && Mark(l, g, ps[..j + 1], place) == (if Accepted(v) then Some(PlaceOf(place, ps[j].b)) else before)
      && (before.Some? && Accepted(v) ==> before.value <= PlaceOf(place, ps[j].b))
      && (v.Stale? ==> before.Some? && PlaceOf(place, ps[j].b) < before.value)
  {
    hide Handle, Run, Placed, Marks, PlaceOf, Accepted;
    VerdictAt(l, g, ps, j);
    VerdictAt(l, g, ps[..j + 1], j);
    assert ps[..j + 1][..j] == ps[..j];
    RunMarks(l, g, ps[..j], place, base);
    HandleMarks(l, Run(l, g, ps[..j]).0, ps[j], place, base, Mark(l, g, ps[..j], place));
  }

  /** From an accepted packet on the mark is never behind it, and past it exactly once a later one was accepted. */
  lemma {:induction false} MarkSince(l: Limits, g: Gate, ps: seq<Arrival>, place: C.Packet -> int, base: int,
                                     i: nat, j: nat)
    requires g.highWater.None? && AllPlaced(ps, place, base)
    requires i < j <= |ps| && Accepted(Run(l, g, ps).1[i])
    ensures var mark := Mark(l, g, ps[..j], place);
      && mark.Some? && mark.value >= PlaceOf(place, ps[i].b)
      && (mark.value > PlaceOf(place, ps[i].b) <==> Overtaken(l, g, ps, place, i, j))
    decreases j
  {
    hide Run, Mark, PlaceOf, Accepted, AllPlaced;
    MarkNext(l, g, ps, place, base, j - 1);
    if i < j - 1 {
      MarkSince(l, g, ps, place, base, i, j - 1);
    }
  }

  /** Over every run of a session whose numbers span less than half the counter, wrapped or not, no packet is applied
      after one the sender sent later: reordered and late copies change nothing. */
  lemma NeverBackwards(l: Limits, g: Gate, ps: seq<Arrival>, place: C.Packet -> int, base: int, i: nat, j: nat)
    requires g.highWater.None? && AllPlaced(ps, place, base)
    requires var log := Run(l, g, ps).1; i < j < |log| && log[i].Applied? && log[j].Applied?
    ensures var log := Run(l, g, ps).1; place(log[i].packet) <= place(log[j].packet)
  {
    hide Run, Mark, Handle, AllPlaced, C.Decode;
    MarkSince(l, g, ps, place, base, i, j);
    MarkNext(l, g, ps, place, base, j);
    AppliedIs(l, g, ps, i);
    AppliedIs(l, g, ps, j);
  }

  lemma AppliedIs(l: Limits, g: Gate, ps: seq<Arrival>, k: nat)
    requires k < |ps| && Run(l, g, ps).1[k].Applied?
    ensures C.Decode(ps[k].b).Good? && Run(l, g, ps).1[k].packet == C.Decode(ps[k].b).value
  {
    hide Run, C.Decode, Plausible, Refilled, IsFresh;
    VerdictAt(l, g, ps, k);
  }

  /** Admitted, a copy of a packet once accepted is either stale or fares as that one did. */
  lemma SameFate(l: Limits, g: Gate, h: Gate, b: bytes, now: real, again: real)
    requires Accepted(Handle(l, g, b, now).1) && Handle(l, h, b, again).1 != Throttled
    ensures Handle(l, h, b, again).1 == Stale || Handle(l, h, b, again).1 == Handle(l, g, b, now).1
  {
    hide C.Decode, Plausible, Refilled, IsFresh;
  }

  /**
   Every packet goes out on two carriers, and the gate is meant to drop the second copy. It does, throttling aside,
   exactly if a packet sent later was accepted in between; otherwise the copy fares as the first one did, and an
   applied packet is applied again.
   */
  lemma SecondCopy(l: Limits, g: Gate, ps: seq<Arrival>, place: C.Packet -> int, base: int, i: nat, j: nat)
    requires g.highWater.None? && AllPlaced(ps, place, base)
    requires i < j < |ps| && ps[j].b == ps[i].b
    requires Accepted(Run(l, g, ps).1[i]) && Run(l, g, ps).1[j] != Throttled
    ensures var log := Run(l, g, ps).1;
      log[j] == if Overtaken(l, g, ps, place, i, j) then Stale else log[i]
  {
    hide Run, Mark, Handle, AllPlaced, PlaceOf, Overtaken;
    MarkSince(l, g, ps, place, base, i, j);
    MarkNext(l, g, ps, place, base, j);
    VerdictAt(l, g, ps, i);
    VerdictAt(l, g, ps, j);
    SameFate(l, Run(l, g, ps[..i]).0, Run(l, g, ps[..j]).0, ps[i].b, ps[i].at, ps[j].at);
  }

  // ---- the session as the host runs it ------------------------------------------------------------

  const LOG_EVERY_S := 2.0

  /** How many packets were refused since the last log line, and when that was, after one more is. */
  function Noted(throttled: nat, loggedAt: real, now: real): (nat, real) {
    if Elapsed(loggedAt, now) >= LOG_EVERY_S then (0, now) else (throttled + 1, loggedAt)
  }

  /** A refusal is logged, and the count starts over, exactly if the last log line is at least two seconds old. */
  lemma LoggedExactly(throttled: nat, loggedAt: real, now: real)
    requires loggedAt < now
    ensures Noted(throttled, loggedAt, now) == if now - loggedAt >= 2.0 then (0, now) else (throttled + 1, loggedAt)
  {}

  class InputSession {
    const limits: Limits
    var tokens: real
    var tokensRefilledAt: real
    var highWater: Option<u32>
    var throttled: nat
    var lastThrottleLog: real
    var lastPacketAt: real
    var released: bool

    ghost function Model(): Gate
      reads this
    {
      Gate(tokens, tokensRefilledAt, highWater)
    }

    constructor (limits: Limits, now: real)
      ensures this.limits == limits && Model() == Open(limits, now) && Filled(limits, Model())
      ensures released && lastPacketAt == now && throttled == 0 && lastThrottleLog == now
    {
      this.limits := limits;
      tokens := limits.burst as real;
      tokensRefilledAt := now;
      highWater := None;
      throttled := 0;
      lastThrottleLog := now;
      lastPacketAt := now;
      released := true;
    }

    method RateOk(now: real) returns (ok: bool)
      modifies `tokens, `tokensRefilledAt
      ensures (Model(), ok) == Admit(limits, old(Model()), now)
    {
      hide Earned;
      var elapsed := Elapsed(tokensRefilledAt, now);
      tokensRefilledAt := now;
      var full := tokens + Earned(limits, elapsed);
      tokens := if full < limits.burst as real then full else limits.burst as real;
      if tokens >= 1.0 {
        tokens := tokens - 1.0;
        return true;
      }
      return false;
    }

    method NoteThrottled(now: real)
      modifies `throttled, `lastThrottleLog
      ensures (throttled, lastThrottleLog) == Noted(old(throttled), old(lastThrottleLog), now)
    {
      throttled := throttled + 1;
      if Elapsed(lastThrottleLog, now) >= LOG_EVERY_S {
        throttled := 0;
        lastThrottleLog := now;
      }
    }

    /** One raw packet: what becomes of it, and the gate afterwards; whatever can be read counts as a sign of life. */
    method HandlePacket(b: bytes, now: real) returns (v: Verdict)
      modifies this
      ensures (Model(), v) == Handle(limits, old(Model()), b, now)
      ensures if v.Oversize? || v.Undecodable? then lastPacketAt == old(lastPacketAt) && released == old(released)
              else lastPacketAt == now && !released
      ensures (throttled, lastThrottleLog) == if v.Oversize? || v.Throttled? || v.Implausible?
                                              then Noted(old(throttled), old(lastThrottleLog), now)
                                              else (old(throttled), old(lastThrottleLog))
    {
      hide C.Decode, C.DecodeEvent, Plausible, Refilled;
      if |b| > MAX_PACKET_BYTES {
        NoteThrottled(now);
        return Oversize;
      }
      var p := InputBuffers.DecodePacket(b);
      if p.Bad? {
        return Undecodable(p.error);
      }
      lastPacketAt := now;
      released := false;
      var ok := RateOk(now);
      if !ok {
        NoteThrottled(now);
        return Throttled;
      }
      var sequence := SequenceOf(p.value);
      if !IsFresh(highWater, sequence) {
        return Stale;
      }
      highWater := Some(sequence);
      if !Plausible(limits, p.value.event) {
        NoteThrottled(now);
        return Implausible;
      }
      return Applied(p.value);
    }
  }
}
