/**
 The erasure code's two halves put together: what the browser rebuilds is what the
 host sent, which groups one pass completes, and that neither depends on the order
 datagrams arrive in.
 */
module RepairSound {
  import opened Bytes
  import opened Parity
  import opened Assembly

  // ---- soundness -----------------------------------------------------------

  /** Everything held is what the host sent for `h`. */
  ghost predicate Honest(h: HostFrame, st: AsmState) {
    && Sendable(h)
    && |st.parts| == st.cnt == |Frags(h)|
    && st.captureUs == h.captureUs && st.key == h.key
    && (forall i | 0 <= i < st.cnt :: st.parts[i].Some? ==> st.parts[i].value == Frags(h)[i])
    && (forall g | g in st.p1 :: g < GroupCount(st.cnt) && st.p1[g] == Row(Frags(h), 1, g) && st.total.Some?)
    && (forall g | g in st.p2 :: g < GroupCount(st.cnt) && st.p2[g] == Row(Frags(h), 2, g) && st.total.Some?)
    && (st.total.Some? ==> st.total.value == |h.payload|)
  }

  lemma FragmentLengths(h: HostFrame)
    requires Sendable(h)
    ensures var fs := Frags(h);
      && (forall i | 0 <= i < |fs| - 1 :: |fs[i]| == h.budget)
      && |fs[|fs| - 1]| <= h.budget
      && (|fs| > 1 ==> |fs[|fs| - 1]| > 0)
  {
    SplitShape(h.payload, h.budget);
  }

  lemma FrameLength(h: HostFrame)
    requires Sendable(h)
    ensures var fs := Frags(h); |h.payload| == (|fs| - 1) * h.budget + |fs[|fs| - 1]|
    ensures TotalLen(Frags(h)) == |h.payload|
  {
    SplitLength(h.payload, h.budget);
    SplitJoins(h.payload, h.budget);
  }

  /** Every fragment of `sel` in `[lo, hi)` but those of `except` is held, as sent. */
  ghost predicate HeldBut(fs: seq<bytes>, parts: seq<Option<bytes>>, sel: set<nat>, except: set<nat>) {
    && |parts| == |fs|
    && forall i | i in sel && i !in except :: i < |parts| && parts[i] == Some(fs[i])
  }

  /** With every member of `sel` but `m` held, XORing them out of the row over `sel` leaves fragment `m`. */
  lemma RebuildExact(fs: seq<bytes>, parts: seq<Option<bytes>>, lo: nat, hi: nat, sel: set<nat>, acc: bytes, m: nat)
    requires lo <= m < hi <= |parts|
    requires m in sel && HeldBut(fs, parts, sel, {m})
    requires forall j | 0 <= j < |acc| :: acc[j] == Column(fs, lo, hi, sel, j)
    ensures forall j | 0 <= j < |acc| :: Accumulate(acc, parts, lo, hi, sel - {m})[j] == ByteAt(fs[m], j)
  {
    forall j | 0 <= j < |acc|
      ensures Accumulate(acc, parts, lo, hi, sel - {m})[j] == ByteAt(fs[m], j)
    {
      ColumnAgree(Known(parts), fs, lo, hi, sel - {m}, j);
      Solve(fs, lo, hi, sel, m, j);
    }
  }

  lemma GroupWidth(h: HostFrame, g: nat, m: nat)
    requires Sendable(h) && g < GroupCount(|Frags(h)|)
    requires Lo(g) <= m < Hi(g, |Frags(h)|)
    ensures |Row(Frags(h), 1, g)| == |Row(Frags(h), 2, g)| >= |Frags(h)[m]|
    ensures m < |Frags(h)| - 1 ==> |Row(Frags(h), 1, g)| == |Frags(h)[m]|
  {
    hide Split, Sendable, Column;
    FragmentLengths(h);
  }

  /** A rebuilt fragment is the row's width; cut to the fragment's own length it is the fragment. */
  lemma Padded(a: bytes, b: bytes)
    requires |a| >= |b|
    requires forall j | 0 <= j < |a| :: a[j] == ByteAt(b, j)
    ensures Truncate(a, |b|) == b
    ensures |a| == |b| ==> a == b
  {}

  lemma FinalLengthExact(h: HostFrame, st: AsmState)
    requires Honest(h, st)
    ensures FinalLength(st) ==
      if st.total.Some? && (st.cnt == 1 || exists i | 0 <= i < st.cnt - 1 :: st.parts[i].Some?)
      then Some(|Frags(h)[st.cnt - 1]|) else None
  {
    hide Row, Split, TotalLen;
    FragmentLengths(h);
    FrameLength(h);
    if st.cnt > 1 && st.total.Some? {
      var i := FirstPresent(st.parts, st.cnt - 1);
      if i.Some? {
        assert st.parts[i.value].value == Frags(h)[i.value];
      }
    }
  }

  lemma RebuildOneExact(h: HostFrame, parts: seq<Option<bytes>>, g: nat, m: nat)
    requires Sendable(h) && g < GroupCount(|Frags(h)|) && |parts| == |Frags(h)|
    requires var lo, hi := Lo(g), Hi(g, |parts|); lo <= m < hi && HeldBut(Frags(h), parts, Members(lo, hi), {m})
    ensures var lo, hi := Lo(g), Hi(g, |parts|);
      var r := Accumulate(Row(Frags(h), 1, g), parts, lo, hi, Members(lo, hi) - {m});
      && Truncate(r, |Frags(h)[m]|) == Frags(h)[m]
      && (m < |parts| - 1 ==> r == Frags(h)[m])
  {
    hide Column, Split, Sendable, Accumulate;
    var fs, lo, hi := Frags(h), Lo(g), Hi(g, |parts|);
    RebuildExact(fs, parts, lo, hi, Members(lo, hi), Row(fs, 1, g), m);
    GroupWidth(h, g, m);
    Padded(Accumulate(Row(fs, 1, g), parts, lo, hi, Members(lo, hi) - {m}), fs[m]);
  }

  lemma RebuildOddExact(h: HostFrame, parts: seq<Option<bytes>>, g: nat, odd: nat)
    requires Sendable(h) && g < GroupCount(|Frags(h)|) && |parts| == |Frags(h)|
    requires var lo, hi := Lo(g), Hi(g, |parts|);
      odd in Odds(lo, hi) && odd < |parts| - 1 && HeldBut(Frags(h), parts, Odds(lo, hi), {odd})
    ensures var lo, hi := Lo(g), Hi(g, |parts|);
      Accumulate(Row(Frags(h), 2, g), parts, lo, hi, Odds(lo, hi) - {odd}) == Frags(h)[odd]
  {
    hide Column, Split, Sendable, Accumulate;
    var fs, lo, hi := Frags(h), Lo(g), Hi(g, |parts|);
    RebuildExact(fs, parts, lo, hi, Odds(lo, hi), Row(fs, 2, g), odd);
    GroupWidth(h, g, odd);
    Padded(Accumulate(Row(fs, 2, g), parts, lo, hi, Odds(lo, hi) - {odd}), fs[odd]);
  }

  /** Row 1 and row 2 together are the row over the even offsets. */
  lemma EvenRow(fs: seq<bytes>, g: nat)
    requires g < GroupCount(|fs|)
    ensures var acc := XorBytes(Row(fs, 1, g), Row(fs, 2, g));
      && |acc| == |Row(fs, 1, g)|
      && forall j | 0 <= j < |acc| :: acc[j] == Column(fs, Lo(g), Hi(g, |fs|), Evens(Lo(g), Hi(g, |fs|)), j)
  {
    hide Column;
    var lo, hi := Lo(g), Hi(g, |fs|);
    var acc := XorBytes(Row(fs, 1, g), Row(fs, 2, g));
    assert (Members(lo, hi) - Odds(lo, hi)) + (Odds(lo, hi) - Members(lo, hi)) == Evens(lo, hi);
    forall j | 0 <= j < |acc| ensures acc[j] == Column(fs, lo, hi, Evens(lo, hi), j) {
      ColumnXor(fs, lo, hi, Members(lo, hi), Odds(lo, hi), j);
    }
  }

  lemma RebuildEvenExact(h: HostFrame, parts: seq<Option<bytes>>, g: nat, even: nat)
    requires Sendable(h) && g < GroupCount(|Frags(h)|) && |parts| == |Frags(h)|
    requires var lo, hi := Lo(g), Hi(g, |parts|);
      even in Evens(lo, hi) && even < |parts| - 1 && HeldBut(Frags(h), parts, Evens(lo, hi), {even})
    ensures var lo, hi := Lo(g), Hi(g, |parts|);
      Accumulate(XorBytes(Row(Frags(h), 1, g), Row(Frags(h), 2, g)), parts, lo, hi, Evens(lo, hi) - {even})
        == Frags(h)[even]
  {
    hide Column, Split, Sendable, Accumulate, XorBytes;
    var fs, lo, hi := Frags(h), Lo(g), Hi(g, |parts|);
    var acc := XorBytes(Row(fs, 1, g), Row(fs, 2, g));
    EvenRow(fs, g);
    RebuildExact(fs, parts, lo, hi, Evens(lo, hi), acc, even);
    GroupWidth(h, g, even);
    Padded(Accumulate(acc, parts, lo, hi, Evens(lo, hi) - {even}), fs[even]);
  }

  lemma HeldButHoles(h: HostFrame, st: AsmState, lo: nat, hi: nat, sel: set<nat>, except: set<nat>)
    requires |st.parts| == st.cnt && Honest(h, st) && lo <= hi <= st.cnt
    requires sel <= Members(lo, hi)
    requires forall i | lo <= i < hi && i !in except :: st.parts[i].Some?
    ensures HeldBut(Frags(h), st.parts, sel, except)
  {
    hide Row, Split, Sendable;
  }

  /** With only `even` and `odd` missing from a group, every other member of one parity is held. */
  lemma HalfHeld(h: HostFrame, st: AsmState, lo: nat, hi: nat, even: nat, odd: nat)
    requires |st.parts| == st.cnt && Honest(h, st) && lo <= hi <= st.cnt
    requires lo <= even < hi && (even - lo) % 2 == 0 && lo <= odd < hi && (odd - lo) % 2 == 1
    requires forall i | lo <= i < hi && i != even && i != odd :: st.parts[i].Some?
    ensures even in Evens(lo, hi) && HeldBut(Frags(h), st.parts, Evens(lo, hi), {even})
    ensures odd in Odds(lo, hi) && HeldBut(Frags(h), st.parts, Odds(lo, hi), {odd})
  {
    hide Row, Split, Sendable, Evens, Odds;
    forall i | i in Evens(lo, hi) && i !in {even} ensures i < st.cnt && st.parts[i] == Some(Frags(h)[i]) {
      assert i != odd;
    }
    forall i | i in Odds(lo, hi) && i !in {odd} ensures i < st.cnt && st.parts[i] == Some(Frags(h)[i]) {
      assert i != even;
    }
  }

  /** What honesty says of one group: the rows filed for it are the host's. */
  lemma HonestRows(h: HostFrame, st: AsmState, g: nat)
    requires Honest(h, st)
    ensures Sendable(h) && |st.parts| == st.cnt == |Frags(h)|
    ensures g in st.p1 ==> g < GroupCount(st.cnt) && st.p1[g] == Row(Frags(h), 1, g) && st.total.Some?
    ensures g in st.p2 ==> g < GroupCount(st.cnt) && st.p2[g] == Row(Frags(h), 2, g) && st.total.Some?
  {
    hide Row, Split, Sendable;
  }

  lemma PlanOneShape(st: AsmState, g: nat)
    requires |st.parts| == st.cnt && g < GroupCount(st.cnt) && PlanGroup(st, g).One?
    ensures var p, lo, hi := PlanGroup(st, g), Lo(g), Hi(g, st.cnt);
      && lo <= p.m < hi && g in st.p1
      && (forall i | lo <= i < hi && i !in {p.m} :: st.parts[i].Some?)
      && (if p.m != st.cnt - 1 then p.body == RebuildOne(st, g, p.m)
          else FinalLength(st).Some? && p.body == Truncate(RebuildOne(st, g, p.m), FinalLength(st).value))
  {
    hide PlanGroup, FinalLength, Truncate, RebuildOne;
  }

  /** What a plan would store is what the host sent. */
  ghost predicate PlanExact(h: HostFrame, p: Plan) {
    Sendable(h) &&
    match p
    case Skip => true
    case One(m, body) => m < |Frags(h)| && body == Frags(h)[m]
    case Two(even, odd, evenBody, oddBody) =>
      even < |Frags(h)| && odd < |Frags(h)| && evenBody == Frags(h)[even] && oddBody == Frags(h)[odd]
  }

  /** With only `m` of a group missing, the rebuilt body, cut to its length if last, is the host's fragment. */
  lemma SingleHonest(h: HostFrame, st: AsmState, g: nat, m: nat)
    requires |st.parts| == st.cnt
    requires Honest(h, st) && g < GroupCount(st.cnt) && g in st.p1 && Lo(g) <= m < Hi(g, st.cnt)
    requires forall i | Lo(g) <= i < Hi(g, st.cnt) && i !in {m} :: st.parts[i].Some?
    ensures Sendable(h) && |Frags(h)| == st.cnt
    ensures m != st.cnt - 1 ==> RebuildOne(st, g, m) == Frags(h)[m]
    ensures m == st.cnt - 1 && FinalLength(st).Some? ==>
      Truncate(RebuildOne(st, g, m), FinalLength(st).value) == Frags(h)[m]
  {
    hide Row, Split, Sendable, Truncate, FinalLength, Accumulate, HeldBut, Honest;
    HonestRows(h, st, g);
    HeldButHoles(h, st, Lo(g), Hi(g, st.cnt), Members(Lo(g), Hi(g, st.cnt)), {m});
    FinalLengthExact(h, st);
    RebuildOneExact(h, st.parts, g, m);
  }

  lemma PlanTwoShape(st: AsmState, g: nat)
    requires |st.parts| == st.cnt && g < GroupCount(st.cnt) && PlanGroup(st, g).Two?
    ensures var p, lo, hi := PlanGroup(st, g), Lo(g), Hi(g, st.cnt);
      && lo <= p.even < hi && (p.even - lo) % 2 == 0 && p.even < st.cnt - 1
      && lo <= p.odd < hi && (p.odd - lo) % 2 == 1 && p.odd < st.cnt - 1
      && g in st.p1 && g in st.p2
      && (forall i | lo <= i < hi && i != p.even && i != p.odd :: st.parts[i].Some?)
      && p.evenBody == RebuildEven(st, g, p.even) && p.oddBody == RebuildOdd(st, g, p.odd)
  {
    hide PlanGroup, RebuildEven, RebuildOdd;
  }

  /** With only an even and an odd member of a group missing, both rebuilt bodies are the host's fragments. */
  lemma PairHonest(h: HostFrame, st: AsmState, g: nat, even: nat, odd: nat)
    requires |st.parts| == st.cnt
    requires Honest(h, st) && g < GroupCount(st.cnt) && g in st.p1 && g in st.p2
    requires Lo(g) <= even < Hi(g, st.cnt) && (even - Lo(g)) % 2 == 0 && even < st.cnt - 1
    requires Lo(g) <= odd < Hi(g, st.cnt) && (odd - Lo(g)) % 2 == 1 && odd < st.cnt - 1
    requires forall i | Lo(g) <= i < Hi(g, st.cnt) && i != even && i != odd :: st.parts[i].Some?
    ensures Sendable(h) && |Frags(h)| == st.cnt
    ensures RebuildEven(st, g, even) == Frags(h)[even] && RebuildOdd(st, g, odd) == Frags(h)[odd]
  {
    hide Row, Split, Sendable, Accumulate, XorBytes, HeldBut, Evens, Odds, Honest;
    HonestRows(h, st, g);
    HalfHeld(h, st, Lo(g), Hi(g, st.cnt), even, odd);
    RebuildOddExact(h, st.parts, g, odd);
    RebuildEvenExact(h, st.parts, g, even);
  }

  lemma PlanHonest(h: HostFrame, st: AsmState, g: nat)
    requires |st.parts| == st.cnt
    requires Honest(h, st) && g < GroupCount(st.cnt)
    ensures PlanExact(h, PlanGroup(st, g))
  {
    hide PlanGroup, Split, Sendable, RebuildOne, RebuildEven, RebuildOdd, Truncate, FinalLength, Honest;
    HonestRows(h, st, g);
    match PlanGroup(st, g)
    case Skip =>
    case One(m, body) =>
      PlanOneShape(st, g);
      SingleHonest(h, st, g, m);
    case Two(even, odd, evenBody, oddBody) =>
      PlanTwoShape(st, g);
      PairHonest(h, st, g, even, odd);
  }

  lemma FillHonest(h: HostFrame, st: AsmState, m: nat)
    requires Honest(h, st) && m < st.cnt
    ensures Honest(h, Fill(st, m, Frags(h)[m]))
  {
    hide Row, Split, Sendable;
  }

  /** One group's repair stores only what the host sent. */
  lemma RepairGroupHonest(h: HostFrame, st: AsmState, g: nat)
    requires |st.parts| == st.cnt
    requires Honest(h, st) && g < GroupCount(st.cnt)
    ensures Honest(h, RepairGroup(st, g))
  {
    hide PlanGroup, Row, Split;
    match PlanGroup(st, g)
    case Skip =>
    case One(m, body) =>
      PlanHonest(h, st, g);
      FillHonest(h, st, m);
    case Two(even, odd, evenBody, oddBody) =>
      PlanHonest(h, st, g);
      FillHonest(h, st, even);
      FillHonest(h, Fill(st, even, evenBody), odd);
  }

  lemma {:induction false} RepairToHonest(h: HostFrame, st: AsmState, n: nat)
    requires |st.parts| == st.cnt
    requires Honest(h, st) && n <= GroupCount(st.cnt)
    ensures Honest(h, RepairTo(st, n))
  {
    hide RepairGroup, Honest;
    if n > 0 {
      RepairToHonest(h, st, n - 1);
      RepairGroupHonest(h, RepairTo(st, n - 1), n - 1);
    }
  }
}
