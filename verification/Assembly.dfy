/**
 One frame being reassembled in the browser: its state, what one datagram does to
 it, and the parity repair pass, all as functions of the state. `V4Assembly` in
 AssemblyObject.dfy is the object that does this in place.
 */
module Assembly {
  import opened Bytes
  import opened Parity
  import opened Wire

  datatype AsmState = AsmState(
    cnt: nat,
    parts: seq<Option<bytes>>,
    got: nat,
    captureUs: nat,
    key: bool,
    atMs: real,
    nacks: nat,
    lastNackMs: real,
    p1: map<nat, bytes>,
    p2: map<nat, bytes>,
    total: Option<nat>)

  function NewState(f: WtFragment, nowMs: real): (st: AsmState)
    ensures |st.parts| == st.cnt == f.cnt
  {
    AsmState(f.cnt, seq(f.cnt, _ => None), 0, f.captureUs, f.key, nowMs, 0, 0.0, map[], map[], None)
  }

  function CountPresent(parts: seq<Option<bytes>>): nat {
    if |parts| == 0 then 0
    else CountPresent(parts[..|parts| - 1]) + (if parts[|parts| - 1].Some? then 1 else 0)
  }

  lemma {:induction false} CountFull(parts: seq<Option<bytes>>)
    ensures CountPresent(parts) <= |parts|
    ensures CountPresent(parts) == |parts| <==> forall i | 0 <= i < |parts| :: parts[i].Some?
  {
    if |parts| > 0 {
      var rest := parts[..|parts| - 1];
      CountFull(rest);
      assert forall i | 0 <= i < |rest| :: rest[i] == parts[i];
    }
  }

  predicate WellFormed(st: AsmState) {
    |st.parts| == st.cnt && st.got == CountPresent(st.parts)
  }

  lemma {:induction false} CountFill(parts: seq<Option<bytes>>, m: nat, b: bytes)
    requires m < |parts| && parts[m] == None
    ensures CountPresent(parts[m := Some(b)]) == CountPresent(parts) + 1
  {
    var filled := parts[m := Some(b)];
    var k := |parts| - 1;
    if m == k {
      assert filled[..k] == parts[..k];
    } else {
      CountFill(parts[..k], m, b);
      assert filled[..k] == parts[..k][m := Some(b)];
    }
  }

  lemma {:induction false} CountNone(parts: seq<Option<bytes>>)
    requires forall i | 0 <= i < |parts| :: parts[i].None?
    ensures CountPresent(parts) == 0
  {
    if |parts| > 0 {
      CountNone(parts[..|parts| - 1]);
    }
  }

  lemma NewWellFormed(f: WtFragment, nowMs: real)
    ensures WellFormed(NewState(f, nowMs))
  {
    CountNone(NewState(f, nowMs).parts);
  }

  // ---- the repair pass -----------------------------------------------------

  function Known(parts: seq<Option<bytes>>): (k: seq<bytes>)
    ensures |k| == |parts|
    ensures forall i | 0 <= i < |parts| :: k[i] == if parts[i].Some? then parts[i].value else []
  {
    seq(|parts|, i requires 0 <= i < |parts| => if parts[i].Some? then parts[i].value else [])
  }

  /** Missing indices of `[lo, hi)`, ascending. */
  function Holes(parts: seq<Option<bytes>>, lo: nat, hi: nat): (s: seq<nat>)
    requires lo <= hi <= |parts|
    ensures forall a | 0 <= a < |s| :: lo <= s[a] < hi && parts[s[a]] == None
    ensures forall a, b | 0 <= a < b < |s| :: s[a] < s[b]
    ensures forall i | lo <= i < hi && parts[i] == None :: i in s
  {
    if lo == hi then []
    else
      var rest := Holes(parts, lo, hi - 1);
      if parts[hi - 1].None? then rest + [hi - 1] else rest
  }

  /** `acc` with the present members of `sel` in `[lo, hi)` XORed in; bytes past its end fall away. */
  function Accumulate(acc: bytes, parts: seq<Option<bytes>>, lo: nat, hi: nat, sel: set<nat>): (r: bytes)
    requires lo <= hi <= |parts|
    ensures |r| == |acc|
    ensures forall j | 0 <= j < |acc| :: r[j] == acc[j] ^ Column(Known(parts), lo, hi, sel, j)
  {
    seq(|acc|, j requires 0 <= j < |acc| => acc[j] ^ Column(Known(parts), lo, hi, sel, j))
  }

  function XorBytes(a: bytes, b: bytes): (r: bytes)
    ensures |r| == |a|
    ensures forall j | 0 <= j < |a| :: r[j] == a[j] ^ ByteAt(b, j)
  {
    seq(|a|, j requires 0 <= j < |a| => a[j] ^ ByteAt(b, j))
  }

  function FirstPresent(parts: seq<Option<bytes>>, n: nat): (r: Option<nat>)
    requires n <= |parts|
    ensures r.Some? ==> r.value < n && parts[r.value].Some?
    ensures r.None? ==> forall i | 0 <= i < n :: parts[i].None?
  {
    if n == 0 then None
    else
      var r := FirstPresent(parts, n - 1);
      if r.Some? then r else if parts[n - 1].Some? then Some(n - 1) else None
  }

  function FinalLength(st: AsmState): Option<nat>
    requires |st.parts| == st.cnt
  {
    if st.total.None? then None
    else if st.cnt == 1 then st.total
    else if st.cnt == 0 then None
    else
      var i := FirstPresent(st.parts, st.cnt - 1);
      if i.None? then None
      else
        var full := |st.parts[i.value].value|;
        var len := st.total.value - (st.cnt - 1) * full;
        if 0 < len <= full then Some(len) else None
  }

  function Truncate(b: bytes, n: nat): bytes {
    if n <= |b| then b[..n] else b
  }

  function Fill(st: AsmState, m: nat, b: bytes): AsmState
    requires m < |st.parts|
  {
    st.(parts := st.parts[m := Some(b)], got := st.got + 1)
  }

  function RebuildOne(st: AsmState, g: nat, m: nat): bytes
    requires |st.parts| == st.cnt && g < GroupCount(st.cnt) && g in st.p1
  {
    var lo, hi := Lo(g), Hi(g, st.cnt);
    Accumulate(st.p1[g], st.parts, lo, hi, Members(lo, hi) - {m})
  }

  function RebuildOdd(st: AsmState, g: nat, odd: nat): bytes
    requires |st.parts| == st.cnt && g < GroupCount(st.cnt) && g in st.p2
  {
    var lo, hi := Lo(g), Hi(g, st.cnt);
    Accumulate(st.p2[g], st.parts, lo, hi, Odds(lo, hi) - {odd})
  }

  function RebuildEven(st: AsmState, g: nat, even: nat): bytes
    requires |st.parts| == st.cnt && g < GroupCount(st.cnt) && g in st.p1 && g in st.p2
  {
    var lo, hi := Lo(g), Hi(g, st.cnt);
    Accumulate(XorBytes(st.p1[g], st.p2[g]), st.parts, lo, hi, Evens(lo, hi) - {even})
  }

  /** What the pass does to one group: nothing, fill one hole, or fill an even and an odd one. */
  datatype Plan = Skip | One(m: nat, body: bytes) | Two(even: nat, odd: nat, evenBody: bytes, oddBody: bytes)

  function PlanGroup(st: AsmState, g: nat): (p: Plan)
    requires |st.parts| == st.cnt && g < GroupCount(st.cnt)
    ensures p.One? ==>
      && Lo(g) <= p.m < Hi(g, st.cnt) && st.parts[p.m].None? && g in st.p1
      && (forall i | Lo(g) <= i < Hi(g, st.cnt) && i != p.m :: st.parts[i].Some?)
      && (p.m != st.cnt - 1 ==> p.body == RebuildOne(st, g, p.m))
      && (p.m == st.cnt - 1 ==>
            && FinalLength(st).Some?
            && p.body == Truncate(RebuildOne(st, g, p.m), FinalLength(st).value))
    ensures p.Two? ==>
      && Lo(g) <= p.even < Hi(g, st.cnt) && (p.even - Lo(g)) % 2 == 0 && p.even != st.cnt - 1
      && Lo(g) <= p.odd < Hi(g, st.cnt) && (p.odd - Lo(g)) % 2 == 1 && p.odd != st.cnt - 1
      && st.parts[p.even].None? && st.parts[p.odd].None? && g in st.p1 && g in st.p2
      && (forall i | Lo(g) <= i < Hi(g, st.cnt) && i != p.even && i != p.odd :: st.parts[i].Some?)
      && p.evenBody == RebuildEven(st, g, p.even) && p.oddBody == RebuildOdd(st, g, p.odd)
  {
    var lo, hi := Lo(g), Hi(g, st.cnt);
    var holes := Holes(st.parts, lo, hi);
    if |holes| == 1 then
      var m := holes[0];
      if g !in st.p1 then Skip
      else if m == st.cnt - 1 then
        var len := FinalLength(st);
        if len.None? then Skip else One(m, Truncate(RebuildOne(st, g, m), len.value))
      else One(m, RebuildOne(st, g, m))
    else if |holes| == 2 && g in st.p1 && g in st.p2 then
      var a, b := holes[0], holes[1];
      var aOdd, bOdd := (a - lo) % 2 == 1, (b - lo) % 2 == 1;
      if aOdd == bOdd || a == st.cnt - 1 || b == st.cnt - 1 then Skip
      else
        var even, odd := if aOdd then b else a, if aOdd then a else b;
        Two(even, odd, RebuildEven(st, g, even), RebuildOdd(st, g, odd))
    else Skip
  }

  function RepairGroup(st: AsmState, g: nat): (r: AsmState)
    requires |st.parts| == st.cnt && g < GroupCount(st.cnt)
    ensures |r.parts| == r.cnt
    ensures r == st.(parts := r.parts, got := r.got)
  {
    match PlanGroup(st, g)
    case Skip => st
    case One(m, body) => Fill(st, m, body)
    case Two(even, odd, evenBody, oddBody) => Fill(Fill(st, even, evenBody), odd, oddBody)
  }

  /** The pass over the first `n` groups, in order. */
  function RepairTo(st: AsmState, n: nat): (r: AsmState)
    requires |st.parts| == st.cnt && n <= GroupCount(st.cnt)
    ensures |r.parts| == r.cnt
    ensures r == st.(parts := r.parts, got := r.got)
  {
    if n == 0 then st else RepairGroup(RepairTo(st, n - 1), n - 1)
  }

  function Repair(st: AsmState): (r: AsmState)
    requires |st.parts| == st.cnt
    ensures |r.parts| == r.cnt
    ensures r == st.(parts := r.parts, got := r.got)
  {
    RepairTo(st, GroupCount(st.cnt))
  }

  /** Nothing held is lost or overwritten. */
  predicate Extends(a: seq<Option<bytes>>, b: seq<Option<bytes>>) {
    && |a| == |b|
    && forall i | 0 <= i < |a| :: a[i].Some? ==> b[i] == a[i]
  }

  lemma RepairGroupWellFormed(st: AsmState, g: nat)
    requires WellFormed(st) && g < GroupCount(st.cnt)
    ensures WellFormed(RepairGroup(st, g))
    ensures Extends(st.parts, RepairGroup(st, g).parts)
  {
    hide PlanGroup, CountPresent;
    match PlanGroup(st, g)
    case Skip =>
    case One(m, body) =>
      CountFill(st.parts, m, body);
    case Two(even, odd, evenBody, oddBody) =>
      CountFill(st.parts, even, evenBody);
      CountFill(Fill(st, even, evenBody).parts, odd, oddBody);
  }

  lemma {:induction false} RepairToWellFormed(st: AsmState, n: nat)
    requires WellFormed(st) && n <= GroupCount(st.cnt)
    ensures WellFormed(RepairTo(st, n))
    ensures Extends(st.parts, RepairTo(st, n).parts)
  {
    hide PlanGroup, RepairGroup, CountPresent;
    if n > 0 {
      RepairToWellFormed(st, n - 1);
      RepairGroupWellFormed(RepairTo(st, n - 1), n - 1);
    }
  }

  // ---- one datagram ----------------------------------------------------------

  function TrailerTotal(payload: bytes): nat
    requires |payload| >= TRAILER
  {
    FromLe(payload[|payload| - TRAILER..])
  }

  /** The assembly after a datagram for it, or None where the datagram is dropped unread: a parity row too
      short for its trailer, an index out of range, a fragment already held. */
  function Absorb(st: AsmState, f: WtFragment): (r: Option<AsmState>)
    requires |st.parts| == st.cnt
    ensures r.Some? ==> |r.value.parts| == r.value.cnt
    ensures r.Some? ==> r.value == st.(parts := r.value.parts, got := r.value.got, p1 := r.value.p1, p2 := r.value.p2,
                                       total := r.value.total)
  {
    if f.parity != 0 then
      if |f.payload| < TRAILER then None
      else
        var row := f.payload[..|f.payload| - TRAILER];
        var timed := st.(total := Some(TrailerTotal(f.payload)));
        Some(Repair(if f.parity == 1 then timed.(p1 := st.p1[f.idx := row]) else timed.(p2 := st.p2[f.idx := row])))
    else if f.idx >= f.cnt || f.idx >= st.cnt || st.parts[f.idx].Some? then None
    else Some(Repair(Fill(st, f.idx, f.payload)))
  }

  /** What is dropped unread: a parity row without room for its trailer, a fragment whose index is not below its own
      count and the assembly's, and one already held. A row is filed by its number, every one above 1 as row 2. */
  lemma TakenExactly(st: AsmState, f: WtFragment)
    requires |st.parts| == st.cnt
    ensures Absorb(st, f).Some? <==>
      if f.parity == 0 then f.idx < f.cnt && f.idx < st.cnt && st.parts[f.idx].None? else |f.payload| >= 4
    ensures Absorb(st, f).Some? && f.parity > 0 ==>
      var t, row := Absorb(st, f).value, f.payload[..|f.payload| - 4];
      && t.p1 == (if f.parity == 1 then st.p1[f.idx := row] else st.p1)
      && t.p2 == (if f.parity == 1 then st.p2 else st.p2[f.idx := row])
  {
    hide Repair;
  }

  lemma AbsorbWellFormed(st: AsmState, f: WtFragment)
    requires WellFormed(st)
    ensures var r := Absorb(st, f);
      r.Some? ==> WellFormed(r.value) && Extends(st.parts, r.value.parts)
  {
    hide RepairTo, CountPresent, TrailerTotal;
    if Absorb(st, f).Some? {
      if f.parity != 0 {
        var row := f.payload[..|f.payload| - TRAILER];
        var timed := st.(total := Some(TrailerTotal(f.payload)));
        var filed := if f.parity == 1 then timed.(p1 := st.p1[f.idx := row]) else timed.(p2 := st.p2[f.idx := row]);
        RepairToWellFormed(filed, GroupCount(st.cnt));
      } else {
        CountFill(st.parts, f.idx, f.payload);
        RepairToWellFormed(Fill(st, f.idx, f.payload), GroupCount(st.cnt));
      }
    }
  }

  predicate Complete(st: AsmState) { st.got == st.cnt }

  function Payload(st: AsmState): bytes { Concat(Known(st.parts)) }
}
