/**
 Which fragments a frame has, as a function of the set of datagrams that reached it.
 `InClosure` says outright what eight-fragment groups two XOR rows can complete; one
 repair pass reaches exactly it, and so does every order of arrivals.
 */
module Confluence {
  import opened Parity
  import opened Assembly
  import opened RepairSound

  // ---- the code's reach, stated on sets ----------------------------------------

  /** Data indices, row-1 groups and row-2 groups that arrived. */
  datatype Arrived = Arrived(data: set<nat>, rows1: set<nat>, rows2: set<nat>)

  predicate Covered(d: set<nat>, lo: nat, hi: nat, skip: set<nat>) {
    forall i | lo <= i < hi && i !in skip :: i in d
  }

  /** The final fragment's length follows from the frame's length once any full-sized fragment is held. */
  predicate LengthKnown(cnt: nat, d: set<nat>) {
    cnt == 1 || exists i | 0 <= i < cnt - 1 :: i in d
  }

  /** At most one member missing, and row 1. */
  predicate OneShort(cnt: nat, a: Arrived, g: nat) {
    && g in a.rows1
    && exists m | Lo(g) <= m < Hi(g, cnt) ::
         Covered(a.data, Lo(g), Hi(g, cnt), {m}) && (m == cnt - 1 ==> LengthKnown(cnt, a.data))
  }

  /** At most two missing, one at an even and one at an odd offset, neither the frame's last, and both rows. */
  predicate TwoShort(cnt: nat, a: Arrived, g: nat) {
    && g in a.rows1 && g in a.rows2
    && exists e, o | Lo(g) <= e < Hi(g, cnt) && Lo(g) <= o < Hi(g, cnt) ::
         && (e - Lo(g)) % 2 == 0 && (o - Lo(g)) % 2 == 1
         && e != cnt - 1 && o != cnt - 1
         && Covered(a.data, Lo(g), Hi(g, cnt), {e, o})
  }

  predicate Whole(cnt: nat, a: Arrived, g: nat) {
    Covered(a.data, Lo(g), Hi(g, cnt), {})
  }

  predicate Reachable(cnt: nat, a: Arrived, g: nat) {
    Whole(cnt, a, g) || OneShort(cnt, a, g) || TwoShort(cnt, a, g)
  }

  ghost predicate InClosure(cnt: nat, a: Arrived, i: nat) {
    i < cnt && (i in a.data || Reachable(cnt, a, i / 8))
  }

  ghost predicate ClosureFull(cnt: nat, a: Arrived) {
    forall i | 0 <= i < cnt :: InClosure(cnt, a, i)
  }

  // ---- one pass reaches it ---------------------------------------------------------

  function PresentSet(st: AsmState): (s: set<nat>)
    ensures forall i :: i in s <==> 0 <= i < |st.parts| && st.parts[i].Some?
  {
    set i | i in Members(0, |st.parts|) && st.parts[i].Some?
  }

  function Held(st: AsmState): Arrived {
    Arrived(PresentSet(st), st.p1.Keys, st.p2.Keys)
  }

  /** `holes` lists what `d` lacks of `[lo, hi)`, ascending. */
  ghost predicate ListsHoles(d: set<nat>, lo: nat, hi: nat, holes: seq<nat>) {
    && (forall k | 0 <= k < |holes| :: lo <= holes[k] < hi && holes[k] !in d)
    && (forall j, k | 0 <= j < k < |holes| :: holes[j] < holes[k])
    && (forall i | lo <= i < hi && i !in d :: i in holes)
  }

  lemma Ascending(d: set<nat>, lo: nat, hi: nat, holes: seq<nat>)
    requires ListsHoles(d, lo, hi, holes)
    ensures |holes| > 1 ==> holes[0] < holes[1]
    ensures |holes| > 2 ==> holes[0] < holes[1] < holes[2]
  {}

  lemma OneShortHoles(cnt: nat, a: Arrived, g: nat, holes: seq<nat>)
    requires ListsHoles(a.data, Lo(g), Hi(g, cnt), holes) && |holes| > 0
    requires OneShort(cnt, a, g)
    ensures |holes| == 1 && (holes[0] == cnt - 1 ==> LengthKnown(cnt, a.data))
  {
    hide LengthKnown;
    var lo, hi := Lo(g), Hi(g, cnt);
    var m :| lo <= m < hi && Covered(a.data, lo, hi, {m}) && (m == cnt - 1 ==> LengthKnown(cnt, a.data));
    assert forall k | 0 <= k < |holes| :: holes[k] == m;
    Ascending(a.data, lo, hi, holes);
  }

  lemma TwoShortHoles(cnt: nat, a: Arrived, g: nat, holes: seq<nat>)
    requires ListsHoles(a.data, Lo(g), Hi(g, cnt), holes) && |holes| > 0
    requires TwoShort(cnt, a, g)
    ensures |holes| <= 2 && holes[0] != cnt - 1
    ensures |holes| == 2 ==> holes[1] != cnt - 1 && (holes[0] - Lo(g)) % 2 != (holes[1] - Lo(g)) % 2
  {
    var lo, hi := Lo(g), Hi(g, cnt);
    var e, o :| lo <= e < hi && lo <= o < hi && (e - lo) % 2 == 0 && (o - lo) % 2 == 1
      && e != cnt - 1 && o != cnt - 1 && Covered(a.data, lo, hi, {e, o});
    assert forall k | 0 <= k < |holes| :: holes[k] == e || holes[k] == o;
    Ascending(a.data, lo, hi, holes);
  }

  lemma HolesListed(st: AsmState, lo: nat, hi: nat)
    requires lo <= hi <= |st.parts|
    ensures ListsHoles(PresentSet(st), lo, hi, Holes(st.parts, lo, hi))
  {}

  lemma LengthKnownIs(h: HostFrame, st: AsmState)
    requires |st.parts| == st.cnt && Honest(h, st) && (exists g :: g in st.p1)
    ensures LengthKnown(st.cnt, PresentSet(st)) <==> FinalLength(st).Some?
  {
    FinalLengthExact(h, st);
  }

  lemma OneReaches(h: HostFrame, st: AsmState, g: nat)
    requires |st.parts| == st.cnt
    requires Honest(h, st) && g < GroupCount(st.cnt) && PlanGroup(st, g).One?
    ensures OneShort(st.cnt, Held(st), g) && !Whole(st.cnt, Held(st), g)
  {
    hide PlanGroup, FinalLength, LengthKnown, RebuildOne, RebuildEven, RebuildOdd, Truncate, Honest, PresentSet;
    var m, d := PlanGroup(st, g).m, PresentSet(st);
    LengthKnownIs(h, st);
    assert m !in d;
    assert Covered(d, Lo(g), Hi(g, st.cnt), {m});
  }

  lemma TwoReaches(st: AsmState, g: nat)
    requires |st.parts| == st.cnt
    requires g < GroupCount(st.cnt) && PlanGroup(st, g).Two?
    ensures TwoShort(st.cnt, Held(st), g) && !Whole(st.cnt, Held(st), g)
  {
    hide PlanGroup, FinalLength, RebuildOne, RebuildEven, RebuildOdd, Truncate, PresentSet;
    var p, d := PlanGroup(st, g), PresentSet(st);
    assert p.even !in d;
    assert Covered(d, Lo(g), Hi(g, st.cnt), {p.even, p.odd});
  }

  lemma SkipOnly(h: HostFrame, st: AsmState, g: nat)
    requires |st.parts| == st.cnt
    requires Honest(h, st) && g < GroupCount(st.cnt) && PlanGroup(st, g).Skip?
    ensures Reachable(st.cnt, Held(st), g) ==> Whole(st.cnt, Held(st), g)
  {
    hide FinalLength, LengthKnown, RebuildOne, RebuildEven, RebuildOdd, Truncate, Honest, PresentSet, Holes,
         OneShort, TwoShort, ListsHoles;
    var lo, hi := Lo(g), Hi(g, st.cnt);
    var holes := Holes(st.parts, lo, hi);
    HolesListed(st, lo, hi);
    if |holes| == 0 {
      NoHolesWhole(st.cnt, Held(st), g);
    } else if OneShort(st.cnt, Held(st), g) {
      OneShortHoles(st.cnt, Held(st), g, holes);
      NeedsRow1(st.cnt, Held(st), g);
      LengthKnownIs(h, st);
    } else if TwoShort(st.cnt, Held(st), g) {
      TwoShortHoles(st.cnt, Held(st), g, holes);
      NeedsRow1(st.cnt, Held(st), g);
    }
  }

  lemma NoHolesWhole(cnt: nat, a: Arrived, g: nat)
    requires ListsHoles(a.data, Lo(g), Hi(g, cnt), [])
    ensures Whole(cnt, a, g)
  {}

  lemma NeedsRow1(cnt: nat, a: Arrived, g: nat)
    ensures OneShort(cnt, a, g) ==> g in a.rows1
    ensures TwoShort(cnt, a, g) ==> g in a.rows1 && g in a.rows2
  {}

  predicate PresentAt(st: AsmState, i: nat) {
    i < |st.parts| && st.parts[i].Some?
  }

  lemma RepairGroupPresence(h: HostFrame, st: AsmState, g: nat, i: nat)
    requires |st.parts| == st.cnt
    requires Honest(h, st) && g < GroupCount(st.cnt)
    ensures PresentAt(RepairGroup(st, g), i) <==>
      i < st.cnt && (PresentAt(st, i) || (i / 8 == g && Reachable(st.cnt, Held(st), g)))
  {
    hide PlanGroup, Honest, PresentSet, OneShort, TwoShort, RebuildOne, RebuildEven, RebuildOdd;
    match PlanGroup(st, g)
    case Skip =>
      SkipOnly(h, st, g);
      WholeMeans(st, g, i);
    case One(m, body) =>
      OneReaches(h, st, g);
    case Two(even, odd, evenBody, oddBody) =>
      TwoReaches(st, g);
  }

  lemma WholeMeans(st: AsmState, g: nat, i: nat)
    requires |st.parts| == st.cnt
    ensures i / 8 == g && i < st.cnt && Whole(st.cnt, Held(st), g) ==> PresentAt(st, i)
  {}

  // ---- closure algebra ---------------------------------------------------------------

  predicate Within(a: Arrived, b: Arrived) {
    a.data <= b.data && a.rows1 <= b.rows1 && a.rows2 <= b.rows2
  }

  lemma OneShortGrows(cnt: nat, a: Arrived, b: Arrived, g: nat)
    requires Within(a, b) && OneShort(cnt, a, g)
    ensures OneShort(cnt, b, g)
  {
    var lo, hi := Lo(g), Hi(g, cnt);
    var m :| lo <= m < hi && Covered(a.data, lo, hi, {m}) && (m == cnt - 1 ==> LengthKnown(cnt, a.data));
    assert Covered(b.data, lo, hi, {m});
    if m == cnt - 1 && cnt != 1 {
      var i :| 0 <= i < cnt - 1 && i in a.data;
      assert i in b.data;
    }
  }

  lemma TwoShortGrows(cnt: nat, a: Arrived, b: Arrived, g: nat)
    requires Within(a, b) && TwoShort(cnt, a, g)
    ensures TwoShort(cnt, b, g)
  {
    var lo, hi := Lo(g), Hi(g, cnt);
    var e, o :| lo <= e < hi && lo <= o < hi && (e - lo) % 2 == 0 && (o - lo) % 2 == 1
      && e != cnt - 1 && o != cnt - 1 && Covered(a.data, lo, hi, {e, o});
    assert Covered(b.data, lo, hi, {e, o});
  }

  /** More datagrams never complete less. */
  lemma ReachableGrows(cnt: nat, a: Arrived, b: Arrived, g: nat)
    requires Within(a, b) && Reachable(cnt, a, g)
    ensures Reachable(cnt, b, g)
  {
    hide OneShort, TwoShort;
    if OneShort(cnt, a, g) {
      OneShortGrows(cnt, a, b, g);
    } else if TwoShort(cnt, a, g) {
      TwoShortGrows(cnt, a, b, g);
    }
  }

  /** A full group of eight cannot be completed from nothing. */
  lemma ReachableHasMember(cnt: nat, a: Arrived, g: nat)
    requires Lo(g) + 8 == Hi(g, cnt) && Reachable(cnt, a, g)
    ensures exists i | Lo(g) <= i < Hi(g, cnt) :: i in a.data
  {
    var lo, hi := Lo(g), Hi(g, cnt);
    if Whole(cnt, a, g) {
      assert lo in a.data;
    } else if OneShort(cnt, a, g) {
      var m :| lo <= m < hi && Covered(a.data, lo, hi, {m});
      assert (if m == lo then lo + 1 else lo) in a.data;
    } else {
      var e, o :| lo <= e < hi && lo <= o < hi && Covered(a.data, lo, hi, {e, o});
      assert lo in a.data || lo + 1 in a.data || lo + 2 in a.data;
    }
  }

  /** `b` holds what `a` holds and, of what `a` reaches, whatever it likes. */
  ghost predicate Between(cnt: nat, a: Arrived, b: Arrived) {
    && Within(a, b) && a.rows1 == b.rows1 && a.rows2 == b.rows2
    && forall i | i in b.data :: i < cnt && (i in a.data || Reachable(cnt, a, i / 8))
  }

  /** Within a group `a` does not reach, `b` has nothing more than `a`. */
  lemma SameUnreached(cnt: nat, a: Arrived, b: Arrived, g: nat, i: nat)
    requires Between(cnt, a, b) && !Reachable(cnt, a, g)
    requires Lo(g) <= i < Hi(g, cnt) && i in b.data
    ensures i in a.data
  {
    assert i / 8 == g;
  }

  lemma LengthKnownBack(cnt: nat, a: Arrived, b: Arrived, g: nat)
    requires Between(cnt, a, b) && !Reachable(cnt, a, g)
    requires Lo(g) <= cnt - 1 < Hi(g, cnt) && LengthKnown(cnt, b.data)
    ensures LengthKnown(cnt, a.data)
  {
    hide Reachable;
    if cnt != 1 {
      var i :| 0 <= i < cnt - 1 && i in b.data;
      if i !in a.data {
        var k := i / 8;
        assert k < g;
        ReachableHasMember(cnt, a, k);
        var j :| Lo(k) <= j < Hi(k, cnt) && j in a.data;
        assert j < cnt - 1;
      }
    }
  }

  lemma ReachableLocal(cnt: nat, a: Arrived, b: Arrived, g: nat)
    requires a.rows1 == b.rows1 && a.rows2 == b.rows2
    requires forall i | Lo(g) <= i < Hi(g, cnt) && i in b.data :: i in a.data
    requires Lo(g) <= cnt - 1 < Hi(g, cnt) && LengthKnown(cnt, b.data) ==> LengthKnown(cnt, a.data)
    requires Reachable(cnt, b, g)
    ensures Reachable(cnt, a, g)
  {
    hide LengthKnown;
    var lo, hi := Lo(g), Hi(g, cnt);
    if OneShort(cnt, b, g) {
      var m :| lo <= m < hi && Covered(b.data, lo, hi, {m}) && (m == cnt - 1 ==> LengthKnown(cnt, b.data));
      assert Covered(a.data, lo, hi, {m});
    } else if TwoShort(cnt, b, g) {
      var e, o :| lo <= e < hi && lo <= o < hi && (e - lo) % 2 == 0 && (o - lo) % 2 == 1
        && e != cnt - 1 && o != cnt - 1 && Covered(b.data, lo, hi, {e, o});
      assert Covered(a.data, lo, hi, {e, o});
    }
  }

  /** What the pass adds makes nothing further reachable: the closure is closed. */
  lemma ReachableBack(cnt: nat, a: Arrived, b: Arrived, g: nat)
    requires Between(cnt, a, b) && Reachable(cnt, b, g)
    ensures Reachable(cnt, a, g)
  {
    hide Reachable, LengthKnown;
    if !Reachable(cnt, a, g) {
      forall i | Lo(g) <= i < Hi(g, cnt) && i in b.data ensures i in a.data { SameUnreached(cnt, a, b, g, i); }
      if Lo(g) <= cnt - 1 < Hi(g, cnt) && LengthKnown(cnt, b.data) {
        LengthKnownBack(cnt, a, b, g);
      }
      ReachableLocal(cnt, a, b, g);
    }
  }

  /** One pass over the groups holds exactly what the code can reach from what was held. */
  lemma {:induction false} RepairToPresence(h: HostFrame, st: AsmState, n: nat)
    requires |st.parts| == st.cnt
    requires Honest(h, st) && n <= GroupCount(st.cnt)
    ensures forall i: nat :: PresentAt(RepairTo(st, n), i) <==>
      i < st.cnt && (PresentAt(st, i) || (i / 8 < n && Reachable(st.cnt, Held(st), i / 8)))
  {
    hide RepairGroup, Honest, Reachable;
    if n > 0 {
      var mid := RepairTo(st, n - 1);
      RepairToPresence(h, st, n - 1);
      RepairToHonest(h, st, n - 1);
      MidReach(st, mid, n - 1);
      forall i: nat
        ensures PresentAt(RepairTo(st, n), i) <==>
          i < st.cnt && (PresentAt(st, i) || (i / 8 < n && Reachable(st.cnt, Held(st), i / 8)))
      {
        RepairGroupPresence(h, mid, n - 1, i);
      }
    }
  }

  lemma MidReach(st: AsmState, mid: AsmState, g: nat)
    requires mid == st.(parts := mid.parts, got := mid.got) && |mid.parts| == |st.parts| == st.cnt
    requires forall i: nat :: PresentAt(mid, i) <==>
      i < st.cnt && (PresentAt(st, i) || (i / 8 < g && Reachable(st.cnt, Held(st), i / 8)))
    ensures Reachable(st.cnt, Held(mid), g) <==> Reachable(st.cnt, Held(st), g)
  {
    hide Reachable;
    forall i | i in PresentSet(st) ensures i in PresentSet(mid) { assert PresentAt(st, i); assert PresentAt(mid, i); }
    forall i | i in PresentSet(mid)
      ensures i < st.cnt && (i in PresentSet(st) || Reachable(st.cnt, Held(st), i / 8))
    {
      assert PresentAt(mid, i);
    }
    if Reachable(st.cnt, Held(mid), g) {
      ReachableBack(st.cnt, Held(st), Held(mid), g);
    }
    if Reachable(st.cnt, Held(st), g) {
      ReachableGrows(st.cnt, Held(st), Held(mid), g);
    }
  }

  /** `st` holds exactly the closure of `a`. */
  ghost predicate Closes(st: AsmState, a: Arrived) {
    && st.p1.Keys == a.rows1 && st.p2.Keys == a.rows2
    && forall i: nat :: PresentAt(st, i) <==> InClosure(st.cnt, a, i)
  }

  /** If `st` holds everything of `a` and nothing beyond its closure, one pass brings it to the closure. */
  lemma RepairCloses(h: HostFrame, st: AsmState, a: Arrived)
    requires |st.parts| == st.cnt && Honest(h, st)
    requires st.p1.Keys == a.rows1 && st.p2.Keys == a.rows2
    requires forall i | i in a.data :: PresentAt(st, i)
    requires forall i: nat | PresentAt(st, i) :: InClosure(st.cnt, a, i)
    ensures Closes(Repair(st), a)
  {
    hide Honest, Reachable;
    var b := Held(st);
    RepairToPresence(h, st, GroupCount(st.cnt));
    assert Within(a, b);
    forall i | i in b.data ensures i < st.cnt && (i in a.data || Reachable(st.cnt, a, i / 8)) {
      assert PresentAt(st, i);
    }
    assert Between(st.cnt, a, b);
    forall i: nat ensures PresentAt(Repair(st), i) <==> InClosure(st.cnt, a, i) {
      if i < st.cnt && Reachable(st.cnt, b, i / 8) {
        ReachableBack(st.cnt, a, b, i / 8);
      }
      if i < st.cnt && Reachable(st.cnt, a, i / 8) {
        ReachableGrows(st.cnt, a, b, i / 8);
      }
    }
  }
}
