/**
 The re-send rounds of one assembly: what a round asks for, and which damaged groups the
 four rounds an assembly has can reach.
 */
module Rounds {
  import opened Arith
  import opened Bytes
  import opened InsertionOrder
  import opened Parity
  import opened Assembly
  import opened FrameTable

  // ---- one round ---------------------------------------------------------------------

  /** The visits of a round are to different groups. */
  lemma VisitsDiffer(st: AsmState, a: nat, b: nat)
    requires a < b < GroupCount(st.cnt)
    ensures GroupAt(st, a) != GroupAt(st, b)
  {
    ModShift(a, st.nacks, GroupCount(st.cnt));
    ModShift(b, st.nacks, GroupCount(st.cnt));
  }

  /** Every group is visited. */
  lemma VisitOf(st: AsmState, g: nat) returns (v: nat)
    requires g < GroupCount(st.cnt)
    ensures v < GroupCount(st.cnt) && GroupAt(st, v) == g
  {
    var n := GroupCount(st.cnt);
    var k := st.nacks % n;
    v := if g >= k then g - k else g - k + n;
    ModShift(v, st.nacks, n);
  }

  ghost predicate InGroup(st: AsmState, g: nat, idx: nat) {
    Lo(g) <= idx < Hi(g, st.cnt)
  }

  lemma GroupOf(st: AsmState, g: nat, idx: nat)
    requires InGroup(st, g, idx)
    ensures idx / 8 == g
  {}

  ghost predicate Asked(st: AsmState, v: nat, idxs: seq<nat>) {
    v < GroupCount(st.cnt) && exists k :: 0 <= k < |idxs| && InGroup(st, GroupAt(st, v), idxs[k])
  }

  /** What a visit from `g` on asks for. */
  ghost predicate FromVisit(st: AsmState, g: nat, idx: nat) {
    && |st.parts| == st.cnt
    && exists v :: g <= v < GroupCount(st.cnt) && Request(st, GroupAt(st, v)) == Some(idx)
  }

  ghost predicate FromVisits(st: AsmState, g: nat, idxs: seq<nat>) {
    forall k | 0 <= k < |idxs| :: FromVisit(st, g, idxs[k])
  }

  ghost predicate DistinctGroups(idxs: seq<nat>) {
    forall j, k | 0 <= j < k < |idxs| :: idxs[j] / 8 != idxs[k] / 8
  }

  lemma {:induction false} RoundVisits(st: AsmState, g: nat, budget: nat)
    requires |st.parts| == st.cnt
    ensures FromVisits(st, g, Round(st, g, budget))
    ensures DistinctGroups(Round(st, g, budget))
    decreases GroupCount(st.cnt) - g
  {
    hide Request, GroupAt;
    if g < GroupCount(st.cnt) && budget > 0 {
      var hole := Request(st, GroupAt(st, g));
      if hole.None? {
        RoundVisits(st, g + 1, budget);
        AllLater(st, g, Round(st, g + 1, budget));
      } else {
        var rest := Round(st, g + 1, budget - 1);
        RoundVisits(st, g + 1, budget - 1);
        FirstVisit(st, g, hole.value, rest);
      }
    }
  }

  lemma Later(st: AsmState, g: nat, idx: nat)
    requires FromVisit(st, g + 1, idx)
    ensures FromVisit(st, g, idx)
  {
    hide Request;
    var v :| g + 1 <= v < GroupCount(st.cnt) && Request(st, GroupAt(st, v)) == Some(idx);
  }

  lemma AllLater(st: AsmState, g: nat, idxs: seq<nat>)
    requires FromVisits(st, g + 1, idxs)
    ensures FromVisits(st, g, idxs)
  {
    hide FromVisit;
    forall k | 0 <= k < |idxs| ensures FromVisit(st, g, idxs[k]) { Later(st, g, idxs[k]); }
  }

  lemma FirstVisit(st: AsmState, g: nat, idx: nat, rest: seq<nat>)
    requires |st.parts| == st.cnt && g < GroupCount(st.cnt) && Request(st, GroupAt(st, g)) == Some(idx)
    requires FromVisits(st, g + 1, rest) && DistinctGroups(rest)
    ensures FromVisits(st, g, [idx] + rest) && DistinctGroups([idx] + rest)
  {
    hide GroupAt, Request;
    var all := [idx] + rest;
    AllLater(st, g, rest);
    assert FromVisit(st, g, idx);
    forall k | 0 <= k < |all| ensures FromVisit(st, g, all[k]) {
      if k > 0 { assert all[k] == rest[k - 1]; }
    }
    forall j, k | 0 <= j < k < |all| ensures all[j] / 8 != all[k] / 8 {
      assert all[k] == rest[k - 1];
      if j == 0 {
        assert FromVisit(st, g + 1, rest[k - 1]);
        var v :| g + 1 <= v < GroupCount(st.cnt) && Request(st, GroupAt(st, v)) == Some(rest[k - 1]);
        VisitsDiffer(st, g, v);
        GroupOf(st, GroupAt(st, g), idx);
        GroupOf(st, GroupAt(st, v), rest[k - 1]);
      } else {
        assert all[j] == rest[j - 1];
      }
    }
  }

  /** Within its budget a round skips no damaged group. */
  lemma {:induction false} RoundCovers(st: AsmState, g: nat, budget: nat, v: nat)
    requires |st.parts| == st.cnt && g <= v < GroupCount(st.cnt)
    requires |Round(st, g, budget)| < budget && Request(st, GroupAt(st, v)).Some?
    ensures Asked(st, v, Round(st, g, budget))
    decreases GroupCount(st.cnt) - g
  {
    hide Request, GroupAt;
    var idxs := Round(st, g, budget);
    var hole := Request(st, GroupAt(st, g));
    if v == g {
      assert InGroup(st, GroupAt(st, v), idxs[0]);
    } else if hole.None? {
      RoundCovers(st, g + 1, budget, v);
    } else {
      var rest := Round(st, g + 1, budget - 1);
      RoundCovers(st, g + 1, budget - 1, v);
      var k :| 0 <= k < |rest| && InGroup(st, GroupAt(st, v), rest[k]);
      assert idxs[k + 1] == rest[k];
    }
  }

  /**
   One round: at most eight requests, for fragments then missing, no two in one group; and with room to spare
   there is one for every group that has a hole.
   */
  lemma RoundIsUseful(st: AsmState)
    requires |st.parts| == st.cnt
    ensures var idxs := Round(st, 0, MAX_REQUESTS);
      && |idxs| <= 8
      && (forall k | 0 <= k < |idxs| :: idxs[k] < st.cnt && st.parts[idxs[k]].None?)
      && DistinctGroups(idxs)
      && (|idxs| < 8 ==>
            forall i | 0 <= i < st.cnt && st.parts[i].None? :: exists k :: 0 <= k < |idxs| && idxs[k] / 8 == i / 8)
  {
    hide Request, GroupAt;
    var idxs := Round(st, 0, MAX_REQUESTS);
    RoundVisits(st, 0, MAX_REQUESTS);
    forall k | 0 <= k < |idxs| ensures idxs[k] < st.cnt && st.parts[idxs[k]].None? { assert FromVisit(st, 0, idxs[k]); }
    if |idxs| < 8 {
      forall i | 0 <= i < st.cnt && st.parts[i].None?
        ensures exists k :: 0 <= k < |idxs| && idxs[k] / 8 == i / 8
      {
        var v := VisitOf(st, i / 8);
        assert Lo(i / 8) <= i < Hi(i / 8, st.cnt);
        RoundCovers(st, 0, MAX_REQUESTS, v);
        var k :| 0 <= k < |idxs| && InGroup(st, GroupAt(st, v), idxs[k]);
      }
    }
  }

  predicate ManyHoles(st: AsmState, g: nat)
    requires |st.parts| == st.cnt
  {
    g < GroupCount(st.cnt) && |Holes(st.parts, Lo(g), Hi(g, st.cnt))| >= 2
  }

  lemma RequestRotates(st: AsmState, g: nat)
    requires |st.parts| == st.cnt && ManyHoles(st, g)
    ensures Request(st, g) != Request(st.(nacks := st.nacks + 1), g)
  {
    hide Holes;
    var missing := Holes(st.parts, Lo(g), Hi(g, st.cnt));
    var n, x := |missing|, st.nacks + g;
    ModShift(1, x, n);
    var a, b := x % n, (1 + x) % n;
    assert a != b;
    assert missing[a] < missing[b] || missing[b] < missing[a];
    assert Request(st.(nacks := st.nacks + 1), g) == Some(missing[b]) by { assert st.nacks + 1 + g == 1 + x; }
  }

  /** What a round asks for in a group is that group's request. */
  lemma AskedIsRequest(st: AsmState, idx: nat)
    requires |st.parts| == st.cnt && idx in Round(st, 0, MAX_REQUESTS)
    ensures idx / 8 < GroupCount(st.cnt) && Request(st, idx / 8) == Some(idx)
  {
    hide Request, GroupAt;
    RoundVisits(st, 0, MAX_REQUESTS);
    assert FromVisit(st, 0, idx);
    var v :| 0 <= v < GroupCount(st.cnt) && Request(st, GroupAt(st, v)) == Some(idx);
    GroupOf(st, GroupAt(st, v), idx);
  }

  /** Which of a group's holes a round asks for: with every round the next one, and from group to group another to begin
      with. */
  lemma AsksForExactly(st: AsmState, idx: nat)
    requires |st.parts| == st.cnt && idx in Round(st, 0, MAX_REQUESTS)
    ensures idx < st.cnt && Lo(idx / 8) <= Hi(idx / 8, st.cnt)
    ensures var holes := Holes(st.parts, Lo(idx / 8), Hi(idx / 8, st.cnt));
      |holes| > 0 && idx == holes[(st.nacks + idx / 8) % |holes|]
  {
    hide Round, Holes;
    AskedIsRequest(st, idx);
  }

  /** Two rounds in a row that ask in a group with two holes or more, left as it is, ask for different fragments. */
  lemma RoundsRotate(st: AsmState, idx: nat, next: nat)
    requires |st.parts| == st.cnt
    requires idx in Round(st, 0, MAX_REQUESTS) && next in Round(st.(nacks := st.nacks + 1), 0, MAX_REQUESTS)
    requires idx / 8 == next / 8 && ManyHoles(st, idx / 8)
    ensures idx != next
  {
    hide Request, Round, ManyHoles;
    AskedIsRequest(st, idx);
    AskedIsRequest(st.(nacks := st.nacks + 1), next);
    RequestRotates(st, idx / 8);
  }

  // ---- which groups four rounds reach -----------------------------------------------------

  /** A group with a hole. */
  predicate Damaged(st: AsmState, g: nat)
    requires |st.parts| == st.cnt
  {
    g < GroupCount(st.cnt) && Request(st, g).Some?
  }

  /** The group at the `v`-th place counted on from group `start`, round and round. */
  function Place(st: AsmState, start: nat, v: nat): (g: nat)
    requires GroupCount(st.cnt) > 0
    ensures g < GroupCount(st.cnt)
  {
    (v + start) % GroupCount(st.cnt)
  }

  /** How many of the `v` groups from `start` on have a hole. */
  function DamagedFrom(st: AsmState, start: nat, v: nat): (d: nat)
    requires |st.parts| == st.cnt && GroupCount(st.cnt) > 0
    ensures d <= v
  {
    if v == 0 then 0
    else DamagedFrom(st, start, v - 1) + (if Damaged(st, Place(st, start, v - 1)) then 1 else 0)
  }

  lemma {:induction false} DamagedSplits(st: AsmState, start: nat, k: nat, m: nat)
    requires |st.parts| == st.cnt && GroupCount(st.cnt) > 0
    ensures DamagedFrom(st, start, k + m) == DamagedFrom(st, start, k) + DamagedFrom(st, start + k, m)
  {
    hide Damaged;
    if m > 0 {
      DamagedSplits(st, start, k, m - 1);
      assert k + m - 1 + start == m - 1 + (start + k);
    }
  }

  /** The last damaged group among `v`: all the others come before it. */
  lemma {:induction false} LastDamaged(st: AsmState, start: nat, v: nat) returns (w: nat)
    requires |st.parts| == st.cnt && GroupCount(st.cnt) > 0 && DamagedFrom(st, start, v) > 0
    ensures w < v && Damaged(st, Place(st, start, w)) && DamagedFrom(st, start, w) == DamagedFrom(st, start, v) - 1
  {
    hide Damaged;
    if Damaged(st, Place(st, start, v - 1)) {
      w := v - 1;
    } else {
      w := LastDamaged(st, start, v - 1);
    }
  }

  ghost predicate AsksIn(st: AsmState, g: nat, idxs: seq<nat>) {
    exists k :: 0 <= k < |idxs| && InGroup(st, g, idxs[k])
  }

  /** A round that starts at group `st.nacks` asks in a damaged group exactly if fewer than its budget of damaged groups
      come before that one. */
  lemma {:induction false} RoundReaches(st: AsmState, g: nat, budget: nat, v: nat)
    requires |st.parts| == st.cnt && g <= v < GroupCount(st.cnt) && Damaged(st, GroupAt(st, v))
    ensures AsksIn(st, GroupAt(st, v), Round(st, g, budget))
       <==> DamagedFrom(st, st.nacks, v) - DamagedFrom(st, st.nacks, g) < budget
    decreases v - g
  {
    hide Request, InGroup;
    DamagedGrows(st, st.nacks, g, v);
    if budget > 0 {
      var hole := Request(st, GroupAt(st, g));
      RoundHead(st, g, budget);
      if g == v {
        RequestInGroup(st, GroupAt(st, g));
        assert Round(st, g, budget)[0] == hole.value;
      } else {
        RoundReaches(st, g + 1, if hole.None? then budget else budget - 1, v);
        if hole.Some? {
          RequestInGroup(st, GroupAt(st, g));
          VisitsDiffer(st, g, v);
          OtherGroup(st, GroupAt(st, v), GroupAt(st, g), hole.value, Round(st, g + 1, budget - 1));
        }
      }
    }
  }

  lemma RoundHead(st: AsmState, g: nat, budget: nat)
    requires |st.parts| == st.cnt && g < GroupCount(st.cnt) && budget > 0
    ensures var hole := Request(st, GroupAt(st, g));
      Round(st, g, budget) ==
        if hole.None? then Round(st, g + 1, budget) else [hole.value] + Round(st, g + 1, budget - 1)
    ensures DamagedFrom(st, st.nacks, g + 1)
         == DamagedFrom(st, st.nacks, g) + (if Request(st, GroupAt(st, g)).Some? then 1 else 0)
  {
    hide Request;
  }

  lemma RequestInGroup(st: AsmState, g: nat)
    requires |st.parts| == st.cnt && g < GroupCount(st.cnt) && Request(st, g).Some?
    ensures InGroup(st, g, Request(st, g).value)
  {}

  lemma OtherGroup(st: AsmState, g: nat, h: nat, idx: nat, rest: seq<nat>)
    requires g != h && InGroup(st, h, idx)
    ensures AsksIn(st, g, [idx] + rest) <==> AsksIn(st, g, rest)
  {
    hide InGroup;
    var all := [idx] + rest;
    GroupOf(st, h, idx);
    if AsksIn(st, g, all) {
      var k :| 0 <= k < |all| && InGroup(st, g, all[k]);
      GroupOf(st, g, all[k]);
      assert all[k] == rest[k - 1];
    }
    if AsksIn(st, g, rest) {
      var k :| 0 <= k < |rest| && InGroup(st, g, rest[k]);
      assert all[k + 1] == rest[k];
    }
  }

  lemma {:induction false} DamagedGrows(st: AsmState, start: nat, a: nat, b: nat)
    requires |st.parts| == st.cnt && GroupCount(st.cnt) > 0 && a <= b
    ensures DamagedFrom(st, start, a) <= DamagedFrom(st, start, b) <= DamagedFrom(st, start, a) + (b - a)
    decreases b
  {
    hide Damaged;
    if a < b {
      DamagedGrows(st, start, a, b - 1);
    }
  }

  /** Round `r` of an assembly whose parts stay as they are asks in group `g`. */
  ghost predicate RoundAsks(st: AsmState, r: nat, g: nat)
    requires |st.parts| == st.cnt
  {
    AsksIn(st, g, Round(st.(nacks := r), 0, MAX_REQUESTS))
  }

  /** The `v`-th group from `r` on is asked in round `r` exactly if fewer than eight damaged ones come before it. */
  lemma RoundAsksExactly(st: AsmState, r: nat, v: nat)
    requires |st.parts| == st.cnt && v < GroupCount(st.cnt) && Damaged(st, Place(st, r, v))
    ensures RoundAsks(st, r, Place(st, r, v)) <==> DamagedFrom(st, r, v) < 8
  {
    hide Round, Request, AsksIn, Damaged;
    var at := st.(nacks := r);
    SameDamage(st, r, r, v);
    SameDamage(st, r, r, 0);
    DamageIsParts(st, r, Place(st, r, v));
    RoundReaches(at, 0, MAX_REQUESTS, v);
    SameGroup(st, r, Place(st, r, v));
  }

  lemma SameGroup(st: AsmState, r: nat, g: nat)
    requires |st.parts| == st.cnt
    ensures RoundAsks(st, r, g) <==> AsksIn(st.(nacks := r), g, Round(st.(nacks := r), 0, MAX_REQUESTS))
  {
    hide Round;
    var at, idxs := st.(nacks := r), Round(st.(nacks := r), 0, MAX_REQUESTS);
    assert forall i :: InGroup(st, g, i) <==> InGroup(at, g, i);
  }

  /** Which groups are damaged does not depend on how often the assembly has asked. */
  lemma DamageIsParts(st: AsmState, r: nat, g: nat)
    requires |st.parts| == st.cnt
    ensures Damaged(st.(nacks := r), g) <==> Damaged(st, g)
  {
    hide Holes;
  }

  lemma {:induction false} SameDamage(st: AsmState, r: nat, start: nat, v: nat)
    requires |st.parts| == st.cnt && GroupCount(st.cnt) > 0
    ensures DamagedFrom(st.(nacks := r), start, v) == DamagedFrom(st, start, v)
  {
    hide Damaged;
    if v > 0 {
      SameDamage(st, r, start, v - 1);
      DamageIsParts(st, r, Place(st, start, v - 1));
    }
  }

  ghost predicate ReachedInFour(st: AsmState, g: nat)
    requires |st.parts| == st.cnt
  {
    RoundAsks(st, 1, g) || RoundAsks(st, 2, g) || RoundAsks(st, 3, g) || RoundAsks(st, 4, g)
  }

  /** How many of an assembly's groups have a hole. */
  function DamagedGroups(st: AsmState): nat
    requires |st.parts| == st.cnt && GroupCount(st.cnt) > 0
  {
    DamagedFrom(st, 1, GroupCount(st.cnt))
  }

  /** How many of the groups 1, 2 and 3 do, which the later rounds start behind. */
  function DamagedEarly(st: AsmState): (c: nat)
    requires |st.parts| == st.cnt && GroupCount(st.cnt) > 0
    ensures c <= 3
  {
    DamagedFrom(st, 1, 3)
  }

  lemma PlaceShifts(st: AsmState, v: nat, r: nat)
    requires GroupCount(st.cnt) > 0 && 1 <= r <= v + 1
    ensures Place(st, r, v + 1 - r) == Place(st, 1, v)
  {
    assert v + 1 - r + r == v + 1;
  }

  /** The `v`-th group from 1 on, in a frame of more than eight damaged groups: reached exactly if it is among the first
      three or fewer than eight damaged groups lie between them and it. */
  lemma ReachedExactly(st: AsmState, v: nat)
    requires |st.parts| == st.cnt && v < GroupCount(st.cnt) && Damaged(st, Place(st, 1, v))
    ensures DamagedFrom(st, 1, v) < 8 || (v >= 3 && DamagedFrom(st, 1, v) < 8 + DamagedEarly(st)) ==>
      ReachedInFour(st, Place(st, 1, v))
    ensures v >= 3 && DamagedFrom(st, 1, v) >= 8 + DamagedEarly(st) ==> !ReachedInFour(st, Place(st, 1, v))
  {
    hide Damaged, RoundAsks, Place;
    RoundAsksExactly(st, 1, v);
    if v >= 3 {
      ReachedIn(st, v, 2);
      ReachedIn(st, v, 3);
      ReachedIn(st, v, 4);
      DamagedGrows(st, 1, 1, 3);
      DamagedGrows(st, 1, 2, 3);
    }
  }

  lemma ReachedIn(st: AsmState, v: nat, r: nat)
    requires |st.parts| == st.cnt && v < GroupCount(st.cnt) && Damaged(st, Place(st, 1, v)) && 1 <= r <= v + 1
    ensures RoundAsks(st, r, Place(st, 1, v)) <==> DamagedFrom(st, 1, v) - DamagedFrom(st, 1, r - 1) < 8
  {
    hide Damaged, RoundAsks, Place;
    PlaceShifts(st, v, r);
    RoundAsksExactly(st, r, v + 1 - r);
    DamagedSplits(st, 1, r - 1, v + 1 - r);
  }

  lemma PlaceOf(st: AsmState, g: nat) returns (v: nat)
    requires g < GroupCount(st.cnt)
    ensures v < GroupCount(st.cnt) && Place(st, 1, v) == g
  {
    v := VisitOf(st.(nacks := 1), g);
  }

  lemma DamagedBefore(st: AsmState, v: nat)
    requires |st.parts| == st.cnt && v < GroupCount(st.cnt) && Damaged(st, Place(st, 1, v))
    ensures DamagedFrom(st, 1, v) < DamagedGroups(st)
  {
    hide Damaged, Place;
    DamagedGrows(st, 1, v + 1, GroupCount(st.cnt));
  }

  /**
   An assembly has four rounds, each of eight requests and each starting one group later. If nothing arrives between
   them, they reach every damaged group exactly if there are at most eight, and one more for each of the groups 1, 2
   and 3 that is damaged; with twelve or more some group is never asked for.
   */
  lemma FourRoundsReach(st: AsmState)
    requires |st.parts| == st.cnt && GroupCount(st.cnt) > 0
    ensures (forall g | 0 <= g < GroupCount(st.cnt) && Damaged(st, g) :: ReachedInFour(st, g))
       <==> DamagedGroups(st) <= 8 + DamagedEarly(st)
  {
    hide Damaged, ReachedInFour, Place, DamagedFrom;
    if DamagedGroups(st) <= 8 + DamagedEarly(st) {
      forall g | 0 <= g < GroupCount(st.cnt) && Damaged(st, g) ensures ReachedInFour(st, g) {
        var v := PlaceOf(st, g);
        DamagedBefore(st, v);
        ReachedExactly(st, v);
      }
    } else {
      var w := LastDamaged(st, 1, GroupCount(st.cnt));
      ReachedExactly(st, w);
    }
  }

  // ---- when a round goes out -----------------------------------------------------------------

  /** An assembly's next round is due: fewer than four so far, old enough, and long enough after the last. With a round
      trip measured, old enough is three of them and 25 ms, within 40 and 150 ms, and long enough three and 30 ms,
      within 50 and 180; without, the most. */
  predicate RoundDue(st: AsmState, nowMs: real, rttMs: real) {
    var age, since := nowMs - st.atMs, nowMs - st.lastNackMs;
    && st.nacks < 4
    && (if rttMs <= 0.0 then age > 150.0 && since > 180.0
        else age > 40.0 && (age > 150.0 || age > 3.0 * rttMs + 25.0)
             && since > 50.0 && (since > 180.0 || since > 3.0 * rttMs + 30.0))
  }

  lemma DueIs(st: AsmState, nowMs: real, rttMs: real)
    ensures DueForNack(st, nowMs, NackTiming(rttMs)) <==> RoundDue(st, nowMs, rttMs)
  {}

  function RoundSent(st: AsmState, nowMs: real): AsmState {
    st.(nacks := st.nacks + 1, lastNackMs := nowMs)
  }

  /** All that a scan asks of one number. */
  ghost predicate AsksJust(out: seq<Output>, no: u32, idxs: seq<nat>) {
    forall i :: AskFragment(no, i) in out <==> i in idxs
  }

  lemma OthersAsk(s: State, x: u32, nowMs: real, t: Timing, no: u32)
    requires Shaped(s.v4) && x != no
    ensures AsksJust(ScanOne(s, x, nowMs, t).1, no, [])
    ensures no in s.v4.at <==> no in ScanOne(s, x, nowMs, t).0.v4.at
    ensures no in s.v4.at ==> ScanOne(s, x, nowMs, t).0.v4.at[no] == s.v4.at[no]
  {
    hide Round, Close;
  }

  lemma AsksJoin(a: seq<Output>, b: seq<Output>, no: u32, x: seq<nat>, y: seq<nat>)
    requires AsksJust(a, no, x) && AsksJust(b, no, y)
    ensures AsksJust(a + b, no, x + y)
  {}

  lemma OwnAsks(s: State, no: u32, nowMs: real, rttMs: real)
    requires Shaped(s.v4) && no in s.v4.at && !Expired(s.v4.at[no], nowMs)
    ensures var st := s.v4.at[no];
      var (u, out) := ScanOne(s, no, nowMs, NackTiming(rttMs));
      var due := RoundDue(st, nowMs, rttMs);
      && no in u.v4.at && u.v4.at[no] == (if due then RoundSent(st, nowMs) else st)
      && AsksJust(out, no, if due then Round(RoundSent(st, nowMs), 0, 8) else [])
  {
    hide Round, RoundDue, NackTiming;
    var st := s.v4.at[no];
    DueIs(st, nowMs, rttMs);
    if RoundDue(st, nowMs, rttMs) {
      var idxs := Round(RoundSent(st, nowMs), 0, 8);
      AsksAre(no, idxs);
    }
  }

  lemma AsksAre(no: u32, idxs: seq<nat>)
    ensures AsksJust(Asks(no, idxs), no, idxs)
  {
    var out := Asks(no, idxs);
    forall i: nat | i in idxs ensures AskFragment(no, i) in out {
      var k :| 0 <= k < |idxs| && idxs[k] == i;
      assert out[k] == AskFragment(no, i);
    }
  }

  /**
   The scan of a datagram sends a round for an assembly that has not expired exactly if one is due, once, and asks for
   just what the round chooses; otherwise it asks for nothing of it and leaves it as it was.
   */
  lemma {:induction false} ScanAsksExactly(s: State, keys: seq<u32>, nowMs: real, rttMs: real, no: u32)
    requires Shaped(s.v4) && Distinct(keys) && no in s.v4.at && !Expired(s.v4.at[no], nowMs)
    ensures var st := s.v4.at[no];
      var (u, out) := Scan(s, keys, nowMs, NackTiming(rttMs));
      var due := no in keys && RoundDue(st, nowMs, rttMs);
      && no in u.v4.at && u.v4.at[no] == (if due then RoundSent(st, nowMs) else st)
      && AsksJust(out, no, if due then Round(RoundSent(st, nowMs), 0, 8) else [])
  {
    hide Round, RoundDue, NackTiming, ScanOne, AsksJust, Expired;
    if |keys| == 0 {
      NothingRoundSent(no);
    } else {
      var front, last := keys[..|keys| - 1], keys[|keys| - 1];
      assert last !in front && (no in keys <==> no in front || no == last);
      ScanAsksExactly(s, front, nowMs, rttMs, no);
      var (t, out) := Scan(s, front, nowMs, NackTiming(rttMs));
      if last == no {
        OwnAsks(t, no, nowMs, rttMs);
        AsksJoin(out, ScanOne(t, last, nowMs, NackTiming(rttMs)).1, no, [],
                 if RoundDue(s.v4.at[no], nowMs, rttMs) then Round(RoundSent(s.v4.at[no], nowMs), 0, 8) else []);
        assert forall x: seq<nat> :: [] + x == x;
      } else {
        OthersAsk(t, last, nowMs, NackTiming(rttMs), no);
        var due := no in front && RoundDue(s.v4.at[no], nowMs, rttMs);
        var idxs := if due then Round(RoundSent(s.v4.at[no], nowMs), 0, 8) else [];
        AsksJoin(out, ScanOne(t, last, nowMs, NackTiming(rttMs)).1, no, idxs, []);
        assert idxs + [] == idxs;
      }
    }
  }

  lemma NothingRoundSent(no: u32)
    ensures AsksJust([], no, [])
  {}
}
