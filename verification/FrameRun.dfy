/**
 One frame from its first datagram to its delivery: whatever mixture of fragments,
 re-sends and parity rows arrives, in whatever order and however often, the outcome
 is a function of the set of them, and what is delivered is the host's frame.
 */
module FrameRun {
  import opened Bytes
  import opened Parity
  import opened Wire
  import opened Assembly
  import opened RepairSound
  import opened Confluence

  datatype Progress = Idle | Open(st: AsmState) | Done(payload: bytes)

  /** A datagram for an assembly in flight: absorbed, and the frame delivered if that completed it. */
  function Settle(st: AsmState, f: WtFragment): Progress
    requires |st.parts| == st.cnt
  {
    match Absorb(st, f)
    case None => Open(st)
    case Some(after) => if Complete(after) then Done(Payload(after)) else Open(after)
  }

  datatype Arrival = Arrival(f: WtFragment, atMs: real)

  function Receive(p: Progress, d: Arrival): (q: Progress)
    requires p.Open? ==> |p.st.parts| == p.st.cnt
    ensures q.Open? ==> |q.st.parts| == q.st.cnt
  {
    match p
    case Idle => Settle(NewState(d.f, d.atMs), d.f)
    case Open(st) => Settle(st, d.f)
    case Done(_) => p
  }

  function Run(ds: seq<Arrival>): (p: Progress)
    ensures p.Open? ==> |p.st.parts| == p.st.cnt
  {
    if |ds| == 0 then Idle else Receive(Run(ds[..|ds| - 1]), ds[|ds| - 1])
  }

  const NOTHING := Arrived({}, {}, {})

  function Note(a: Arrived, f: WtFragment): Arrived {
    if f.parity == 0 then a.(data := a.data + {f.idx})
    else if f.parity == 1 then a.(rows1 := a.rows1 + {f.idx})
    else a.(rows2 := a.rows2 + {f.idx})
  }

  /** The set of what arrived: order and repetition forgotten. */
  function Tally(ds: seq<Arrival>): Arrived {
    if |ds| == 0 then NOTHING else Note(Tally(ds[..|ds| - 1]), ds[|ds| - 1].f)
  }

  // ---- one datagram keeps the account ------------------------------------------------

  ghost predicate Tracks(h: HostFrame, st: AsmState, a: Arrived) {
    WellFormed(st) && Honest(h, st) && Closes(st, a) && forall i | i in a.data :: i < st.cnt
  }

  lemma NewTracks(h: HostFrame, no: u32, f: WtFragment, nowMs: real)
    requires FromHost(f, no, h)
    ensures Tracks(h, NewState(f, nowMs), NOTHING)
  {
    hide Row, Split, RowPayload;
    NewWellFormed(f, nowMs);
    var st := NewState(f, nowMs);
    forall i: nat ensures PresentAt(st, i) <==> InClosure(st.cnt, NOTHING, i) {
      if i < st.cnt { assert Lo(i / 8) <= i < Hi(i / 8, st.cnt); }
    }
  }

  /** Data already held or already rebuilt adds nothing. */
  lemma KnownDataTracks(h: HostFrame, st: AsmState, a: Arrived, i: nat)
    requires Tracks(h, st, a) && PresentAt(st, i)
    ensures Tracks(h, st, a.(data := a.data + {i}))
  {
    hide Honest, Reachable, WellFormed;
    var b := a.(data := a.data + {i});
    forall k: nat ensures InClosure(st.cnt, a, k) <==> InClosure(st.cnt, b, k) {
      if k < st.cnt {
        assert Between(st.cnt, a, b);
        if Reachable(st.cnt, b, k / 8) { ReachableBack(st.cnt, a, b, k / 8); }
        if Reachable(st.cnt, a, k / 8) { ReachableGrows(st.cnt, a, b, k / 8); }
      }
    }
  }

  lemma InClosureGrows(cnt: nat, a: Arrived, b: Arrived, i: nat)
    requires Within(a, b) && InClosure(cnt, a, i)
    ensures InClosure(cnt, b, i)
  {
    hide Reachable;
    if Reachable(cnt, a, i / 8) { ReachableGrows(cnt, a, b, i / 8); }
  }

  lemma NewDataTracks(h: HostFrame, st: AsmState, a: Arrived, i: nat)
    requires Sendable(h) && st.cnt == |Frags(h)|
    requires Tracks(h, st, a) && i < st.cnt && !PresentAt(st, i)
    ensures Tracks(h, Repair(Fill(st, i, Frags(h)[i])), a.(data := a.data + {i}))
  {
    hide Honest, Reachable, CountPresent;
    var b := a.(data := a.data + {i});
    var filled := Fill(st, i, Frags(h)[i]);
    CountFill(st.parts, i, Frags(h)[i]);
    FillHonest(h, st, i);
    RepairToWellFormed(filled, GroupCount(st.cnt));
    RepairToHonest(h, filled, GroupCount(st.cnt));
    forall k | k in b.data ensures PresentAt(filled, k) {
      if k != i { assert InClosure(st.cnt, a, k); assert PresentAt(st, k); }
    }
    forall k: nat | PresentAt(filled, k) ensures InClosure(st.cnt, b, k) {
      if k != i { assert PresentAt(st, k); InClosureGrows(st.cnt, a, b, k); }
    }
    RepairCloses(h, filled, b);
  }

  /** A row filed as the receiver files it. */
  function FileRow(st: AsmState, row: nat, g: nat, body: bytes, total: nat): AsmState {
    var timed := st.(total := Some(total));
    if row == 1 then timed.(p1 := st.p1[g := body]) else timed.(p2 := st.p2[g := body])
  }

  lemma FileRowHonest(h: HostFrame, st: AsmState, row: nat, g: nat)
    requires Honest(h, st) && g < GroupCount(st.cnt) && (row == 1 || row == 2)
    ensures Honest(h, FileRow(st, row, g, Row(Frags(h), row, g), |h.payload|))
  {
    hide Row, Split, Sendable, GroupCount;
  }

  lemma RowTracks(h: HostFrame, st: AsmState, a: Arrived, row: nat, g: nat)
    requires Sendable(h) && st.cnt == |Frags(h)|
    requires Tracks(h, st, a) && g < GroupCount(st.cnt) && (row == 1 || row == 2)
    ensures Tracks(h, Repair(FileRow(st, row, g, Row(Frags(h), row, g), |h.payload|)),
                   if row == 1 then a.(rows1 := a.rows1 + {g}) else a.(rows2 := a.rows2 + {g}))
  {
    hide Honest, Reachable, CountPresent, Row;
    var b := if row == 1 then a.(rows1 := a.rows1 + {g}) else a.(rows2 := a.rows2 + {g});
    var filed := FileRow(st, row, g, Row(Frags(h), row, g), |h.payload|);
    FileRowHonest(h, st, row, g);
    RepairToWellFormed(filed, GroupCount(st.cnt));
    RepairToHonest(h, filed, GroupCount(st.cnt));
    forall k | k in b.data ensures PresentAt(filed, k) {
      assert InClosure(st.cnt, a, k); assert PresentAt(st, k);
    }
    forall k: nat | PresentAt(filed, k) ensures InClosure(st.cnt, b, k) {
      assert PresentAt(st, k); InClosureGrows(st.cnt, a, b, k);
    }
    RepairCloses(h, filed, b);
  }

  lemma RowPayloadReads(h: HostFrame, row: nat, g: nat)
    requires Sendable(h) && g < GroupCount(|Frags(h)|)
    ensures var p := RowPayload(Frags(h), row, g);
      && |p| >= TRAILER && p[..|p| - TRAILER] == Row(Frags(h), row, g) && TrailerTotal(p) == |h.payload|
  {
    hide Row, Split;
    var p := RowPayload(Frags(h), row, g);
    FrameLength(h);
    LeFields(|h.payload|, 4);
    assert p[|p| - TRAILER..] == Le(TotalLen(Frags(h)), 4);
  }

  /** One datagram from the host: the assembly afterwards holds exactly the closure of the enlarged set. */
  lemma AbsorbTracks(h: HostFrame, no: u32, st: AsmState, a: Arrived, f: WtFragment)
    requires Tracks(h, st, a) && FromHost(f, no, h)
    ensures var r := Absorb(st, f);
      Tracks(h, if r.Some? then r.value else st, Note(a, f))
  {
    hide Honest, Closes, Row, Split, RowPayload, Reachable, CountPresent, Repair;
    assert st.cnt == |Frags(h)| by { HonestCount(h, st); }
    if f.parity == 0 {
      if PresentAt(st, f.idx) {
        KnownDataTracks(h, st, a, f.idx);
      } else {
        NewDataTracks(h, st, a, f.idx);
      }
    } else {
      RowPayloadReads(h, f.parity, f.idx);
      RowTracks(h, st, a, f.parity, f.idx);
    }
  }

  lemma HonestCount(h: HostFrame, st: AsmState)
    requires Honest(h, st)
    ensures Sendable(h) && st.cnt == |st.parts| == |Frags(h)|
  {}

  // ---- delivery -------------------------------------------------------------------------

  lemma CompleteIsFull(h: HostFrame, st: AsmState, a: Arrived)
    requires Tracks(h, st, a)
    ensures Complete(st) <==> ClosureFull(st.cnt, a)
    ensures Complete(st) ==> Payload(st) == h.payload
  {
    hide Reachable, Split, Row;
    CountFull(st.parts);
    if Complete(st) {
      forall i | 0 <= i < st.cnt ensures InClosure(st.cnt, a, i) { assert PresentAt(st, i); }
      assert Known(st.parts) == Frags(h);
      SplitJoins(h.payload, h.budget);
    } else if ClosureFull(st.cnt, a) {
      forall i | 0 <= i < st.cnt ensures st.parts[i].Some? {
        assert InClosure(st.cnt, a, i);
        assert PresentAt(st, i);
      }
    }
  }

  /** Where a frame stands once exactly the datagrams of `a` have reached it. */
  ghost predicate Accounts(h: HostFrame, p: Progress, a: Arrived) {
    Sendable(h) &&
    match p
    case Idle => a == NOTHING
    case Open(st) => Tracks(h, st, a) && !ClosureFull(|Frags(h)|, a)
    case Done(payload) => payload == h.payload && ClosureFull(|Frags(h)|, a)
  }

  lemma NoteGrows(a: Arrived, f: WtFragment)
    ensures Within(a, Note(a, f))
  {}

  lemma FullGrows(cnt: nat, a: Arrived, b: Arrived)
    requires Within(a, b) && ClosureFull(cnt, a)
    ensures ClosureFull(cnt, b)
  {
    hide InClosure;
    forall i | 0 <= i < cnt ensures InClosure(cnt, b, i) { InClosureGrows(cnt, a, b, i); }
  }

  lemma SettleAccounts(h: HostFrame, no: u32, st: AsmState, a: Arrived, f: WtFragment)
    requires Tracks(h, st, a) && FromHost(f, no, h) && !ClosureFull(st.cnt, a)
    ensures Accounts(h, Settle(st, f), Note(a, f))
  {
    hide Honest, WellFormed, Closes, Complete, Absorb, ClosureFull, FromHost, Payload;
    AbsorbTracks(h, no, st, a, f);
    HonestCount(h, st);
    var r := Absorb(st, f);
    var after := if r.Some? then r.value else st;
    HonestCount(h, after);
    CompleteIsFull(h, after, Note(a, f));
    CompleteIsFull(h, st, a);
  }

  /**
   Soundness, confluence and completeness of the erasure-coded carrier, for every run of host datagrams:
   the frame has been delivered exactly if the set that arrived is within the code's reach, what was delivered
   is the host's payload byte for byte, and until then the fragments held are exactly the closure of that set.
   */
  lemma {:induction false} RunAccounts(h: HostFrame, no: u32, ds: seq<Arrival>)
    requires Sendable(h)
    requires forall d | d in ds :: FromHost(d.f, no, h)
    ensures Accounts(h, Run(ds), Tally(ds))
  {
    hide Tracks, ClosureFull, FromHost, Note, Settle;
    if |ds| > 0 {
      var before, d := ds[..|ds| - 1], ds[|ds| - 1];
      RunAccounts(h, no, before);
      match Run(before)
      case Idle =>
        NewTracks(h, no, d.f, d.atMs);
        NothingNotFull(|Frags(h)|);
        TracksCount(h, NewState(d.f, d.atMs), NOTHING);
        SettleAccounts(h, no, NewState(d.f, d.atMs), NOTHING, d.f);
      case Open(st) =>
        TracksCount(h, st, Tally(before));
        SettleAccounts(h, no, st, Tally(before), d.f);
      case Done(payload) =>
        NoteGrows(Tally(before), d.f);
        FullGrows(|Frags(h)|, Tally(before), Note(Tally(before), d.f));
    }
  }

  lemma TracksCount(h: HostFrame, st: AsmState, a: Arrived)
    requires Tracks(h, st, a)
    ensures Sendable(h) && st.cnt == |Frags(h)|
  {}

  lemma NothingNotFull(cnt: nat)
    requires cnt > 0
    ensures !ClosureFull(cnt, NOTHING)
  {
    assert !Whole(cnt, NOTHING, 0) by {
      assert Lo(0) <= 0 < Hi(0, cnt) && 0 !in NOTHING.data;
    }
    assert !InClosure(cnt, NOTHING, 0);
  }

  // ---- consequences -----------------------------------------------------------------------

  function FragmentsOf(ds: seq<Arrival>): set<WtFragment> {
    if |ds| == 0 then {} else FragmentsOf(ds[..|ds| - 1]) + {ds[|ds| - 1].f}
  }

  function TallyOf(fs: set<WtFragment>): Arrived {
    Arrived(set f | f in fs && f.parity == 0 :: f.idx,
            set f | f in fs && f.parity == 1 :: f.idx,
            set f | f in fs && f.parity != 0 && f.parity != 1 :: f.idx)
  }

  lemma {:induction false} TallyIsASet(ds: seq<Arrival>)
    ensures Tally(ds) == TallyOf(FragmentsOf(ds))
  {
    if |ds| > 0 {
      var front, f := ds[..|ds| - 1], ds[|ds| - 1].f;
      TallyIsASet(front);
      NoteIsUnion(FragmentsOf(front), f);
    }
  }

  lemma NoteIsUnion(fs: set<WtFragment>, f: WtFragment)
    ensures Note(TallyOf(fs), f) == TallyOf(fs + {f})
  {}

  /** Order, repetition and timing of arrivals make no difference to what is held or delivered. */
  lemma ArrivalOrderIsInvisible(h: HostFrame, no: u32, xs: seq<Arrival>, ys: seq<Arrival>)
    requires Sendable(h)
    requires forall d | d in xs :: FromHost(d.f, no, h)
    requires forall d | d in ys :: FromHost(d.f, no, h)
    requires FragmentsOf(xs) == FragmentsOf(ys)
    ensures Run(xs).Done? <==> Run(ys).Done?
    ensures Run(xs).Done? ==> Run(xs) == Run(ys)
    ensures |xs| > 0 && !Run(xs).Done? ==> Run(xs).Open? && Run(ys).Open? && Run(xs).st.parts == Run(ys).st.parts
  {
    hide Tracks, ClosureFull, FromHost, Note, Settle;
    RunAccounts(h, no, xs);
    RunAccounts(h, no, ys);
    TallyIsASet(xs);
    TallyIsASet(ys);
    NotIdle(xs);
    NotIdle(ys);
    if |xs| > 0 && !Run(xs).Done? {
      SamePresence(h, Run(xs).st, Run(ys).st, Tally(xs));
    }
  }

  lemma NotIdle(ds: seq<Arrival>)
    ensures Run(ds).Idle? <==> FragmentsOf(ds) == {}
  {}

  lemma SamePresence(h: HostFrame, s: AsmState, t: AsmState, a: Arrived)
    requires Tracks(h, s, a) && Tracks(h, t, a)
    ensures s.parts == t.parts
  {
    hide InClosure, Row, Split;
    forall i | 0 <= i < s.cnt ensures s.parts[i] == t.parts[i] {
      assert PresentAt(s, i) <==> InClosure(s.cnt, a, i);
      assert PresentAt(t, i) <==> InClosure(t.cnt, a, i);
    }
  }

  /** No group lost more than one fragment, and each that lost one has its row 1. */
  ghost predicate SparseLoss(cnt: nat, a: Arrived) {
    forall g | 0 <= g < GroupCount(cnt) ::
      Whole(cnt, a, g) || (g in a.rows1 && exists m | Lo(g) <= m < Hi(g, cnt) :: Covered(a.data, Lo(g), Hi(g, cnt), {m}))
  }

  lemma SparseReachable(cnt: nat, a: Arrived, g: nat)
    requires SparseLoss(cnt, a) && g < GroupCount(cnt)
    ensures Reachable(cnt, a, g)
  {
    if !Whole(cnt, a, g) {
      var lo, hi := Lo(g), Hi(g, cnt);
      var m :| lo <= m < hi && Covered(a.data, lo, hi, {m});
      if m == cnt - 1 && cnt > 1 {
        if lo < m {
          assert lo in a.data;
        } else {
          var k := g - 1;
          assert Whole(cnt, a, k) || exists n | Lo(k) <= n < Hi(k, cnt) :: Covered(a.data, Lo(k), Hi(k, cnt), {n});
          assert Lo(k) in a.data || Lo(k) + 1 in a.data;
        }
      }
      assert OneShort(cnt, a, g);
    }
  }

  /** One loss per group, wherever it falls and in whatever order things arrive, is repaired without a re-send. */
  lemma SparseLossDelivers(h: HostFrame, no: u32, ds: seq<Arrival>)
    requires Sendable(h)
    requires forall d | d in ds :: FromHost(d.f, no, h)
    requires SparseLoss(|Frags(h)|, Tally(ds))
    ensures Run(ds) == Done(h.payload)
  {
    RunAccounts(h, no, ds);
    forall i | 0 <= i < |Frags(h)| ensures InClosure(|Frags(h)|, Tally(ds), i) {
      SparseReachable(|Frags(h)|, Tally(ds), i / 8);
    }
    NothingNotFull(|Frags(h)|);
  }
}
