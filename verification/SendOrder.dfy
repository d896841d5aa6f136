/**
 The order the host sends a frame's fragments in: one of every group in turn, so that a
 run of datagrams lost together is spread over the groups parity protects.
 */
module SendOrder {
  import opened Bytes
  import opened Parity
  import opened Wire
  import Fragmenter
  import opened Confluence
  import opened FrameRun

  /** How many fragments have offset `o` in their group. */
  function RowLength(cnt: nat, o: nat): nat {
    if o < cnt then (cnt - o - 1) / 8 + 1 else 0
  }

  /** How many are sent before those of offset `o`. */
  function RowStart(cnt: nat, o: nat): nat {
    if o == 0 then 0 else RowStart(cnt, o - 1) + RowLength(cnt, o - 1)
  }

  /** When fragment `idx` is sent. */
  function Position(cnt: nat, idx: nat): nat {
    RowStart(cnt, idx % 8) + idx / 8
  }

  /** Every fragment exactly once, each at its position. */
  ghost predicate IsSendOrder(cnt: nat, order: seq<nat>) {
    && |order| == cnt
    && (forall k | 0 <= k < cnt :: order[k] < cnt)
    && forall idx | 0 <= idx < cnt :: Position(cnt, idx) < cnt && order[Position(cnt, idx)] == idx
  }

  lemma RowLengths(cnt: nat, o: nat)
    requires o < 8 && cnt > 0
    ensures GroupCount(cnt) - 1 <= RowLength(cnt, o) <= GroupCount(cnt)
    ensures RowLength(cnt, o) == GroupCount(cnt) <==> cnt % 8 == 0 || o < cnt % 8
    ensures forall g: nat :: g < RowLength(cnt, o) <==> 8 * g + o < cnt
  {}

  lemma RowLengthIs(cnt: nat, o: nat)
    requires o < 8
    ensures RowLength(cnt, o) == cnt / 8 + (if o < cnt % 8 then 1 else 0)
  {}

  lemma NextRow(cnt: nat, o: nat)
    ensures RowStart(cnt, o + 1) == RowStart(cnt, o) + RowLength(cnt, o)
  {}

  lemma {:induction false} RowStartIs(cnt: nat, o: nat, least: nat)
    requires o <= 8 && least == (if o < cnt % 8 then o else cnt % 8)
    ensures RowStart(cnt, o) == o * (cnt / 8) + least
  {
    hide RowLength;
    if o > 0 {
      RowStartIs(cnt, o - 1, if o - 1 < cnt % 8 then o - 1 else cnt % 8);
      RowLengthIs(cnt, o - 1);
      assert o * (cnt / 8) == (o - 1) * (cnt / 8) + cnt / 8;
    }
  }

  lemma AllRows(cnt: nat)
    ensures RowStart(cnt, 8) == cnt
  {
    hide RowStart;
    RowStartIs(cnt, 8, cnt % 8);
  }

  /** The fragments of offsets below `o`, and of offset `o` in the first `n` groups, are in place. */
  ghost predicate Placed(cnt: nat, order: seq<nat>, o: nat, n: nat) {
    && (forall k | 0 <= k < |order| :: order[k] < cnt)
    && forall idx | 0 <= idx < cnt && (idx % 8 < o || (idx % 8 == o && idx / 8 < n)) ::
         Position(cnt, idx) < |order| && order[Position(cnt, idx)] == idx
  }

  lemma PlaceOne(cnt: nat, order: seq<nat>, o: nat, n: nat)
    requires Placed(cnt, order, o, n) && o < 8 && 8 * n + o < cnt && |order| == RowStart(cnt, o) + n
    ensures Placed(cnt, order + [8 * n + o], o, n + 1)
  {
    hide RowStart;
    var idx := 8 * n + o;
    assert idx % 8 == o && idx / 8 == n;
    forall i | 0 <= i < cnt && (i % 8 < o || (i % 8 == o && i / 8 < n + 1))
      ensures Position(cnt, i) < |order| + 1 && (order + [idx])[Position(cnt, i)] == i
    {
      if i % 8 == o && i / 8 == n {
        assert i == idx;
      }
    }
  }

  method FragmentSendOrder(cnt: nat) returns (order: seq<nat>)
    ensures IsSendOrder(cnt, order)
  {
    hide Placed, RowStart, RowLength;
    order := [];
    var groups := GroupCount(cnt);
    StartEmpty(cnt);
    for offset := 0 to 8
      invariant |order| == RowStart(cnt, offset)
      invariant Placed(cnt, order, offset, 0)
    {
      if cnt > 0 {
        RowLengths(cnt, offset);
      }
      for group := 0 to groups
        invariant |order| == RowStart(cnt, offset)
          + (if group < RowLength(cnt, offset) then group else RowLength(cnt, offset))
        invariant Placed(cnt, order, offset, group)
      {
        var idx := 8 * group + offset;
        if idx < cnt {
          PlaceOne(cnt, order, offset, group);
          order := order + [idx];
        } else {
          NoneThere(cnt, order, offset, group);
        }
      }
      RowDone(cnt, order, offset, groups);
      NextRow(cnt, offset);
    }
    AllRows(cnt);
    InOrder(cnt, order);
  }

  lemma StartEmpty(cnt: nat)
    ensures Placed(cnt, [], 0, 0) && RowStart(cnt, 0) == 0
    ensures forall o :: cnt == 0 && o >= 0 ==> RowLength(cnt, o) == 0
  {}

  lemma NoneThere(cnt: nat, order: seq<nat>, o: nat, n: nat)
    requires Placed(cnt, order, o, n) && o < 8 && 8 * n + o >= cnt
    ensures Placed(cnt, order, o, n + 1)
  {
    hide RowStart;
    forall i | 0 <= i < cnt && (i % 8 < o || (i % 8 == o && i / 8 < n + 1))
      ensures Position(cnt, i) < |order| && order[Position(cnt, i)] == i
    {
      assert i % 8 == o ==> i / 8 != n;
    }
  }

  lemma RowDone(cnt: nat, order: seq<nat>, o: nat, groups: nat)
    requires Placed(cnt, order, o, groups) && groups == GroupCount(cnt)
    ensures Placed(cnt, order, o + 1, 0)
  {
    hide RowStart;
    forall i | 0 <= i < cnt && (i % 8 < o + 1 || (i % 8 == o + 1 && i / 8 < 0))
      ensures Position(cnt, i) < |order| && order[Position(cnt, i)] == i
    {
      assert i / 8 < groups;
    }
  }

  lemma InOrder(cnt: nat, order: seq<nat>)
    requires Placed(cnt, order, 8, 0) && |order| == cnt
    ensures IsSendOrder(cnt, order)
  {
    hide RowStart;
    forall idx | 0 <= idx < cnt ensures Position(cnt, idx) < cnt && order[Position(cnt, idx)] == idx {
      assert idx % 8 < 8;
    }
  }

  // ---- how far apart a group's fragments are -------------------------------------------

  lemma {:induction false} RowsApart(cnt: nat, a: nat, b: nat)
    requires a < b <= 8 && cnt > 0
    ensures RowStart(cnt, b) >= RowStart(cnt, a) + RowLength(cnt, a)
  {
    if b > a + 1 {
      RowsApart(cnt, a, b - 1);
    }
  }

  /** Two fragments of one group are sent at least as many datagrams apart as there are groups, less one if their
      row skips the last group. */
  lemma GroupApart(cnt: nat, i: nat, j: nat)
    requires i < cnt && j < cnt && i / 8 == j / 8 && i % 8 < j % 8
    ensures Position(cnt, j) - Position(cnt, i) >= RowLength(cnt, i % 8)
  {
    RowsApart(cnt, i % 8, j % 8);
  }

  /** Lost together: the datagrams sent from `k` on, `burst` of them. */
  predicate InBurst(cnt: nat, k: nat, burst: nat, idx: nat) {
    k <= Position(cnt, idx) < k + burst
  }

  ghost predicate OnePerGroup(cnt: nat, k: nat, burst: nat) {
    forall i, j | 0 <= i < cnt && 0 <= j < cnt && InBurst(cnt, k, burst, i) && InBurst(cnt, k, burst, j) ::
      i / 8 == j / 8 ==> i == j
  }

  lemma ShortBursts(cnt: nat, k: nat, burst: nat)
    requires cnt > 0 && burst <= GroupCount(cnt)
    requires burst < GroupCount(cnt) || cnt % 8 == 0 || cnt % 8 == 7
    ensures OnePerGroup(cnt, k, burst)
  {
    hide RowStart, RowLength;
    forall i, j | 0 <= i < cnt && 0 <= j < cnt && InBurst(cnt, k, burst, i) && InBurst(cnt, k, burst, j) && i / 8 == j / 8
      ensures i == j
    {
      assert i == 8 * (i / 8) + i % 8 && j == 8 * (j / 8) + j % 8;
      if i % 8 < j % 8 {
        RowLengths(cnt, i % 8);
        GroupApart(cnt, i, j);
      } else if j % 8 < i % 8 {
        RowLengths(cnt, j % 8);
        GroupApart(cnt, j, i);
      }
    }
  }

  lemma SentApart(cnt: nat, i: nat, j: nat)
    requires i < j < cnt <= 8
    ensures Position(cnt, i) < Position(cnt, j)
  {
    hide RowStart;
    RowLengthIs(cnt, i);
    GroupApart(cnt, i, j);
  }

  /** One group only: a burst of one is one fragment. */
  lemma SingleBurst(cnt: nat, k: nat)
    requires 0 < cnt <= 8
    ensures OnePerGroup(cnt, k, 1)
  {
    hide Position;
    forall i, j | 0 <= i < cnt && 0 <= j < cnt && InBurst(cnt, k, 1, i) && InBurst(cnt, k, 1, j)
      ensures i == j
    {
      if i < j {
        SentApart(cnt, i, j);
      } else if j < i {
        SentApart(cnt, j, i);
      }
    }
  }

  lemma ShortRow(cnt: nat, s: nat)
    requires cnt > 8 && s == cnt % 8 && 0 < s < 7
    ensures Position(cnt, s + 1) == Position(cnt, s) + GroupCount(cnt) - 1
  {
    hide RowStart, RowLength;
    RowLengthIs(cnt, s);
    NextRow(cnt, s);
    assert s % 8 == s && s / 8 == 0 && (s + 1) % 8 == s + 1 && (s + 1) / 8 == 0;
    assert GroupCount(cnt) == cnt / 8 + 1;
  }

  /** With a last group of one to six fragments there is a burst as long as there are groups that hits one twice. */
  lemma LongBurstHitsTwice(cnt: nat)
    requires cnt > 8 && 0 < cnt % 8 < 7
    ensures exists k: nat :: !OnePerGroup(cnt, k, GroupCount(cnt))
  {
    hide Position;
    var s := cnt % 8;
    var k := Position(cnt, s);
    ShortRow(cnt, s);
    assert InBurst(cnt, k, GroupCount(cnt), s) && InBurst(cnt, k, GroupCount(cnt), s + 1);
    assert s / 8 == (s + 1) / 8;
    assert !OnePerGroup(cnt, k, GroupCount(cnt));
  }

  /**
   The design claim is that as many consecutive datagrams as there are groups never cost a group two fragments.
   It holds exactly for a single group, and when the last group has seven or all eight; one datagram fewer is
   always safe.
   */
  lemma SpreadExactly(cnt: nat)
    requires cnt > 0
    ensures (forall k: nat :: OnePerGroup(cnt, k, GroupCount(cnt))) <==> cnt <= 8 || cnt % 8 == 0 || cnt % 8 == 7
    ensures forall k: nat, burst: nat | burst < GroupCount(cnt) :: OnePerGroup(cnt, k, burst)
  {
    hide OnePerGroup;
    forall k: nat, burst: nat | burst < GroupCount(cnt) ensures OnePerGroup(cnt, k, burst) {
      ShortBursts(cnt, k, burst);
    }
    if cnt <= 8 {
      forall k: nat ensures OnePerGroup(cnt, k, GroupCount(cnt)) { SingleBurst(cnt, k); }
    } else if cnt % 8 == 0 || cnt % 8 == 7 {
      forall k: nat ensures OnePerGroup(cnt, k, GroupCount(cnt)) { ShortBursts(cnt, k, GroupCount(cnt)); }
    } else {
      LongBurstHitsTwice(cnt);
    }
  }

  // ---- what becomes of a burst ----------------------------------------------------------

  /** Where a burst no longer than the group count does hit a group twice, it hits neighbours, in a row that has run
      past the frame's last fragment. */
  lemma DoubleHit(cnt: nat, k: nat, burst: nat, i: nat, j: nat)
    requires burst <= GroupCount(cnt) && i < j < cnt && i / 8 == j / 8
    requires InBurst(cnt, k, burst, i) && InBurst(cnt, k, burst, j)
    ensures j == i + 1 && i != cnt - 1 && j != cnt - 1
  {
    hide RowStart, RowLength;
    assert i == 8 * (i / 8) + i % 8 && j == 8 * (j / 8) + j % 8;
    var o, q, n := i % 8, j % 8, GroupCount(cnt);
    RowLengths(cnt, o);
    GroupApart(cnt, i, j);
    assert RowLength(cnt, o) == n - 1;
    if q > o + 1 {
      RowLengths(cnt, o + 1);
      RowsApart(cnt, o, o + 1);
      RowsApart(cnt, o + 1, q);
      assert 8 * (j / 8) + (o + 1) < cnt;
    }
    LastOffset(cnt, o);
  }

  lemma LastOffset(cnt: nat, o: nat)
    requires cnt > 0 && cnt % 8 != 0 && cnt % 8 <= o
    ensures (cnt - 1) % 8 < o
  {}

  /** A burst among the fragments: everything the host sends for a frame arrives, every row included, but the fragments
      it takes. `SendBurst` is about bursts that run on into the rows. */
  ghost predicate AllButBurst(h: HostFrame, no: u32, ds: seq<Arrival>, k: nat, burst: nat) {
    && Sendable(h)
    && (forall d | d in ds :: FromHost(d.f, no, h))
    && (forall i | 0 <= i < |Frags(h)| :: i in Tally(ds).data <==> !InBurst(|Frags(h)|, k, burst, i))
    && (forall g | 0 <= g < GroupCount(|Frags(h)|) ::
          g in Tally(ds).rows1 && (WantsTwoParityRows(h.key, |Frags(h)|) ==> g in Tally(ds).rows2))
  }

  /** What is left of the data after a burst. */
  ghost predicate LeftBy(cnt: nat, a: Arrived, k: nat, burst: nat) {
    forall i | 0 <= i < cnt :: i in a.data <==> !InBurst(cnt, k, burst, i)
  }

  lemma GroupLosesOne(cnt: nat, a: Arrived, g: nat, k: nat, burst: nat)
    requires OnePerGroup(cnt, k, burst) && g < GroupCount(cnt) && LeftBy(cnt, a, k, burst)
    ensures Whole(cnt, a, g) || exists m | Lo(g) <= m < Hi(g, cnt) :: Covered(a.data, Lo(g), Hi(g, cnt), {m})
  {
    hide InBurst;
    var lo, hi := Lo(g), Hi(g, cnt);
    if m :| lo <= m < hi && m !in a.data {
      forall i | lo <= i < hi && i !in {m} ensures i in a.data {
        assert i / 8 == m / 8;
        assert InBurst(cnt, k, burst, m);
      }
      assert Covered(a.data, lo, hi, {m});
    }
  }

  /** Of the first three fragments of a longer frame some full-sized one is left. */
  lemma SomeFullLeft(cnt: nat, a: Arrived, k: nat, burst: nat)
    requires cnt > 8 && burst <= GroupCount(cnt) && LeftBy(cnt, a, k, burst)
    ensures LengthKnown(cnt, a.data)
  {
    hide InBurst;
    if 0 !in a.data && 2 !in a.data {
      DoubleHit(cnt, k, burst, 0, 2);
    }
    assert 0 in a.data || 2 in a.data;
  }

  /** With both rows, a group hit once or twice by such a burst is within the code's reach. */
  lemma GroupRecovers(cnt: nat, a: Arrived, g: nat, k: nat, burst: nat)
    requires cnt > 8 && burst <= GroupCount(cnt) && LeftBy(cnt, a, k, burst)
    requires g < GroupCount(cnt) && g in a.rows1 && g in a.rows2
    ensures Reachable(cnt, a, g)
  {
    hide InBurst, LengthKnown, OneShort, TwoShort;
    var lo, hi := Lo(g), Hi(g, cnt);
    SomeFullLeft(cnt, a, k, burst);
    if x, y :| lo <= x < y < hi && x !in a.data && y !in a.data {
      DoubleHit(cnt, k, burst, x, y);
      TwoLost(cnt, a, g, k, burst, x);
    } else if m :| lo <= m < hi && m !in a.data {
      assert Covered(a.data, lo, hi, {m});
      ReachOne(cnt, a, g, m);
    } else {
      assert Whole(cnt, a, g);
    }
  }

  lemma ReachOne(cnt: nat, a: Arrived, g: nat, m: nat)
    requires g in a.rows1 && Lo(g) <= m < Hi(g, cnt) && Covered(a.data, Lo(g), Hi(g, cnt), {m})
    requires LengthKnown(cnt, a.data)
    ensures Reachable(cnt, a, g)
  {
    hide LengthKnown, TwoShort;
    assert OneShort(cnt, a, g);
  }

  lemma OnlyTwoLost(cnt: nat, a: Arrived, k: nat, burst: nat, x: nat, i: nat)
    requires burst <= GroupCount(cnt) && LeftBy(cnt, a, k, burst)
    requires x + 1 < cnt && i < cnt && x / 8 == i / 8 == (x + 1) / 8 && i != x && i != x + 1
    requires x !in a.data && x + 1 !in a.data
    ensures i in a.data
  {
    hide InBurst;
    if i !in a.data {
      if i < x {
        DoubleHit(cnt, k, burst, i, x + 1);
      } else {
        DoubleHit(cnt, k, burst, x, i);
      }
    }
  }

  /** Two neighbours missing, neither the frame's last: one is even and one odd, and both rows rebuild them. */
  lemma ReachTwo(cnt: nat, a: Arrived, g: nat, x: nat)
    requires g in a.rows1 && g in a.rows2 && Lo(g) <= x && x + 1 < Hi(g, cnt) && x + 1 < cnt - 1
    requires Covered(a.data, Lo(g), Hi(g, cnt), {x, x + 1})
    ensures Reachable(cnt, a, g)
  {
    hide OneShort;
    var lo, hi := Lo(g), Hi(g, cnt);
    var e, o := if (x - lo) % 2 == 0 then x else x + 1, if (x - lo) % 2 == 0 then x + 1 else x;
    assert {e, o} == {x, x + 1};
    assert Covered(a.data, lo, hi, {e, o});
    assert TwoShort(cnt, a, g);
  }

  lemma TwoLost(cnt: nat, a: Arrived, g: nat, k: nat, burst: nat, x: nat)
    requires burst <= GroupCount(cnt) && LeftBy(cnt, a, k, burst)
    requires g in a.rows1 && g in a.rows2 && Lo(g) <= x && x + 1 < Hi(g, cnt) && x + 1 < cnt - 1
    requires x !in a.data && x + 1 !in a.data
    ensures Reachable(cnt, a, g)
  {
    hide LeftBy, Reachable;
    forall i | Lo(g) <= i < Hi(g, cnt) && i !in {x, x + 1} ensures i in a.data {
      OnlyTwoLost(cnt, a, k, burst, x, i);
    }
    ReachTwo(cnt, a, g, x);
  }

  /**
   From the sender's order to the decoder: lose any burst of consecutive data datagrams no longer than the number of
   groups; if everything else the host sends arrives, in any order, the frame is delivered whole without a re-send,
   unless it is a delta of 9 to 14 fragments.
   */
  lemma BurstIsRepaired(h: HostFrame, no: u32, ds: seq<Arrival>, k: nat, burst: nat)
    requires AllButBurst(h, no, ds, k, burst) && burst <= GroupCount(|Frags(h)|)
    requires h.key || |Frags(h)| <= 8 || |Frags(h)| >= 15
    ensures Run(ds) == Done(h.payload)
  {
    hide RowStart, FromHost, Run, Reachable, InBurst, Split;
    var cnt, a := |Frags(h)|, Tally(ds);
    if cnt > 8 && WantsTwoParityRows(h.key, cnt) {
      RunAccounts(h, no, ds);
      forall i | 0 <= i < cnt ensures InClosure(cnt, a, i) { GroupRecovers(cnt, a, i / 8, k, burst); }
      NothingNotFull(cnt);
    } else {
      if burst < GroupCount(cnt) || cnt == 15 {
        ShortBursts(cnt, k, burst);
      } else {
        SingleBurst(cnt, k);
      }
      forall g | 0 <= g < GroupCount(cnt)
        ensures Whole(cnt, a, g) || exists m | Lo(g) <= m < Hi(g, cnt) :: Covered(a.data, Lo(g), Hi(g, cnt), {m})
      {
        GroupLosesOne(cnt, a, g, k, burst);
      }
      SparseLossDelivers(h, no, ds);
    }
  }

  // ---- and what is not repaired ----------------------------------------------------------------

  function DataSent(no: u32, h: HostFrame, k: nat, burst: nat, n: nat): seq<Arrival>
    requires Sendable(h) && n <= |Frags(h)|
  {
    if n == 0 then []
    else if InBurst(|Frags(h)|, k, burst, n - 1) then DataSent(no, h, k, burst, n - 1)
    else DataSent(no, h, k, burst, n - 1) + [Arrival(DataFragment(no, h, n - 1), 0.0)]
  }

  /** When row `row` of group `g` is sent: behind the last fragment, group by group. */
  function RowPosition(h: HostFrame, row: nat, g: nat): nat
    requires Sendable(h) && 1 <= row <= 2
  {
    |Frags(h)| + RowIndex(h, row, g)
  }

  predicate RowInBurst(h: HostFrame, k: nat, burst: nat, row: nat, g: nat)
    requires Sendable(h) && 1 <= row <= 2
  {
    k <= RowPosition(h, row, g) < k + burst
  }

  function RowsSent(no: u32, h: HostFrame, data: seq<Arrival>, row: nat, k: nat, burst: nat, n: nat): seq<Arrival>
    requires Sendable(h) && n <= GroupCount(|Frags(h)|) && 1 <= row <= 2
  {
    if n == 0 then data
    else if RowInBurst(h, k, burst, row, n - 1) then RowsSent(no, h, data, row, k, burst, n - 1)
    else RowsSent(no, h, data, row, k, burst, n - 1) + [Arrival(ParityFragment(no, h, row, n - 1), 0.0)]
  }

  lemma TallySnoc(ds: seq<Arrival>, d: Arrival)
    ensures Tally(ds + [d]) == Note(Tally(ds), d.f)
  {
    assert (ds + [d])[..|ds|] == ds;
  }

  lemma {:induction false} DataTally(no: u32, h: HostFrame, k: nat, burst: nat, n: nat)
    requires Sendable(h) && n <= |Frags(h)|
    ensures var ds := DataSent(no, h, k, burst, n);
      && (forall d | d in ds :: FromHost(d.f, no, h))
      && (forall i: nat :: i in Tally(ds).data <==> i < n && !InBurst(|Frags(h)|, k, burst, i))
      && Tally(ds).rows1 == {} && Tally(ds).rows2 == {}
  {
    hide InBurst, RowPayload, Split, Sendable, Tally;
    if n > 0 {
      DataTally(no, h, k, burst, n - 1);
      var before := DataSent(no, h, k, burst, n - 1);
      TallySnoc(before, Arrival(DataFragment(no, h, n - 1), 0.0));
    } else {
      EmptyTally();
    }
  }

  lemma EmptyTally()
    ensures Tally([]) == NOTHING
  {}

  function RowsOf(a: Arrived, row: nat): set<nat> {
    if row == 1 then a.rows1 else a.rows2
  }

  lemma NoteRow(a: Arrived, f: WtFragment, row: nat)
    requires f.parity == row && (row == 1 || row == 2)
    ensures Note(a, f).data == a.data && RowsOf(Note(a, f), row) == RowsOf(a, row) + {f.idx}
    ensures RowsOf(Note(a, f), 3 - row) == RowsOf(a, 3 - row)
  {}

  lemma {:induction false} RowsTally(no: u32, h: HostFrame, data: seq<Arrival>, row: nat, k: nat, burst: nat, n: nat)
    requires Sendable(h) && n <= GroupCount(|Frags(h)|)
    requires row == 1 || (row == 2 && WantsTwoParityRows(h.key, |Frags(h)|))
    requires RowsOf(Tally(data), row) == {}
    requires forall d | d in data :: FromHost(d.f, no, h)
    ensures var ds := RowsSent(no, h, data, row, k, burst, n);
      && (forall d | d in ds :: FromHost(d.f, no, h))
      && Tally(ds).data == Tally(data).data
      && RowsOf(Tally(ds), 3 - row) == RowsOf(Tally(data), 3 - row)
      && (forall g: nat :: g in RowsOf(Tally(ds), row) <==> g < n && !RowInBurst(h, k, burst, row, g))
  {
    hide RowPayload, Split, Sendable, Tally, RowInBurst, RowsOf, Note;
    if n > 0 {
      var before, f := RowsSent(no, h, data, row, k, burst, n - 1), ParityFragment(no, h, row, n - 1);
      RowsTally(no, h, data, row, k, burst, n - 1);
      TallySnoc(before, Arrival(f, 0.0));
      NoteRow(Tally(before), f, row);
    }
  }

  lemma PairOutOfReach(cnt: nat, a: Arrived, x: nat)
    requires x + 1 < 8 < cnt && x !in a.data && x + 1 !in a.data && 0 !in a.rows2
    ensures !Reachable(cnt, a, 0)
  {
    assert Lo(0) <= x && x + 1 < Hi(0, cnt);
  }

  lemma SentButBurst(h: HostFrame, no: u32, k: nat) returns (ds: seq<Arrival>)
    requires Sendable(h) && !h.key && 9 <= |Frags(h)| <= 14
    ensures AllButBurst(h, no, ds, k, 2) && Tally(ds).rows2 == {}
  {
    hide FromHost, Split, Sendable, InBurst, DataSent, RowsSent, Tally;
    var data := DataSent(no, h, k, 2, |Frags(h)|);
    DataTally(no, h, k, 2, |Frags(h)|);
    ds := RowsSent(no, h, data, 1, 0, 0, 2);
    RowsTally(no, h, data, 1, 0, 0, 2);
    assert RowsOf(Tally(ds), 1) == Tally(ds).rows1 && RowsOf(Tally(ds), 2) == Tally(ds).rows2;
    assert forall g: nat | g < 2 :: g in Tally(ds).rows1 by { assert forall g: nat :: !RowInBurst(h, 0, 0, 1, g); }
  }

  lemma NeighboursHit(cnt: nat)
    requires 9 <= cnt <= 14
    ensures var s := cnt % 8; 0 < s < 7 && InBurst(cnt, Position(cnt, s), 2, s) && InBurst(cnt, Position(cnt, s), 2, s + 1)
  {
    hide Position;
    ShortRow(cnt, cnt % 8);
  }

  lemma NotDelivered(h: HostFrame, no: u32, ds: seq<Arrival>, x: nat)
    requires Sendable(h) && (forall d | d in ds :: FromHost(d.f, no, h))
    requires x < |Frags(h)| && x !in Tally(ds).data && !Reachable(|Frags(h)|, Tally(ds), x / 8)
    ensures !Run(ds).Done?
  {
    hide FromHost, Reachable, Run, Split, Sendable, Tally;
    RunAccounts(h, no, ds);
    assert !InClosure(|Frags(h)|, Tally(ds), x);
  }

  /** A delta of 9 to 14 fragments has two groups and one row: two neighbours lost together leave it undelivered though
      everything else arrives. */
  lemma BurstIsFatal(h: HostFrame, no: u32) returns (ds: seq<Arrival>, k: nat)
    requires Sendable(h) && !h.key && 9 <= |Frags(h)| <= 14
    ensures AllButBurst(h, no, ds, k, GroupCount(|Frags(h)|)) && !Run(ds).Done?
  {
    hide Position, FromHost, Reachable, Run, Split, Sendable, Tally, InBurst;
    var s := |Frags(h)| % 8;
    k := Position(|Frags(h)|, s);
    NeighboursHit(|Frags(h)|);
    ds := SentButBurst(h, no, k);
    PairOutOfReach(|Frags(h)|, Tally(ds), s);
    NotDelivered(h, no, ds, s);
  }

  /**
   The burst claim for the fragments alone: any burst of at most as many consecutive fragments as there are groups is
   repaired without a re-send if all the rows arrive, exactly for keyframes and for frames of at most 8 or at least 15
   fragments. `SendBurst.ConsecutiveRepairedExactly` is the claim for all that the host sends.
   */
  lemma BurstsRepairedExactly(h: HostFrame, no: u32)
    requires Sendable(h)
    ensures (forall ds: seq<Arrival>, k: nat, burst: nat ::
               AllButBurst(h, no, ds, k, burst) && burst <= GroupCount(|Frags(h)|) ==> Run(ds) == Done(h.payload))
       <==> h.key || |Frags(h)| <= 8 || |Frags(h)| >= 15
  {
    hide AllButBurst, Run, Split, Sendable;
    if h.key || |Frags(h)| <= 8 || |Frags(h)| >= 15 {
      forall ds: seq<Arrival>, k: nat, burst: nat | AllButBurst(h, no, ds, k, burst) && burst <= GroupCount(|Frags(h)|)
        ensures Run(ds) == Done(h.payload)
      {
        BurstIsRepaired(h, no, ds, k, burst);
      }
    } else {
      var ds, k := BurstIsFatal(h, no);
      assert AllButBurst(h, no, ds, k, GroupCount(|Frags(h)|));
    }
  }

  /** A delta of 2304 bytes in fragments of 256, the smallest the host cuts: a burst of two leaves it undelivered. */
  lemma NineFragments() returns (h: HostFrame, ds: seq<Arrival>, k: nat)
    ensures Sendable(h) && h.budget == 256 && |Frags(h)| == 9 && !h.key
    ensures AllButBurst(h, 0, ds, k, 2) && !Run(ds).Done?
  {
    h := HostFrame(0, false, seq(2304, _ => 0), 256);
    Fragmenter.SplitCount(h.payload, 256);
    hide AllButBurst, Run, Split;
    ds, k := BurstIsFatal(h, 0);
  }
}
