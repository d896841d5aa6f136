/**
 The burst claim for all the host sends of a frame: the fragments, and right behind the
 last of them the parity rows, so that a burst can take a fragment and the row for it.
 */
module SendBurst {
  import opened Bytes
  import opened Parity
  import opened Wire
  import Fragmenter
  import opened Confluence
  import opened FrameRun
  import opened SendOrder

  /** Everything the host sends for a frame arrives but the `burst` datagrams sent from the `k`-th on. */
  ghost predicate AllButConsecutive(h: HostFrame, no: u32, ds: seq<Arrival>, k: nat, burst: nat) {
    && Sendable(h)
    && (forall d | d in ds :: FromHost(d.f, no, h))
    && (forall i | 0 <= i < |Frags(h)| :: i in Tally(ds).data <==> !InBurst(|Frags(h)|, k, burst, i))
    && (forall g | 0 <= g < GroupCount(|Frags(h)|) ::
          && (g in Tally(ds).rows1 <==> !RowInBurst(h, k, burst, 1, g))
          && (WantsTwoParityRows(h.key, |Frags(h)|) ==>
                (g in Tally(ds).rows2 <==> !RowInBurst(h, k, burst, 2, g))))
  }

  // ---- a fragment and the row for it ------------------------------------------------------

  /** A group's row 1 is sent at least as long after any of its fragments as the last row of fragments is. */
  lemma RowApart(h: HostFrame, i: nat)
    requires Sendable(h) && i < |Frags(h)|
    ensures RowPosition(h, 1, i / 8) - Position(|Frags(h)|, i) >= GroupCount(|Frags(h)|) - 1
    ensures |Frags(h)| % 8 == 0 ==>
      RowPosition(h, 1, i / 8) - Position(|Frags(h)|, i) >= GroupCount(|Frags(h)|)
  {
    hide RowStart, RowLength, Sendable, Split;
    var cnt := |Frags(h)|;
    AllRows(cnt);
    RowLengths(cnt, i % 8);
    RowsApart(cnt, i % 8, 8);
  }

  /** A burst shorter than the group count, or as long where all groups are full or there is only one, never takes a
      fragment together with its group's row 1, nor two fragments of a group. */
  lemma BurstIsSparse(h: HostFrame, no: u32, ds: seq<Arrival>, k: nat, burst: nat)
    requires AllButConsecutive(h, no, ds, k, burst) && burst <= GroupCount(|Frags(h)|)
    requires burst < GroupCount(|Frags(h)|) || |Frags(h)| <= 8 || |Frags(h)| % 8 == 0
    ensures SparseLoss(|Frags(h)|, Tally(ds))
  {
    hide Position, RowPosition, FromHost, Tally, Sendable, Split;
    var cnt, a := |Frags(h)|, Tally(ds);
    if burst < GroupCount(cnt) || cnt % 8 == 0 {
      ShortBursts(cnt, k, burst);
    } else {
      SingleBurst(cnt, k);
    }
    forall g | 0 <= g < GroupCount(cnt)
      ensures Whole(cnt, a, g)
           || (g in a.rows1 && exists m | Lo(g) <= m < Hi(g, cnt) :: Covered(a.data, Lo(g), Hi(g, cnt), {m}))
    {
      GroupLosesOne(cnt, a, g, k, burst);
      if m :| Lo(g) <= m < Hi(g, cnt) && m !in a.data {
        assert m / 8 == g && InBurst(cnt, k, burst, m);
        RowApart(h, m);
        RowAlone(h, m);
      }
    }
  }

  /** With one group the row comes after every fragment. */
  lemma RowAlone(h: HostFrame, i: nat)
    requires Sendable(h) && i < |Frags(h)|
    ensures RowPosition(h, 1, i / 8) > Position(|Frags(h)|, i)
  {
    hide RowStart, RowLength, Sendable, Split;
    var cnt := |Frags(h)|;
    AllRows(cnt);
    RowLengths(cnt, i % 8);
    RowsApart(cnt, i % 8, 8);
  }

  /** Any burst of fewer consecutive datagrams than there are groups is repaired without a re-send, whatever mixture of
      fragments and rows it takes. */
  lemma ShorterIsRepaired(h: HostFrame, no: u32, ds: seq<Arrival>, k: nat, burst: nat)
    requires AllButConsecutive(h, no, ds, k, burst) && burst < GroupCount(|Frags(h)|)
    ensures Run(ds) == Done(h.payload)
  {
    BurstIsSparse(h, no, ds, k, burst);
    hide Run, Tally, FromHost, SparseLoss, Split, RowInBurst, InBurst;
    SparseLossDelivers(h, no, ds);
  }

  // ---- the burst that is not repaired ---------------------------------------------------------

  /** All that is sent but a burst, in the order it is sent. */
  lemma Remainder(h: HostFrame, no: u32, k: nat, burst: nat) returns (ds: seq<Arrival>)
    requires Sendable(h)
    ensures AllButConsecutive(h, no, ds, k, burst)
  {
    hide FromHost, Split, Sendable, InBurst, RowInBurst, DataSent, RowsSent, Tally;
    var cnt, n := |Frags(h)|, GroupCount(|Frags(h)|);
    var data := DataSent(no, h, k, burst, cnt);
    DataTally(no, h, k, burst, cnt);
    ds := RowsSent(no, h, data, 1, k, burst, n);
    RowsTally(no, h, data, 1, k, burst, n);
    if WantsTwoParityRows(h.key, cnt) {
      var both := RowsSent(no, h, ds, 2, k, burst, n);
      RowsTally(no, h, ds, 2, k, burst, n);
      ds := both;
    }
  }

  /** Where the last group is not full, the last fragment of the first group and its row 1 are sent one datagram less
      than the group count apart. */
  lemma SeventhAndRow(h: HostFrame)
    requires Sendable(h) && |Frags(h)| > 8 && |Frags(h)| % 8 != 0
    ensures Position(|Frags(h)|, 7) + GroupCount(|Frags(h)|) - 1 == RowPosition(h, 1, 0)
  {
    hide RowStart, RowLength, Sendable, Split;
    var cnt := |Frags(h)|;
    AllRows(cnt);
    NextRow(cnt, 7);
    RowLengths(cnt, 7);
  }

  lemma RowOutOfReach(cnt: nat, a: Arrived)
    requires cnt > 8 && 7 !in a.data && 0 !in a.rows1
    ensures !Reachable(cnt, a, 0)
  {
    assert Lo(0) <= 7 < Hi(0, cnt);
  }

  /** A burst as long as the group count that takes both: row 2 alone repairs nothing, and the frame is not delivered
      though everything else arrives. */
  lemma ConsecutiveIsFatal(h: HostFrame, no: u32) returns (ds: seq<Arrival>, k: nat)
    requires Sendable(h) && |Frags(h)| > 8 && |Frags(h)| % 8 != 0
    ensures AllButConsecutive(h, no, ds, k, GroupCount(|Frags(h)|)) && !Run(ds).Done?
  {
    hide Position, RowPosition, FromHost, Reachable, Run, Split, Sendable, Tally;
    var n := GroupCount(|Frags(h)|);
    SeventhAndRow(h);
    k := Position(|Frags(h)|, 7);
    ds := Remainder(h, no, k, n);
    assert InBurst(|Frags(h)|, k, n, 7) && RowInBurst(h, k, n, 1, 0);
    RowOutOfReach(|Frags(h)|, Tally(ds));
    NotDelivered(h, no, ds, 7);
  }

  /**
   The burst claim for all the host sends: any burst of at most as many consecutive datagrams as the frame has groups is
   repaired without a re-send, whatever order the rest arrives in, exactly for frames of one group and frames whose
   groups are all full. One datagram fewer is always repaired.
   */
  lemma ConsecutiveRepairedExactly(h: HostFrame, no: u32)
    requires Sendable(h)
    ensures (forall ds: seq<Arrival>, k: nat, burst: nat ::
               AllButConsecutive(h, no, ds, k, burst) && burst <= GroupCount(|Frags(h)|) ==>
                 Run(ds) == Done(h.payload))
       <==> |Frags(h)| <= 8 || |Frags(h)| % 8 == 0
    ensures forall ds: seq<Arrival>, k: nat, burst: nat ::
      AllButConsecutive(h, no, ds, k, burst) && burst < GroupCount(|Frags(h)|) ==> Run(ds) == Done(h.payload)
  {
    hide AllButConsecutive, Run, Split, Sendable;
    forall ds: seq<Arrival>, k: nat, burst: nat |
      AllButConsecutive(h, no, ds, k, burst) && burst < GroupCount(|Frags(h)|)
      ensures Run(ds) == Done(h.payload)
    {
      ShorterIsRepaired(h, no, ds, k, burst);
    }
    if |Frags(h)| <= 8 || |Frags(h)| % 8 == 0 {
      forall ds: seq<Arrival>, k: nat, burst: nat |
        AllButConsecutive(h, no, ds, k, burst) && burst <= GroupCount(|Frags(h)|)
        ensures Run(ds) == Done(h.payload)
      {
        FullIsRepaired(h, no, ds, k, burst);
      }
    } else {
      var ds, k := ConsecutiveIsFatal(h, no);
      assert AllButConsecutive(h, no, ds, k, GroupCount(|Frags(h)|));
    }
  }

  lemma FullIsRepaired(h: HostFrame, no: u32, ds: seq<Arrival>, k: nat, burst: nat)
    requires AllButConsecutive(h, no, ds, k, burst) && burst <= GroupCount(|Frags(h)|)
    requires |Frags(h)| <= 8 || |Frags(h)| % 8 == 0
    ensures Run(ds) == Done(h.payload)
  {
    BurstIsSparse(h, no, ds, k, burst);
    hide Run, Tally, FromHost, SparseLoss, Split, RowInBurst, InBurst;
    SparseLossDelivers(h, no, ds);
  }

  /** A delta of 3840 bytes in fifteen fragments of 256: two consecutive datagrams, fragment 7 and row 1 of the first
      group, and it is not delivered. */
  lemma FifteenFragments() returns (h: HostFrame, ds: seq<Arrival>, k: nat)
    ensures Sendable(h) && h.budget == 256 && |Frags(h)| == 15 && !h.key
    ensures AllButConsecutive(h, 0, ds, k, 2) && !Run(ds).Done?
  {
    h := HostFrame(0, false, seq(3840, _ => 0), 256);
    Fragmenter.SplitCount(h.payload, 256);
    hide AllButConsecutive, Run, Split;
    ds, k := ConsecutiveIsFatal(h, 0);
  }

  // ---- what the second row is for -----------------------------------------------------------------

  /** All the rows the host sends arrive, and everything that arrives is the host's. */
  ghost predicate RowsArrive(h: HostFrame, no: u32, rows: seq<WtFragment>, ds: seq<Arrival>) {
    && Sendable(h) && RowsInOrder(no, h, rows)
    && (forall d | d in ds :: FromHost(d.f, no, h))
    && forall f | f in rows :: exists d :: d in ds && d.f == f
  }

  /** No group misses two members of like parity, and the frame's last fragment is there. */
  ghost predicate PairsLost(cnt: nat, a: Arrived) {
    && (cnt > 0 ==> cnt - 1 in a.data)
    && forall i, j | 0 <= i < j < cnt && i / 8 == j / 8 && i !in a.data && j !in a.data :: (j - i) % 2 == 1
  }

  lemma {:induction false} TallyHas(ds: seq<Arrival>, d: Arrival)
    requires d in ds && (d.f.parity == 1 || d.f.parity == 2)
    ensures d.f.idx in (if d.f.parity == 1 then Tally(ds).rows1 else Tally(ds).rows2)
  {
    var front, last := ds[..|ds| - 1], ds[|ds| - 1];
    if d != last {
      TallyHas(front, d);
    }
  }

  lemma RowArrives(h: HostFrame, no: u32, rows: seq<WtFragment>, ds: seq<Arrival>, row: nat, g: nat)
    requires RowsArrive(h, no, rows, ds) && g < GroupCount(|Frags(h)|)
    requires row == 1 || (row == 2 && |rows| == 2 * GroupCount(|Frags(h)|))
    ensures g in (if row == 1 then Tally(ds).rows1 else Tally(ds).rows2)
  {
    hide FromHost, Tally, RowPayload, Sendable, Split;
    var f := ParityFragment(no, h, row, g);
    assert rows[RowIndex(h, row, g)] == f;
    assert f in rows;
    var d :| d in ds && d.f == f;
    TallyHas(ds, d);
  }

  lemma PairReaches(cnt: nat, a: Arrived, g: nat)
    requires PairsLost(cnt, a) && g < GroupCount(cnt) && g in a.rows1 && g in a.rows2
    ensures Reachable(cnt, a, g)
  {
    hide LengthKnown, OneShort, TwoShort, PairsLost;
    var lo, hi := Lo(g), Hi(g, cnt);
    if m :| lo <= m < hi && m !in a.data {
      if n :| lo <= n < hi && n != m && n !in a.data {
        OnlyThePair(cnt, a, g, m, n);
        PairParity(cnt, a, m, n);
        var e, o := if (m - lo) % 2 == 0 then m else n, if (m - lo) % 2 == 0 then n else m;
        assert {e, o} == {m, n} && Covered(a.data, lo, hi, {e, o});
        BothReach(cnt, a, g, e, o);
      } else {
        assert Covered(a.data, lo, hi, {m});
        LastIsThere(cnt, a, m);
        OneReach(cnt, a, g, m);
      }
    } else {
      assert Whole(cnt, a, g);
    }
  }

  lemma LastIsThere(cnt: nat, a: Arrived, m: nat)
    requires PairsLost(cnt, a) && m < cnt && m !in a.data
    ensures m != cnt - 1
  {}

  lemma PairParity(cnt: nat, a: Arrived, m: nat, n: nat)
    requires PairsLost(cnt, a) && m < cnt && n < cnt && m != n && m / 8 == n / 8 && m !in a.data && n !in a.data
    ensures m != cnt - 1 && n != cnt - 1
    ensures (m - 8 * (m / 8)) % 2 != (n - 8 * (m / 8)) % 2
  {}

  lemma OnlyThePair(cnt: nat, a: Arrived, g: nat, m: nat, n: nat)
    requires PairsLost(cnt, a) && g < GroupCount(cnt) && m != n && m !in a.data && n !in a.data
    requires Lo(g) <= m < Hi(g, cnt) && Lo(g) <= n < Hi(g, cnt)
    ensures Covered(a.data, Lo(g), Hi(g, cnt), {m, n})
  {
    hide PairsLost;
    forall i | Lo(g) <= i < Hi(g, cnt) && i !in {m, n} ensures i in a.data {
      if i !in a.data {
        PairParity(cnt, a, m, n);
        PairParity(cnt, a, m, i);
        PairParity(cnt, a, n, i);
      }
    }
  }

  lemma BothReach(cnt: nat, a: Arrived, g: nat, e: nat, o: nat)
    requires g in a.rows1 && g in a.rows2 && Lo(g) <= e < Hi(g, cnt) && Lo(g) <= o < Hi(g, cnt)
    requires (e - Lo(g)) % 2 == 0 && (o - Lo(g)) % 2 == 1 && e != cnt - 1 && o != cnt - 1
    requires Covered(a.data, Lo(g), Hi(g, cnt), {e, o})
    ensures Reachable(cnt, a, g)
  {
    hide OneShort;
    assert TwoShort(cnt, a, g);
  }

  lemma OneReach(cnt: nat, a: Arrived, g: nat, m: nat)
    requires g in a.rows1 && Lo(g) <= m < Hi(g, cnt) && m != cnt - 1 && Covered(a.data, Lo(g), Hi(g, cnt), {m})
    ensures Reachable(cnt, a, g)
  {
    hide LengthKnown, TwoShort;
    assert OneShort(cnt, a, g);
  }

  /**
   Every keyframe, however small, and every delta of 16 fragments or more survives the loss of an even and an odd member
   of every group at once, the frame's last fragment excepted, if the rows the host sends with it arrive.
   */
  lemma PairsAreRepaired(h: HostFrame, no: u32, rows: seq<WtFragment>, ds: seq<Arrival>)
    requires RowsArrive(h, no, rows, ds) && PairsLost(|Frags(h)|, Tally(ds))
    requires h.key || |Frags(h)| >= 16
    ensures Run(ds) == Done(h.payload)
  {
    hide FromHost, Run, Reachable, Split, Sendable, Tally, PairsLost;
    var cnt, a := |Frags(h)|, Tally(ds);
    forall i | 0 <= i < cnt ensures InClosure(cnt, a, i) {
      RowArrives(h, no, rows, ds, 1, i / 8);
      RowArrives(h, no, rows, ds, 2, i / 8);
      PairReaches(cnt, a, i / 8);
    }
    RunAccounts(h, no, ds);
    SomeFragment(h);
    NothingNotFull(cnt);
  }

  lemma SomeFragment(h: HostFrame)
    requires Sendable(h)
    ensures |Frags(h)| > 0
  {}

  /** A smaller delta goes out with one row per group and no more: nothing of the second row is ever from the host. */
  lemma SmallDeltasGetOneRow(h: HostFrame, no: u32, rows: seq<WtFragment>, f: WtFragment)
    requires Sendable(h) && RowsInOrder(no, h, rows) && !h.key && |Frags(h)| < 16
    ensures |rows| == GroupCount(|Frags(h)|)
    ensures FromHost(f, no, h) ==> f.parity != 2
  {
    hide RowPayload, Split;
  }
}
