/** One frame in flight as the browser holds it: an object each datagram fills in place. */
module AssemblyObject {
  import opened Bytes
  import opened Parity
  import opened Wire
  import opened Assembly

  class V4Assembly {
    const cnt: nat
    const captureUs: nat
    const key: bool
    const atMs: real
    var parts: seq<Option<bytes>>
    var got: nat
    var nacks: nat
    var lastNackMs: real
    var p1: map<nat, bytes>
    var p2: map<nat, bytes>
    var total: Option<nat>

    ghost function Model(): AsmState
      reads this
    {
      AsmState(cnt, parts, got, captureUs, key, atMs, nacks, lastNackMs, p1, p2, total)
    }

    constructor (f: WtFragment, nowMs: real)
      ensures Model() == NewState(f, nowMs)
    {
      cnt := f.cnt;
      captureUs := f.captureUs;
      key := f.key;
      atMs := nowMs;
      parts := NewState(f, nowMs).parts;
      got := 0;
      nacks := 0;
      lastNackMs := 0.0;
      p1 := map[];
      p2 := map[];
      total := None;
    }

    /** The final fragment's true length, read off the first full-sized fragment held. */
    method DeriveFinalLength() returns (len: Option<nat>)
      requires |parts| == cnt
      ensures len == FinalLength(Model())
    {
      if total.None? {
        return None;
      }
      if cnt == 1 {
        return total;
      }
      var i := 0;
      while i < cnt && parts[i].None?
        invariant 0 <= i <= cnt
        invariant forall k | 0 <= k < i :: parts[k].None?
      {
        i := i + 1;
      }
      if i + 1 >= cnt {
        assert cnt > 0 ==> FirstPresent(parts, cnt - 1).None?;
        return None;
      }
      FirstPresentIs(parts, i, cnt - 1);
      var full := |parts[i].value|;
      var rest := total.value - (cnt - 1) * full;
      return if 0 < rest <= full then Some(rest) else None;
    }

    method Missing(lo: nat, hi: nat) returns (missing: seq<nat>)
      requires lo <= hi <= |parts|
      ensures missing == Holes(parts, lo, hi)
    {
      missing := [];
      for i := lo to hi
        invariant missing == Holes(parts, lo, i)
      {
        if parts[i].None? {
          missing := missing + [i];
        }
      }
    }

    /** XORs the fragments of `sel` held in `[lo, hi)` into `acc`. */
    method XorHeld(acc: array<bv8>, lo: nat, hi: nat, sel: set<nat>)
      requires lo <= hi <= |parts|
      requires forall i | lo <= i < hi && i in sel :: parts[i].Some?
      modifies acc
      ensures acc[..] == Accumulate(old(acc[..]), parts, lo, hi, sel)
    {
      hide ByteAt;
      ghost var was := acc[..];
      forall j | 0 <= j < acc.Length ensures acc[j] == was[j] ^ 0 { XorShuffle(was[j], 0, 0); }
      for i := lo to hi
        invariant forall j | 0 <= j < acc.Length :: acc[j] == was[j] ^ Column(Known(parts), lo, i, sel, j)
      {
        ghost var mid := acc[..];
        if i in sel {
          XorInto(acc, parts[i].value);
        }
        forall j | 0 <= j < acc.Length
          ensures acc[j] == was[j] ^ Column(Known(parts), lo, i + 1, sel, j)
        {
          XorShuffle(was[j], Column(Known(parts), lo, i, sel, j), ByteAt(Known(parts)[i], j));
          XorShuffle(Column(Known(parts), lo, i, sel, j), 0, 0);
        }
      }
      assert acc[..] == Accumulate(was, parts, lo, hi, sel);
    }

    method Copy(row: bytes) returns (acc: array<bv8>)
      ensures fresh(acc) && acc[..] == row
    {
      acc := new bv8[|row|](i requires 0 <= i < |row| => row[i]);
    }

    /** The one missing member of a group, from row 1 and the others. */
    method RebuildSingle(g: nat, m: nat) returns (body: bytes)
      requires |parts| == cnt && g < GroupCount(cnt) && g in p1
      requires Lo(g) <= m < Hi(g, cnt)
      requires forall i | Lo(g) <= i < Hi(g, cnt) && i != m :: parts[i].Some?
      ensures body == RebuildOne(Model(), g, m)
    {
      var acc := Copy(p1[g]);
      XorHeld(acc, Lo(g), Hi(g, cnt), Members(Lo(g), Hi(g, cnt)) - {m});
      return acc[..];
    }

    method RebuildPair(g: nat, even: nat, odd: nat) returns (evenBody: bytes, oddBody: bytes)
      requires |parts| == cnt && g < GroupCount(cnt) && g in p1 && g in p2
      requires Lo(g) <= even < Hi(g, cnt) && (even - Lo(g)) % 2 == 0
      requires Lo(g) <= odd < Hi(g, cnt) && (odd - Lo(g)) % 2 == 1
      requires forall i | Lo(g) <= i < Hi(g, cnt) && i != even && i != odd :: parts[i].Some?
      ensures evenBody == RebuildEven(Model(), g, even) && oddBody == RebuildOdd(Model(), g, odd)
    {
      hide Accumulate, XorBytes;
      var lo, hi := Lo(g), Hi(g, cnt);
      var accOdd := Copy(p2[g]);
      XorHeld(accOdd, lo, hi, Odds(lo, hi) - {odd});
      oddBody := accOdd[..];
      var accEven := Copy(p1[g]);
      XorInto(accEven, p2[g]);
      assert accEven[..] == XorBytes(p1[g], p2[g]);
      XorHeld(accEven, lo, hi, Evens(lo, hi) - {even});
      evenBody := accEven[..];
    }

    /** A group with the single hole `m`: filled from row 1, the frame's last fragment cut to its length. */
    method FillSingle(g: nat, m: nat)
      requires |parts| == cnt && g < GroupCount(cnt)
      requires Holes(parts, Lo(g), Hi(g, cnt)) == [m]
      modifies `parts, `got
      ensures |parts| == cnt && Model() == RepairGroup(old(Model()), g)
    {
      hide RebuildOne, Holes, FinalLength, Truncate;
      AllButHoles(parts, Lo(g), Hi(g, cnt));
      if g !in p1 {
        return;
      }
      var len: Option<nat> := None;
      if m == cnt - 1 {
        len := DeriveFinalLength();
        if len.None? {
          return;
        }
      }
      var acc := RebuildSingle(g, m);
      parts := parts[m := Some(if len.None? then acc else Truncate(acc, len.value))];
      got := got + 1;
    }

    /** A group with the two holes `a` and `b`: filled from both rows if they differ in parity and neither is last. */
    method FillPair(g: nat, a: nat, b: nat)
      requires |parts| == cnt && g < GroupCount(cnt) && g in p1 && g in p2
      requires Holes(parts, Lo(g), Hi(g, cnt)) == [a, b]
      modifies `parts, `got
      ensures |parts| == cnt && Model() == RepairGroup(old(Model()), g)
    {
      hide RebuildEven, RebuildOdd, Holes, PlanGroup;
      PairPlan(Model(), g, a, b);
      var lo := Lo(g);
      var aOdd, bOdd := (a - lo) % 2 == 1, (b - lo) % 2 == 1;
      if aOdd == bOdd || a == cnt - 1 || b == cnt - 1 {
        return;
      }
      var even, odd := if aOdd then b else a, if aOdd then a else b;
      var evenBody, oddBody := RebuildPair(g, even, odd);
      parts := parts[even := Some(evenBody)];
      parts := parts[odd := Some(oddBody)];
      got := got + 2;
    }

    /** Repairs one group if the rows held allow it. */
    method RepairOne(g: nat)
      requires |parts| == cnt && g < GroupCount(cnt)
      modifies `parts, `got
      ensures |parts| == cnt && Model() == RepairGroup(old(Model()), g)
    {
      hide RepairGroup, Holes;
      var missing := Missing(Lo(g), Hi(g, cnt));
      if |missing| == 1 {
        assert missing == [missing[0]];
        FillSingle(g, missing[0]);
      } else if |missing| == 2 && g in p1 && g in p2 {
        assert missing == [missing[0], missing[1]];
        FillPair(g, missing[0], missing[1]);
      } else {
        NothingToRepair(Model(), g);
      }
    }

    /** Rebuilds what parity can, group by group. */
    method TryRepair()
      requires |parts| == cnt
      modifies `parts, `got
      ensures |parts| == cnt && Model() == Repair(old(Model()))
    {
      hide RepairGroup;
      for g := 0 to GroupCount(cnt)
        invariant |parts| == cnt && Model() == RepairTo(old(Model()), g)
      {
        RepairOne(g);
      }
    }

    /** Takes one datagram: true if it was stored, false if it was dropped and nothing changed. */
    method Take(f: WtFragment) returns (stored: bool)
      requires |parts| == cnt
      modifies this
      ensures |parts| == cnt
      ensures stored == Absorb(old(Model()), f).Some?
      ensures Model() == if stored then Absorb(old(Model()), f).value else old(Model())
    {
      hide Repair, TrailerTotal;
      if f.parity != 0 {
        if |f.payload| < TRAILER {
          return false;
        }
        total := Some(TrailerTotal(f.payload));
        var row := f.payload[..|f.payload| - TRAILER];
        if f.parity == 1 {
          p1 := p1[f.idx := row];
        } else {
          p2 := p2[f.idx := row];
        }
        TryRepair();
        return true;
      }
      if f.idx >= f.cnt || f.idx >= cnt || parts[f.idx].Some? {
        return false;
      }
      parts := parts[f.idx := Some(f.payload)];
      got := got + 1;
      TryRepair();
      return true;
    }
  }

  lemma AllButHoles(parts: seq<Option<bytes>>, lo: nat, hi: nat)
    requires lo <= hi <= |parts|
    ensures forall i | lo <= i < hi && i !in Holes(parts, lo, hi) :: parts[i].Some?
    ensures forall i | i in Holes(parts, lo, hi) :: lo <= i < hi && parts[i].None?
  {}

  /** What two holes with both rows come to. */
  lemma PairPlan(st: AsmState, g: nat, a: nat, b: nat)
    requires |st.parts| == st.cnt && g < GroupCount(st.cnt) && g in st.p1 && g in st.p2
    requires Holes(st.parts, Lo(g), Hi(g, st.cnt)) == [a, b]
    ensures Lo(g) <= a < Hi(g, st.cnt) && Lo(g) <= b < Hi(g, st.cnt) && a != b
    ensures forall i | Lo(g) <= i < Hi(g, st.cnt) && i != a && i != b :: st.parts[i].Some?
    ensures var aOdd, bOdd := (a - Lo(g)) % 2 == 1, (b - Lo(g)) % 2 == 1;
      if aOdd == bOdd || a == st.cnt - 1 || b == st.cnt - 1 then PlanGroup(st, g) == Skip
      else
        var even, odd := if aOdd then b else a, if aOdd then a else b;
        PlanGroup(st, g) == Two(even, odd, RebuildEven(st, g, even), RebuildOdd(st, g, odd))
  {
    hide RebuildEven, RebuildOdd, Holes, FinalLength, RebuildOne, Truncate;
    AllButHoles(st.parts, Lo(g), Hi(g, st.cnt));
    assert a in [a, b] && b in [a, b] && [a, b][0] == a && [a, b][1] == b;
  }

  lemma NothingToRepair(st: AsmState, g: nat)
    requires |st.parts| == st.cnt && g < GroupCount(st.cnt)
    requires var n := |Holes(st.parts, Lo(g), Hi(g, st.cnt))|;
      n != 1 && !(n == 2 && g in st.p1 && g in st.p2)
    ensures RepairGroup(st, g) == st
  {}

  lemma {:induction false} FirstPresentIs(parts: seq<Option<bytes>>, i: nat, n: nat)
    requires i < n <= |parts| && parts[i].Some? && forall k | 0 <= k < i :: parts[k].None?
    ensures FirstPresent(parts, n) == Some(i)
  {
    if n > i + 1 {
      FirstPresentIs(parts, i, n - 1);
    }
  }
}
