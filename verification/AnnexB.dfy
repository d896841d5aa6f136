/** Annex-B byte streams: finding the NAL units, and rewriting start codes as lengths. */
module AnnexB {
  import opened Bytes

  /** The three-byte start code at `i`. */
  predicate IsCode(b: bytes, i: int) {
    0 <= i && i + 3 <= |b| && b[i] == 0 && b[i + 1] == 0 && b[i + 2] == 1
  }

  // ---- what a stream's NAL units are ------------------------------------------------

  function FirstCode(b: bytes): (r: Option<nat>)
    ensures r.Some? ==> IsCode(b, r.value) && forall i | 0 <= i < r.value :: !IsCode(b, i)
    ensures r.None? ==> forall i :: !IsCode(b, i)
  {
    if |b| < 3 then None
    else if IsCode(b, 0) then Some(0)
    else
      assert forall i | i > 0 :: IsCode(b, i) <==> IsCode(b[1..], i - 1);
      var r := FirstCode(b[1..]);
      if r.None? then None else Some(r.value + 1)
  }

  function Trim(b: bytes): (r: bytes)
    ensures |r| <= |b| && r == b[..|r|]
    ensures r == [] || r[|r| - 1] != 0
  {
    if |b| > 0 && b[|b| - 1] == 0 then Trim(b[..|b| - 1]) else b
  }

  /** The NAL units of what follows a start code. */
  function NalsAfter(b: bytes): (r: seq<bytes>)
    ensures |r| > 0
    decreases |b|
  {
    var next := FirstCode(b);
    if next.None? then [Trim(b)] else [Trim(b[..next.value])] + NalsAfter(b[next.value + 3..])
  }

  function Nals(b: bytes): seq<bytes> {
    var first := FirstCode(b);
    if first.None? then [] else NalsAfter(b[first.value + 3..])
  }

  /** No start code inside and no zero at the end: what a NAL unit can be. */
  ghost predicate Clean(n: bytes) {
    (forall i :: !IsCode(n, i)) && (n == [] || n[|n| - 1] != 0)
  }

  lemma TrimClean(b: bytes)
    requires forall i :: !IsCode(b, i)
    ensures Clean(Trim(b))
  {
    forall i ensures !IsCode(Trim(b), i) {
      assert IsCode(Trim(b), i) ==> IsCode(b, i);
    }
  }

  lemma {:induction false} NalsAfterClean(b: bytes)
    ensures forall n | n in NalsAfter(b) :: Clean(n)
    decreases |b|
  {
    var next := FirstCode(b);
    if next.None? {
      TrimClean(b);
    } else {
      var head := b[..next.value];
      forall i ensures !IsCode(head, i) {
        assert IsCode(head, i) ==> i < next.value && IsCode(b, i);
      }
      TrimClean(head);
      NalsAfterClean(b[next.value + 3..]);
    }
  }

  // ---- joining, and why splitting undoes it ----------------------------------------------

  function Zeros(n: nat): (r: bytes)
    ensures |r| == n && forall i | 0 <= i < n :: r[i] == 0
  {
    seq(n, _ => 0)
  }

  /** Each NAL unit behind a start code of `zeros[k]` zero bytes and a one, two or more zeros to each. */
  function Join(nals: seq<bytes>, zeros: seq<nat>): bytes
    requires |zeros| == |nals|
  {
    if |nals| == 0 then [] else Zeros(zeros[0]) + [1] + nals[0] + Join(nals[1..], zeros[1..])
  }

  /** After a clean NAL unit the next start code is the next code. */
  lemma {:induction false} CodeFollows(n: bytes, z: nat, t: bytes)
    requires Clean(n) && z >= 2
    ensures FirstCode(n + Zeros(z) + [1] + t) == Some(|n| + z - 2)
    decreases |n| + z
  {
    var b := n + Zeros(z) + [1] + t;
    if |n| > 0 {
      assert !IsCode(b, 0) by { assert IsCode(b, 0) && |n| >= 3 ==> IsCode(n, 0); }
      assert b[1..] == n[1..] + Zeros(z) + [1] + t;
      forall i ensures !IsCode(n[1..], i) { assert IsCode(n[1..], i) ==> IsCode(n, i + 1); }
      CodeFollows(n[1..], z, t);
    } else if z > 2 {
      assert b[1..] == n + Zeros(z - 1) + [1] + t;
      CodeFollows(n, z - 1, t);
    }
  }

  lemma {:induction false} TrimPadding(n: bytes, z: nat)
    requires n == [] || n[|n| - 1] != 0
    ensures Trim(n + Zeros(z)) == n
  {
    if z > 0 {
      assert (n + Zeros(z))[..|n| + z - 1] == n + Zeros(z - 1);
      TrimPadding(n, z - 1);
    } else {
      assert n + Zeros(0) == n;
    }
  }

  lemma NoCodeInPadding(n: bytes, z: nat)
    requires Clean(n)
    ensures FirstCode(n + Zeros(z)) == None
  {
    var b := n + Zeros(z);
    forall i ensures !IsCode(b, i) {
      assert IsCode(b, i) ==> i + 3 <= |n| && IsCode(n, i);
    }
  }

  lemma CodeFits(b: bytes, i: nat)
    requires FirstCode(b) == Some(i)
    ensures i + 3 <= |b|
  {
    assert IsCode(b, i);
  }

  lemma NalsAfterStep(b: bytes, i: nat)
    requires FirstCode(b) == Some(i) && i + 3 <= |b|
    ensures NalsAfter(b) == [Trim(b[..i])] + NalsAfter(b[i + 3..])
  {
    hide FirstCode, Trim, IsCode;
  }

  lemma NalsStep(b: bytes, i: nat)
    requires FirstCode(b) == Some(i)
    ensures i + 3 <= |b| && NalsAfter(b) == [Trim(b[..i])] + NalsAfter(b[i + 3..])
    ensures Nals(b) == NalsAfter(b[i + 3..])
  {
    hide FirstCode, Trim, IsCode, NalsAfter;
    CodeFits(b, i);
    NalsAfterStep(b, i);
  }

  lemma NalsLast(b: bytes)
    requires FirstCode(b) == None
    ensures NalsAfter(b) == [Trim(b)] && Nals(b) == []
  {}

  lemma JoinShape(n: bytes, z: nat, rest: bytes)
    requires z >= 2
    ensures var b := n + Zeros(z) + [1] + rest;
      b[..|n| + z - 2] == n + Zeros(z - 2) && b[|n| + z + 1..] == rest
  {}

  lemma JoinStep(nals: seq<bytes>, zeros: seq<nat>, tail: bytes)
    requires |zeros| == |nals| > 0
    ensures Join(nals, zeros) + tail == Zeros(zeros[0]) + [1] + (nals[0] + Join(nals[1..], zeros[1..]) + tail)
  {}

  lemma {:induction false} SplitAfterJoin(n: bytes, nals: seq<bytes>, zeros: seq<nat>, pad: nat)
    requires |zeros| == |nals| && Clean(n)
    requires (forall k | 0 <= k < |nals| :: Clean(nals[k])) && forall k | 0 <= k < |zeros| :: zeros[k] >= 2
    ensures NalsAfter(n + (Join(nals, zeros) + Zeros(pad))) == [n] + nals
    decreases |nals|
  {
    hide FirstCode, Clean, IsCode, NalsAfter, Nals, Trim, Join;
    CleanEnds(n);
    if |nals| == 0 {
      EmptyJoin();
      assert Join(nals, zeros) + Zeros(pad) == Zeros(pad);
      NoCodeInPadding(n, pad);
      TrimPadding(n, pad);
      NalsLast(n + Zeros(pad));
    } else {
      var z, rest := zeros[0], nals[0] + (Join(nals[1..], zeros[1..]) + Zeros(pad));
      JoinStep(nals, zeros, Zeros(pad));
      assert nals[0] + Join(nals[1..], zeros[1..]) + Zeros(pad) == rest;
      var b := n + Zeros(z) + [1] + rest;
      assert n + (Join(nals, zeros) + Zeros(pad)) == b;
      CodeFollows(n, z, rest);
      JoinShape(n, z, rest);
      TrimPadding(n, z - 2);
      NalsStep(b, |n| + z - 2);
      SplitAfterJoin(nals[0], nals[1..], zeros[1..], pad);
      assert [nals[0]] + nals[1..] == nals;
    }
  }

  lemma EmptyJoin()
    ensures Join([], []) == []
  {}

  lemma CleanEnds(n: bytes)
    requires Clean(n)
    ensures n == [] || n[|n| - 1] != 0
  {}

  lemma NoneInZeros(pad: nat)
    ensures FirstCode(Zeros(pad)) == None
  {
    forall i ensures !IsCode(Zeros(pad), i) {}
  }

  /**
   Splitting undoes joining, for any mix of start-code lengths and any padding, exactly for lists of clean NAL
   units: no other list comes back.
   */
  lemma SplitInvertsJoin(nals: seq<bytes>, zeros: seq<nat>, pad: nat)
    requires |zeros| == |nals| && forall k | 0 <= k < |zeros| :: zeros[k] >= 2
    ensures Nals(Join(nals, zeros) + Zeros(pad)) == nals <==> forall k | 0 <= k < |nals| :: Clean(nals[k])
  {
    hide Clean, Nals, Join, FirstCode;
    SplitsClean(Join(nals, zeros) + Zeros(pad));
    if Nals(Join(nals, zeros) + Zeros(pad)) == nals {
      forall k | 0 <= k < |nals| ensures Clean(nals[k]) { assert nals[k] in nals; }
    }
    if forall k | 0 <= k < |nals| :: Clean(nals[k]) {
      SplitOfJoin(nals, zeros, pad);
    }
  }

  lemma SplitOfJoin(nals: seq<bytes>, zeros: seq<nat>, pad: nat)
    requires |zeros| == |nals| && forall k | 0 <= k < |zeros| :: zeros[k] >= 2
    requires forall k | 0 <= k < |nals| :: Clean(nals[k])
    ensures Nals(Join(nals, zeros) + Zeros(pad)) == nals
  {
    hide FirstCode, Clean, IsCode, NalsAfter, Nals, Trim, Join;
    if |nals| == 0 {
      EmptyJoin();
      assert Join(nals, zeros) + Zeros(pad) == Zeros(pad);
      NoneInZeros(pad);
      NalsLast(Zeros(pad));
    } else {
      var z, rest := zeros[0], nals[0] + (Join(nals[1..], zeros[1..]) + Zeros(pad));
      JoinStep(nals, zeros, Zeros(pad));
      assert nals[0] + Join(nals[1..], zeros[1..]) + Zeros(pad) == rest;
      var b := [] + Zeros(z) + [1] + rest;
      assert Join(nals, zeros) + Zeros(pad) == b;
      EmptyIsClean();
      CodeFollows([], z, rest);
      JoinShape([], z, rest);
      NalsStep(b, z - 2);
      SplitAfterJoin(nals[0], nals[1..], zeros[1..], pad);
      assert [nals[0]] + nals[1..] == nals;
    }
  }

  lemma EmptyIsClean()
    ensures Clean([])
  {}

  /** Every NAL unit split out of any byte string is clean. */
  lemma SplitsClean(b: bytes)
    ensures forall n | n in Nals(b) :: Clean(n)
  {
    hide Clean;
    if FirstCode(b).Some? {
      NalsAfterClean(b[FirstCode(b).value + 3..]);
    }
  }

  // ---- the scanning loops --------------------------------------------------------------------

  /** Where the start codes from `i` on are. */
  function Marks(b: bytes, i: nat): (r: seq<nat>)
    ensures forall k | 0 <= k < |r| :: i <= r[k] && r[k] + 3 <= |b|
    ensures forall j, k | 0 <= j < k < |r| :: r[j] + 3 <= r[k]
    decreases |b| - i
  {
    if i + 2 >= |b| then []
    else if IsCode(b, i) then [i] + Marks(b, i + 3)
    else Marks(b, i + 1)
  }

  /** The bytes of the `k`-th NAL unit before its zeros are trimmed. */
  function RawNal(b: bytes, marks: seq<nat>, k: nat): bytes
    requires k < |marks| && marks[k] + 3 <= |b|
    requires k + 1 < |marks| ==> marks[k] + 3 <= marks[k + 1] <= |b|
  {
    b[marks[k] + 3..if k + 1 < |marks| then marks[k + 1] else |b|]
  }

  lemma {:induction false} MarksFirst(b: bytes, i: nat)
    requires i <= |b|
    ensures var m, f := Marks(b, i), FirstCode(b[i..]);
      if |m| == 0 then f.None? else f == Some(m[0] - i) && m[1..] == Marks(b, m[0] + 3)
    decreases |b| - i
  {
    if i + 2 < |b| {
      assert IsCode(b[i..], 0) <==> IsCode(b, i);
      if IsCode(b, i) {
        assert Marks(b, i)[1..] == Marks(b, i + 3);
      } else {
        assert b[i..][1..] == b[i + 1..];
        MarksFirst(b, i + 1);
      }
    }
  }

  /** The units after a code at `s`, read off the marks `m` found from there. */
  ghost predicate ReadOff(b: bytes, s: nat, m: seq<nat>, nals: seq<bytes>) {
    && s <= |b| && |nals| == |m| + 1
    && (forall k | 0 <= k < |m| :: m[k] + 3 <= |b| && (k + 1 < |m| ==> m[k] + 3 <= m[k + 1]))
    && (|m| > 0 ==> s <= m[0])
    && nals[0] == Trim(b[s..if |m| > 0 then m[0] else |b|])
    && forall k | 0 <= k < |m| :: nals[k + 1] == Trim(RawNal(b, m, k))
  }

  lemma ReadOffCons(b: bytes, s: nat, m: seq<nat>, nals: seq<bytes>)
    requires |m| > 0 && s <= m[0] && m[0] + 3 <= |b| && ReadOff(b, m[0] + 3, m[1..], nals)
    ensures ReadOff(b, s, m, [Trim(b[s..m[0]])] + nals)
  {
    hide Trim;
    var all := [Trim(b[s..m[0]])] + nals;
    forall k | 0 <= k < |m|
      ensures m[k] + 3 <= |b| && (k + 1 < |m| ==> m[k] + 3 <= m[k + 1])
      ensures all[k + 1] == Trim(RawNal(b, m, k))
    {
      if k > 0 {
        assert m[1..][k - 1] == m[k];
        assert RawNal(b, m, k) == RawNal(b, m[1..], k - 1);
      }
    }
  }

  lemma {:induction false} NalsAfterAt(b: bytes, s: nat)
    requires s <= |b|
    ensures ReadOff(b, s, Marks(b, s), NalsAfter(b[s..]))
    decreases |b| - s
  {
    hide FirstCode, Trim, NalsAfter, Nals, Marks, ReadOff, IsCode;
    var m := Marks(b, s);
    MarksFirst(b, s);
    if |m| > 0 {
      NalsStep(b[s..], m[0] - s);
      assert b[s..][..m[0] - s] == b[s..m[0]];
      assert b[s..][m[0] - s + 3..] == b[m[0] + 3..];
      NalsAfterAt(b, m[0] + 3);
      ReadOffCons(b, s, m, NalsAfter(b[m[0] + 3..]));
    } else {
      NalsLast(b[s..]);
      assert b[s..|b|] == b[s..];
      ReadOffNone(b, s, m);
    }
  }

  lemma ReadOffNone(b: bytes, s: nat, m: seq<nat>)
    requires s <= |b| && m == []
    ensures ReadOff(b, s, m, [Trim(b[s..|b|])])
  {}

  lemma ReadOffAt(b: bytes, s: nat, m: seq<nat>, nals: seq<bytes>, k: nat)
    requires |m| > 0 && m[0] + 3 == s && ReadOff(b, s, m[1..], nals)
    requires forall j | 0 <= j < |m| :: m[j] + 3 <= |b|
    requires forall j | 0 <= j < |m| - 1 :: m[j] + 3 <= m[j + 1]
    ensures |nals| == |m|
    ensures k < |m| ==> nals[k] == Trim(RawNal(b, m, k))
  {
    hide Trim;
    if 0 < k < |m| {
      assert nals[k - 1 + 1] == Trim(RawNal(b, m[1..], k - 1));
      assert RawNal(b, m, k) == RawNal(b, m[1..], k - 1);
    }
  }

  lemma NalsAt(b: bytes, k: nat)
    ensures var m := Marks(b, 0);
      && |Nals(b)| == |m|
      && (k < |m| ==> Nals(b)[k] == Trim(RawNal(b, m, k)))
  {
    hide FirstCode, Trim, NalsAfter, Nals, Marks, ReadOff, RawNal, IsCode;
    var m := Marks(b, 0);
    assert b[0..] == b;
    MarksFirst(b, 0);
    if |m| > 0 {
      NalsStep(b, m[0]);
      NalsAfterAt(b, m[0] + 3);
      ReadOffAt(b, m[0] + 3, m, NalsAfter(b[m[0] + 3..]), k);
    } else {
      NalsLast(b);
    }
  }

  method FindCodes(au: bytes) returns (triplets: seq<nat>)
    ensures triplets == Marks(au, 0)
  {
    triplets := [];
    var i := 0;
    assert [] + Marks(au, 0) == Marks(au, 0);
    while i + 2 < |au|
      invariant triplets + Marks(au, i) == Marks(au, 0)
      decreases |au| - i
    {
      if au[i] == 0 && au[i + 1] == 0 && au[i + 2] == 1 {
        assert triplets + ([i] + Marks(au, i + 3)) == (triplets + [i]) + Marks(au, i + 3);
        triplets := triplets + [i];
        i := i + 3;
      } else {
        i := i + 1;
      }
    }
    assert triplets + [] == triplets;
  }

  /** The NAL units of an access unit, start codes and trailing zeros removed. */
  method AnnexbNals(au: bytes) returns (nals: seq<bytes>)
    ensures nals == Nals(au)
  {
    hide Trim, Nals;
    var triplets := FindCodes(au);
    nals := [];
    NalsAt(au, 0);
    for k := 0 to |triplets|
      invariant nals == Nals(au)[..k]
    {
      NalsAt(au, k);
      var slice := RawNal(au, triplets, k);
      while |slice| > 0 && slice[|slice| - 1] == 0
        invariant Trim(slice) == Trim(RawNal(au, triplets, k))
        decreases |slice|
      {
        TrimStep(slice);
        slice := slice[..|slice| - 1];
      }
      TrimDone(slice);
      nals := nals + [slice];
    }
  }

  lemma TrimStep(b: bytes)
    requires |b| > 0 && b[|b| - 1] == 0
    ensures Trim(b) == Trim(b[..|b| - 1])
  {}

  lemma TrimDone(b: bytes)
    requires |b| == 0 || b[|b| - 1] != 0
    ensures Trim(b) == b
  {}

  /** A NAL unit behind its length in four bytes, most significant first. */
  function Prefixed(nals: seq<bytes>): bytes {
    if |nals| == 0 then [] else Prefixed(nals[..|nals| - 1]) + Be(|nals[|nals| - 1]|, 4) + nals[|nals| - 1]
  }

  /** Where the unit from `start` on ends once its trailing zeros are cut off. */
  method TrimmedEnd(au: bytes, start: nat, end: nat) returns (nalEnd: nat)
    requires start <= end <= |au|
    ensures start <= nalEnd <= end && au[start..nalEnd] == Trim(au[start..end])
  {
    hide Trim;
    nalEnd := end;
    while nalEnd > start && au[nalEnd - 1] == 0
      invariant start <= nalEnd <= end
      invariant Trim(au[start..nalEnd]) == Trim(au[start..end])
    {
      TrimStep(au[start..nalEnd]);
      assert au[start..nalEnd][..nalEnd - start - 1] == au[start..nalEnd - 1];
      nalEnd := nalEnd - 1;
    }
    TrimDone(au[start..nalEnd]);
  }

  /** Every start code of every byte string becomes the length of the NAL unit behind it. */
  method AnnexbToLengthPrefixed(au: bytes) returns (out: bytes)
    ensures out == Prefixed(Nals(au))
  {
    hide Trim, Nals, Be, Prefixed, Marks;
    var triplets := FindCodes(au);
    out := [];
    NalsAt(au, 0);
    NoUnits();
    for k := 0 to |triplets|
      invariant out == Prefixed(Nals(au)[..k])
    {
      NalsAt(au, k);
      var start := triplets[k] + 3;
      var end := if k + 1 < |triplets| then triplets[k + 1] else |au|;
      var nalEnd := TrimmedEnd(au, start, end);
      out := out + Be(nalEnd - start, 4) + au[start..nalEnd];
      assert Nals(au)[..k + 1] == Nals(au)[..k] + [au[start..nalEnd]];
      PrefixedSnoc(Nals(au)[..k], au[start..nalEnd]);
    }
    assert Nals(au)[..|triplets|] == Nals(au);
  }

  lemma PrefixedSnoc(nals: seq<bytes>, n: bytes)
    ensures Prefixed(nals + [n]) == Prefixed(nals) + Be(|n|, 4) + n
  {
    assert (nals + [n])[..|nals|] == nals;
  }

  /** The player's side of the rewritten form: units read back by their lengths. */
  function ReadPrefixed(b: bytes): Option<seq<bytes>>
    decreases |b|
  {
    if |b| == 0 then Some([])
    else if |b| < 4 || |b| < 4 + FromBe(b[..4]) then None
    else
      var n := FromBe(b[..4]);
      var rest := ReadPrefixed(b[4 + n..]);
      if rest.None? then None else Some([b[4..4 + n]] + rest.value)
  }

  lemma {:induction false} PrefixedFront(nals: seq<bytes>)
    requires |nals| > 0
    ensures Prefixed(nals) == Be(|nals[0]|, 4) + nals[0] + Prefixed(nals[1..])
  {
    hide Be;
    if |nals| > 1 {
      var front := nals[..|nals| - 1];
      PrefixedFront(front);
      assert front[1..] == nals[1..][..|nals| - 2];
    } else {
      assert nals[..0] == [] && nals[1..] == [];
    }
  }

  /** The rewriting loses nothing: the NAL units come back from the lengths, whatever bytes they hold. */
  lemma {:induction false} LengthsReadBack(nals: seq<bytes>)
    requires forall n | n in nals :: |n| < TWO32
    ensures ReadPrefixed(Prefixed(nals)) == Some(nals)
  {
    hide Be, FromBe, Prefixed;
    if |nals| == 0 {
      assert Prefixed(nals) == [] by { NoUnits(); }
    } else {
      PrefixedFront(nals);
      var b, n := Prefixed(nals), |nals[0]|;
      Widths();
      BeInverse(n, 4);
      assert b[..4] == Be(n, 4) && b[4..4 + n] == nals[0] && b[4 + n..] == Prefixed(nals[1..]);
      LengthsReadBack(nals[1..]);
      assert [nals[0]] + nals[1..] == nals;
    }
  }

  lemma NoUnits()
    ensures Prefixed([]) == []
  {}
}
