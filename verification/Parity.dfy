/**
 The host's half of the erasure code: cutting a frame into datagram-sized
 fragments, and the XOR rows sent beside them, one or two per group of eight.
 */
module Parity {
  import opened Arith
  import opened Bytes

  const TRAILER := 4
  const TWO_ROW_MIN_FRAGMENTS := 16

  // ---- XOR columns -------------------------------------------------------

  function ByteAt(p: bytes, j: nat): bv8 {
    if j < |p| then p[j] else 0
  }

  /** XOR of byte `j` over the members of `sel` in `[lo, hi)`, short parts read as zero-padded. */
  function Column(parts: seq<bytes>, lo: nat, hi: nat, sel: set<nat>, j: nat): bv8
    requires lo <= hi <= |parts|
  {
    if lo == hi then 0
    else Column(parts, lo, hi - 1, sel, j) ^ (if hi - 1 in sel then ByteAt(parts[hi - 1], j) else 0)
  }

  lemma {:induction false} ColumnNone(parts: seq<bytes>, lo: nat, hi: nat, sel: set<nat>, j: nat)
    requires lo <= hi <= |parts|
    requires forall i | lo <= i < hi :: i !in sel
    ensures Column(parts, lo, hi, sel, j) == 0
  {
    if lo < hi {
      ColumnNone(parts, lo, hi - 1, sel, j);
    }
  }

  /** XOR of two selections is the XOR over the members they do not share. */
  lemma {:induction false} ColumnXor(parts: seq<bytes>, lo: nat, hi: nat, s: set<nat>, t: set<nat>, j: nat)
    requires lo <= hi <= |parts|
    ensures Column(parts, lo, hi, s, j) ^ Column(parts, lo, hi, t, j)
         == Column(parts, lo, hi, (s - t) + (t - s), j)
  {
    if lo < hi {
      ColumnXor(parts, lo, hi - 1, s, t, j);
      XorShuffle(Column(parts, lo, hi - 1, s, j), Column(parts, lo, hi - 1, t, j), ByteAt(parts[hi - 1], j));
    }
  }

  lemma XorShuffle(a: bv8, b: bv8, c: bv8)
    ensures (a ^ c) ^ b == (a ^ b) ^ c
    ensures a ^ (b ^ c) == (a ^ b) ^ c
    ensures (a ^ c) ^ (b ^ c) == a ^ b
    ensures a ^ 0 == a
  {}

  lemma {:induction false} ColumnOne(parts: seq<bytes>, lo: nat, hi: nat, m: nat, j: nat)
    requires lo <= m < hi <= |parts|
    ensures Column(parts, lo, hi, {m}, j) == ByteAt(parts[m], j)
  {
    if m == hi - 1 {
      ColumnNone(parts, lo, hi - 1, {m}, j);
    } else {
      ColumnOne(parts, lo, hi - 1, m, j);
    }
  }

  lemma {:induction false} ColumnAgree(a: seq<bytes>, b: seq<bytes>, lo: nat, hi: nat, sel: set<nat>, j: nat)
    requires lo <= hi <= |a| == |b|
    requires forall i | 0 <= i < |a| :: i in sel ==> a[i] == b[i]
    ensures Column(a, lo, hi, sel, j) == Column(b, lo, hi, sel, j)
  {
    if lo < hi {
      ColumnAgree(a, b, lo, hi - 1, sel, j);
      assert hi - 1 in sel ==> a[hi - 1] == b[hi - 1];
    }
  }

  /** The sum over a set cancels against the sum over all of it but `m`, leaving `m`. */
  lemma Solve(parts: seq<bytes>, lo: nat, hi: nat, s: set<nat>, m: nat, j: nat)
    requires lo <= m < hi <= |parts|
    requires m in s
    ensures Column(parts, lo, hi, s, j) ^ Column(parts, lo, hi, s - {m}, j) == ByteAt(parts[m], j)
  {
    ColumnXor(parts, lo, hi, s, s - {m}, j);
    assert (s - (s - {m})) + ((s - {m}) - s) == {m};
    ColumnOne(parts, lo, hi, m, j);
  }

  // ---- groups ------------------------------------------------------------

  function GroupCount(cnt: nat): nat { (cnt + 7) / 8 }

  function Lo(g: nat): nat { 8 * g }

  function Hi(g: nat, cnt: nat): nat { if 8 * g + 8 <= cnt then 8 * g + 8 else cnt }

  function Members(lo: nat, hi: nat): (s: set<nat>)
    ensures forall i :: i in s <==> lo <= i < hi
  {
    if hi <= lo then {} else Members(lo, hi - 1) + {hi - 1}
  }

  function Odds(lo: nat, hi: nat): (s: set<nat>)
    ensures forall i :: i in s <==> lo <= i < hi && (i - lo) % 2 == 1
  {
    set i | i in Members(lo, hi) && (i - lo) % 2 == 1
  }

  function Evens(lo: nat, hi: nat): (s: set<nat>)
    ensures forall i :: i in s <==> lo <= i < hi && (i - lo) % 2 == 0
  {
    set i | i in Members(lo, hi) && (i - lo) % 2 == 0
  }

  /** Longest of the parts in `[lo, hi)`, 0 when there is none. */
  function Width(parts: seq<bytes>, lo: nat, hi: nat): (w: nat)
    requires lo <= hi <= |parts|
    ensures forall i | lo <= i < hi :: |parts[i]| <= w
    ensures w == 0 || exists i | lo <= i < hi :: |parts[i]| == w
  {
    if lo == hi then 0
    else
      var w := Width(parts, lo, hi - 1);
      if |parts[hi - 1]| > w then |parts[hi - 1]| else w
  }

  function TotalLen(frags: seq<bytes>): nat { |Concat(frags)| }

  /** Row 1 covers the whole group; row 2 its members at odd offsets. */
  function RowSet(row: nat, lo: nat, hi: nat): set<nat> {
    if row == 1 then Members(lo, hi) else Odds(lo, hi)
  }

  function Row(frags: seq<bytes>, row: nat, g: nat): (r: bytes)
    requires g < GroupCount(|frags|)
    ensures |r| == Width(frags, Lo(g), Hi(g, |frags|))
    ensures forall j | 0 <= j < |r| ::
      r[j] == Column(frags, Lo(g), Hi(g, |frags|), RowSet(row, Lo(g), Hi(g, |frags|)), j)
  {
    var lo, hi := Lo(g), Hi(g, |frags|);
    seq(Width(frags, lo, hi), j requires 0 <= j => Column(frags, lo, hi, RowSet(row, lo, hi), j))
  }

  /** A row as it goes on the wire: the XOR bytes, then the frame's length in four bytes. */
  function RowPayload(frags: seq<bytes>, row: nat, g: nat): bytes
    requires g < GroupCount(|frags|)
  {
    Row(frags, row, g) + Le(TotalLen(frags), 4)
  }

  predicate WantsTwoParityRows(key: bool, cnt: nat) {
    key || cnt >= TWO_ROW_MIN_FRAGMENTS
  }

  // ---- the host's encoder loop ---------------------------------------------

  /** XORs `p` into the front of `row`, as the encoder and the decoder both do. */
  method XorInto(row: array<bv8>, p: bytes)
    modifies row
    ensures forall j | 0 <= j < row.Length :: row[j] == old(row[j]) ^ ByteAt(p, j)
  {
    var n := if |p| < row.Length then |p| else row.Length;
    for j := 0 to n
      invariant forall k | 0 <= k < j :: row[k] == old(row[k]) ^ p[k]
      invariant forall k | j <= k < row.Length :: row[k] == old(row[k])
    {
      row[j] := row[j] ^ p[j];
    }
    forall k | n <= k < row.Length
      ensures old(row[k]) ^ 0 == old(row[k])
    {
      XorShuffle(old(row[k]), 0, 0);
    }
  }

  method FragmentParity(frags: seq<bytes>, twoRows: bool) returns (out: seq<(nat, bytes)>)
    ensures |out| == if twoRows then 2 * GroupCount(|frags|) else GroupCount(|frags|)
    ensures !twoRows ==> forall g | 0 <= g < GroupCount(|frags|) :: out[g] == (1, RowPayload(frags, 1, g))
    ensures twoRows ==> forall g | 0 <= g < GroupCount(|frags|) ::
      out[2 * g] == (1, RowPayload(frags, 1, g)) && out[2 * g + 1] == (2, RowPayload(frags, 2, g))
  {
    out := [];
    for g := 0 to GroupCount(|frags|)
      invariant |out| == if twoRows then 2 * g else g
      invariant !twoRows ==> forall k | 0 <= k < g :: out[k] == (1, RowPayload(frags, 1, k))
      invariant twoRows ==> forall k | 0 <= k < g ::
        out[2 * k] == (1, RowPayload(frags, 1, k)) && out[2 * k + 1] == (2, RowPayload(frags, 2, k))
    {
      var row1, row2 := GroupRows(frags, g);
      var total := Le(TotalLen(frags), 4);
      out := out + [(1, row1 + total)];
      if twoRows {
        out := out + [(2, row2 + total)];
      }
    }
  }

  /** One more member XORed in, or passed over. */
  lemma ColumnStep(frags: seq<bytes>, lo: nat, i: nat, sel: set<nat>, j: nat)
    requires lo <= i < |frags|
    ensures Column(frags, lo, i + 1, sel, j)
         == if i in sel then Column(frags, lo, i, sel, j) ^ ByteAt(frags[i], j) else Column(frags, lo, i, sel, j)
  {
    hide ByteAt;
    XorShuffle(Column(frags, lo, i, sel, j), 0, 0);
  }

  method GroupRows(frags: seq<bytes>, g: nat) returns (r1: bytes, r2: bytes)
    requires g < GroupCount(|frags|)
    ensures r1 == Row(frags, 1, g) && r2 == Row(frags, 2, g)
  {
    hide Members, Odds, ByteAt, Width, Column;
    var lo, hi := Lo(g), Hi(g, |frags|);
    var width := Width(frags, lo, hi);
    var row1 := new bv8[width](_ => 0);
    var row2 := new bv8[width](_ => 0);
    ColumnStart(frags, lo);
    for i := lo to hi
      invariant forall j | 0 <= j < width :: row1[j] == Column(frags, lo, i, Members(lo, hi), j)
      invariant forall j | 0 <= j < width :: row2[j] == Column(frags, lo, i, Odds(lo, hi), j)
    {
      forall j | 0 <= j < width
        ensures Column(frags, lo, i + 1, Members(lo, hi), j) == row1[j] ^ ByteAt(frags[i], j)
        ensures Column(frags, lo, i + 1, Odds(lo, hi), j)
             == if (i - lo) % 2 == 1 then row2[j] ^ ByteAt(frags[i], j) else row2[j]
      {
        ColumnStep(frags, lo, i, Members(lo, hi), j);
        ColumnStep(frags, lo, i, Odds(lo, hi), j);
      }
      XorInto(row1, frags[i]);
      if (i - lo) % 2 == 1 {
        XorInto(row2, frags[i]);
      }
    }
    r1, r2 := row1[..], row2[..];
  }

  lemma ColumnStart(frags: seq<bytes>, lo: nat)
    requires lo <= |frags|
    ensures forall sel, j: nat :: Column(frags, lo, lo, sel, j) == 0
  {}

  // ---- the host's fragmenter -------------------------------------------------

  /** One frame as the host holds it; `budget` is the datagram payload it cuts to. */
  datatype HostFrame = HostFrame(captureUs: nat, key: bool, payload: bytes, budget: nat)

  function Split(p: bytes, budget: nat): (s: seq<bytes>)
    requires budget > 0
    ensures |s| > 0
    decreases |p|
  {
    if |p| <= budget then [p] else [p[..budget]] + Split(p[budget..], budget)
  }

  /** Fragment `i` is the slice from `i * budget` to `(i + 1) * budget` or the payload's end, and there are
      as many as it takes to reach the end, never fewer than one. */
  lemma {:induction false} SplitIsSliced(p: bytes, budget: nat, i: nat)
    requires budget > 0
    requires i < |Split(p, budget)|
    ensures 0 <= i * budget <= |p|
    ensures Split(p, budget)[i] ==
      if (i + 1) * budget <= |p| then p[i * budget..(i + 1) * budget] else p[i * budget..]
    ensures |p| <= |Split(p, budget)| * budget
    ensures |Split(p, budget)| == 1 || (|Split(p, budget)| - 1) * budget < |p|
    decreases |p|
  {
    var n := |Split(p, budget)|;
    if |p| <= budget {
      assert i == 0 && n == 1;
    } else {
      var rest := p[budget..];
      assert Split(p, budget)[1..] == Split(rest, budget);
      assert n * budget == (n - 1) * budget + budget;
      assert (n - 1) * budget == (n - 2) * budget + budget;
      if i == 0 {
        SplitIsSliced(rest, budget, 0);
      } else {
        SplitIsSliced(rest, budget, i - 1);
        assert i * budget == (i - 1) * budget + budget;
        assert (i + 1) * budget == i * budget + budget;
      }
    }
  }

  lemma {:induction false} SplitShape(p: bytes, budget: nat)
    requires budget > 0
    ensures var s := Split(p, budget);
      && (forall i | 0 <= i < |s| - 1 :: |s[i]| == budget)
      && |s[|s| - 1]| <= budget
      && (|s| > 1 ==> |s[|s| - 1]| > 0)
    decreases |p|
  {
    if |p| > budget {
      SplitShape(p[budget..], budget);
    }
  }

  lemma {:induction false} SplitJoins(p: bytes, budget: nat)
    requires budget > 0
    ensures Concat(Split(p, budget)) == p
    decreases |p|
  {
    if |p| <= budget {
      assert [p][1..] == [];
    } else {
      var head, rest := p[..budget], p[budget..];
      SplitJoins(rest, budget);
      assert ([head] + Split(rest, budget))[1..] == Split(rest, budget);
      assert head + rest == p;
    }
  }

  lemma {:induction false} SplitLength(p: bytes, budget: nat)
    requires budget > 0
    ensures var s := Split(p, budget); |p| == (|s| - 1) * budget + |s[|s| - 1]|
    decreases |p|
  {
    if |p| > budget {
      var t := Split(p[budget..], budget);
      SplitLength(p[budget..], budget);
      assert Split(p, budget)[1..] == t;
      MulStep(|t| - 1, budget);
    }
  }

  /** A frame the sender can put on the wire: the count fits its 16-bit field, the length its 32-bit one. */
  predicate Sendable(h: HostFrame) {
    && h.budget > 0
    && |h.payload| < TWO32
    && |Split(h.payload, h.budget)| <= 0xFFFF
  }

  function Frags(h: HostFrame): (s: seq<bytes>)
    requires Sendable(h)
    ensures |s| > 0
  {
    Split(h.payload, h.budget)
  }
}
