/**
 HEVC parameter sets: removing emulation prevention, and the decoder configuration
 record built from an access unit's VPS, SPS and PPS.
 */
module Hevc {
  import opened Bytes
  import opened AnnexB

  // ---- emulation prevention, section 7.3.1.1 of ITU-T H.265 -----------------------------

  predicate IsEscape(b: bytes, i: int) {
    0 <= i && i + 3 <= |b| && b[i] == 0 && b[i + 1] == 0 && b[i + 2] == 3
  }

  function Unescape(b: bytes): bytes
    decreases |b|
  {
    if |b| == 0 then []
    else if IsEscape(b, 0) then [0, 0] + Unescape(b[3..])
    else [b[0]] + Unescape(b[1..])
  }

  /** The encoder's side, from a payload and how many zeros were just written: a 3 goes in before a byte that two
      zeros would turn into a start code or an escape, and behind a payload that ends in zero. */
  function EscapeFrom(p: bytes, zeros: nat): bytes
    requires zeros <= 2
    decreases |p|, zeros
  {
    if |p| == 0 then (if zeros > 0 then [3] else [])
    else if zeros == 2 && p[0] <= 3 then [3] + EscapeFrom(p, 0)
    else [p[0]] + EscapeFrom(p[1..], if p[0] == 0 then zeros + 1 else 0)
  }

  function Escape(p: bytes): bytes { EscapeFrom(p, 0) }

  /** How many zeros, counted since the last 3 put in, the payload leaves written at its end. */
  function Pending(p: bytes, zeros: nat): nat
    requires zeros <= 2
    decreases |p|, zeros
  {
    if |p| == 0 then zeros
    else if zeros == 2 && p[0] <= 3 then Pending(p, 0)
    else Pending(p[1..], if p[0] == 0 then zeros + 1 else 0)
  }

  /** The 3 behind a single such zero, which no decoder takes for an escape. */
  function Leftover(p: bytes, zeros: nat): bytes
    requires zeros <= 2
  {
    if Pending(p, zeros) == 1 then [3] else []
  }

  lemma Take(b: bytes, x: bv8)
    requires !IsEscape([x] + b, 0)
    ensures Unescape([x] + b) == [x] + Unescape(b)
  {
    assert ([x] + b)[1..] == b;
  }

  lemma Skip(b: bytes)
    ensures Unescape(Zeros(2) + ([3] + b)) == Zeros(2) + Unescape(b)
  {
    var all := Zeros(2) + ([3] + b);
    assert IsEscape(all, 0) && all[3..] == b;
    assert Zeros(2) == [0, 0];
  }

  /** Up to two zeros before a byte that ends the run are taken as they stand. */
  lemma TakeRun(zeros: nat, x: bv8, b: bytes)
    requires zeros <= 2 && x != 0 && (zeros == 2 ==> x != 3)
    ensures Unescape(Zeros(zeros) + ([x] + b)) == Zeros(zeros) + ([x] + Unescape(b))
  {
    hide Unescape, Zeros;
    var one, done := [x] + b, [x] + Unescape(b);
    Take(b, x);
    if zeros == 0 {
      assert Zeros(0) + one == one && Zeros(0) + done == done;
    } else if zeros == 1 {
      Take(one, 0);
      assert Zeros(1) + one == [0] + one && Zeros(1) + done == [0] + done;
    } else {
      Take(one, 0);
      Take([0] + one, 0);
      assert Zeros(2) + one == [0] + ([0] + one) && Zeros(2) + done == [0] + ([0] + done);
    }
  }

  lemma OneZeroThree()
    ensures Unescape([0, 3]) == [0, 3]
  {
    Take([3], 0);
    Take([], 3);
    assert [0] + [3] == [0, 3] && [3] + [] == [3];
  }

  lemma ZerosMore(zeros: nat, b: bytes)
    ensures Zeros(zeros) + ([0] + b) == Zeros(zeros + 1) + b
  {}

  lemma EscapedNothing(zeros: nat)
    requires zeros <= 2
    ensures Unescape(Zeros(zeros) + EscapeFrom([], zeros)) == Zeros(zeros) + [] + Leftover([], zeros)
  {
    hide Unescape;
    var none: bytes := [];
    NothingLeft();
    if zeros == 2 {
      Skip(none);
      assert [3] + none == [3] && Zeros(2) + none + none == Zeros(2);
    } else if zeros == 1 {
      OneZeroThree();
      assert Zeros(1) + [3] == [0, 3] && Zeros(1) + none + [3] == [0, 3];
    } else {
      assert Zeros(0) + none == none && Zeros(0) + none + none == none;
    }
  }

  lemma {:induction false} UnescapeEscaped(p: bytes, zeros: nat)
    requires zeros <= 2
    ensures Unescape(Zeros(zeros) + EscapeFrom(p, zeros)) == Zeros(zeros) + p + Leftover(p, zeros)
    decreases |p|, zeros
  {
    hide Unescape;
    var left := Leftover(p, zeros);
    if |p| == 0 {
      EscapedNothing(zeros);
      assert p == [];
    } else {
      assert p == [p[0]] + p[1..];
      if zeros == 2 && p[0] <= 3 {
        UnescapeEscaped(p, 0);
        assert Zeros(0) + EscapeFrom(p, 0) == EscapeFrom(p, 0) && Zeros(0) + p + left == p + left;
        Skip(EscapeFrom(p, 0));
        Regroup(Zeros(2), p, left);
      } else if p[0] == 0 {
        ZerosMore(zeros, EscapeFrom(p[1..], zeros + 1));
        ZerosMore(zeros, p[1..]);
        UnescapeEscaped(p[1..], zeros + 1);
      } else {
        UnescapeEscaped(p[1..], 0);
        var rest := EscapeFrom(p[1..], 0);
        assert Zeros(0) + rest == rest && Zeros(0) + p[1..] + left == p[1..] + left;
        TakeRun(zeros, p[0], rest);
        assert Zeros(zeros) + ([p[0]] + (p[1..] + left)) == Zeros(zeros) + p + left;
      }
    }
  }

  lemma NothingLeft()
    ensures Unescape([]) == [] && Zeros(2) + [] == Zeros(2)
  {}

  function TrailingZeros(p: bytes): (n: nat)
    ensures n <= |p|
  {
    if |p| == 0 || p[|p| - 1] != 0 then 0 else 1 + TrailingZeros(p[..|p| - 1])
  }

  lemma {:induction false} PendingSnoc(p: bytes, x: bv8, zeros: nat)
    requires zeros <= 2
    ensures var k := Pending(p, zeros);
      Pending(p + [x], zeros) == if x != 0 then 0 else if k == 2 then 1 else k + 1
    decreases |p|, zeros
  {
    var all := p + [x];
    if |p| == 0 {
      assert all[1..] == [] && all[0] == x;
      if zeros == 2 && x <= 3 {
        assert Pending(all, 2) == Pending(all, 0);
        assert Pending(all, 0) == Pending(all[1..], if x == 0 then 1 else 0);
      }
    } else if zeros == 2 && p[0] <= 3 {
      PendingSnoc(p, x, 0);
    } else {
      assert all[1..] == p[1..] + [x];
      PendingSnoc(p[1..], x, if p[0] == 0 then zeros + 1 else 0);
    }
  }

  /** A single zero is pending exactly behind an odd number of zeros; two behind any other but none. */
  lemma {:induction false} PendingZeros(p: bytes)
    ensures Pending(p, 0) == if TrailingZeros(p) == 0 then 0 else if TrailingZeros(p) % 2 == 1 then 1 else 2
  {
    if |p| > 0 {
      var front, last := p[..|p| - 1], p[|p| - 1];
      assert p == front + [last];
      PendingZeros(front);
      PendingSnoc(front, last, 0);
    }
  }

  /** Unescaping undoes escaping for every payload but those that end in an odd number of zeros, which no encoder
      makes: there the standard's closing 3 stays behind. */
  lemma UnescapeInvertsEscape(p: bytes)
    ensures Unescape(Escape(p)) == p + Leftover(p, 0)
    ensures Unescape(Escape(p)) == p <==> TrailingZeros(p) % 2 == 0
  {
    UnescapeEscaped(p, 0);
    PendingZeros(p);
    assert Zeros(0) + Escape(p) == Escape(p) && Zeros(0) + p == p;
    assert |p + Leftover(p, 0)| == |p| + |Leftover(p, 0)|;
    assert p + [] == p;
  }

  /** Two zeros and then a byte below three, what escaping is there to prevent. */
  predicate Emulates(b: bytes, i: int) {
    0 <= i && i + 3 <= |b| && b[i] == 0 && b[i + 1] == 0 && b[i + 2] < 3
  }

  lemma QuietAfterThree(rest: bytes, i: int)
    requires !Emulates(rest, i - 3)
    ensures !Emulates(Zeros(2) + ([3] + rest), i)
  {
    var b := Zeros(2) + ([3] + rest);
    assert forall k | 3 <= k < |b| :: b[k] == rest[k - 3];
  }

  lemma QuietAfterRun(zeros: nat, x: bv8, rest: bytes, i: int)
    requires zeros <= 2 && x != 0 && (zeros == 2 ==> x > 3) && !Emulates(rest, i - zeros - 1)
    ensures !Emulates(Zeros(zeros) + ([x] + rest), i)
  {
    var b := Zeros(zeros) + ([x] + rest);
    assert forall k | zeros + 1 <= k < |b| :: b[k] == rest[k - zeros - 1];
  }

  lemma {:induction false} EscapedIsQuiet(p: bytes, zeros: nat, i: int)
    requires zeros <= 2
    ensures !Emulates(Zeros(zeros) + EscapeFrom(p, zeros), i)
    decreases |p|, zeros
  {
    hide Emulates;
    if |p| == 0 {
      QuietEnd(zeros, i);
      assert p == [];
    } else if zeros == 2 && p[0] <= 3 {
      EscapedIsQuiet(p, 0, i - 3);
      assert Zeros(0) + EscapeFrom(p, 0) == EscapeFrom(p, 0);
      QuietAfterThree(EscapeFrom(p, 0), i);
    } else if p[0] == 0 {
      ZerosMore(zeros, EscapeFrom(p[1..], zeros + 1));
      EscapedIsQuiet(p[1..], zeros + 1, i);
    } else {
      var rest := EscapeFrom(p[1..], 0);
      EscapedIsQuiet(p[1..], 0, i - zeros - 1);
      assert Zeros(0) + rest == rest;
      QuietAfterRun(zeros, p[0], rest, i);
    }
  }

  lemma QuietEnd(zeros: nat, i: int)
    requires zeros <= 2
    ensures !Emulates(Zeros(zeros) + EscapeFrom([], zeros), i)
  {}

  /** An escaped payload behind a two-byte NAL header is a clean NAL unit, whatever the payload: it survives any Annex-B
      stream, and the payload comes back out of it unless it ends in an odd number of zeros. */
  lemma EscapedSurvives(h0: bv8, h1: bv8, p: bytes)
    requires h1 != 0
    ensures Clean([h0, h1] + Escape(p))
    ensures Unescape(([h0, h1] + Escape(p))[2..]) == p <==> TrailingZeros(p) % 2 == 0
  {
    hide Unescape, EscapeFrom;
    var e := Escape(p);
    var n := [h0, h1] + e;
    forall i ensures !IsCode(n, i) {
      EscapedIsQuiet(p, 0, i - 2);
      assert Zeros(0) + e == e;
      assert IsCode(n, i) ==> i >= 2 && Emulates(e, i - 2);
    }
    UnescapeInvertsEscape(p);
    assert n[2..] == e;
    EscapedEnd(p, 0);
    assert |e| > 0 ==> n[|n| - 1] == e[|e| - 1];
  }

  lemma {:induction false} EscapedEnd(p: bytes, zeros: nat)
    requires zeros <= 2
    ensures var e := EscapeFrom(p, zeros); |e| > 0 ==> e[|e| - 1] != 0
    decreases |p|, zeros
  {
    if |p| > 0 {
      if zeros == 2 && p[0] <= 3 {
        EscapedEnd(p, 0);
      } else {
        EscapedEnd(p[1..], if p[0] == 0 then zeros + 1 else 0);
      }
    }
  }

  method RbspUnescape(nal: bytes) returns (out: bytes)
    ensures out == Unescape(nal)
  {
    hide Unescape;
    out := [];
    var i := 0;
    assert nal[0..] == nal && out + Unescape(nal) == Unescape(nal);
    while i < |nal|
      invariant 0 <= i <= |nal|
      invariant out + Unescape(nal[i..]) == Unescape(nal)
      decreases |nal| - i
    {
      UnescapeStep(nal, i);
      if i + 2 < |nal| && nal[i] == 0 && nal[i + 1] == 0 && nal[i + 2] == 3 {
        assert out + ([0, 0] + Unescape(nal[i + 3..])) == (out + [0] + [0]) + Unescape(nal[i + 3..]);
        out := out + [0];
        out := out + [0];
        i := i + 3;
      } else {
        assert out + ([nal[i]] + Unescape(nal[i + 1..])) == (out + [nal[i]]) + Unescape(nal[i + 1..]);
        out := out + [nal[i]];
        i := i + 1;
      }
    }
    NothingLeft();
    assert nal[|nal|..] == [] && out + [] == out;
  }

  lemma UnescapeStep(b: bytes, i: nat)
    requires i < |b|
    ensures IsEscape(b, i) ==> Unescape(b[i..]) == [0, 0] + Unescape(b[i + 3..])
    ensures !IsEscape(b, i) ==> Unescape(b[i..]) == [b[i]] + Unescape(b[i + 1..])
  {
    if IsEscape(b, i) {
      assert b[i..][3..] == b[i + 3..];
    } else {
      assert b[i..][1..] == b[i + 1..];
    }
  }

  // ---- the record, section 8.3.3.1 of ISO/IEC 14496-15 --------------------------------------

  const VPS: bv8 := 32
  const SPS: bv8 := 33
  const PPS: bv8 := 34

  function NalType(n: bytes): bv8
    requires |n| >= 1
  {
    (n[0] >> 1) & 0x3F
  }

  /** The first unit of a type, those too short for a header passed over. */
  function FirstOf(nals: seq<bytes>, t: bv8): Option<bytes> {
    if |nals| == 0 then None
    else
      var before := FirstOf(nals[..|nals| - 1], t);
      var n := nals[|nals| - 1];
      if before.Some? then before else if |n| >= 2 && NalType(n) == t then Some(n) else None
  }

  /** Completeness and unit type: one byte in the standard, two in the record this host writes. */
  function ArrayHead(t: bv8, width: nat): bytes {
    if width == 1 then [0x80 | t] else [0x80, t]
  }

  /** An array of one unit: complete, its type, one unit of a 16-bit length. */
  function Array(t: bv8, n: bytes, width: nat): bytes {
    ArrayHead(t, width) + ([0, 1] + (Be(|n|, 2) + n))
  }

  /** How a record is laid out where the host and the standard part ways: header bytes per array, the byte that holds
      a bit depth, and the byte of frame-rate, layer and length-size fields. */
  datatype Layout = Layout(width: nat, depth: bv8, last: bv8)

  /** What the host writes. */
  const WRITTEN := Layout(2, 0xFC, 0x1F)

  /** The ten bytes between the profile block and the arrays. */
  function Fixed(l: Layout): bytes {
    [0xF0, 0x00, 0xFC, 0xFC | 1, l.depth, l.depth, 0, 0, l.last, 3]
  }

  /** What an access unit says about its stream: profile block and parameter sets, if it has all of them. */
  datatype Params = Params(ptl: bytes, vps: bytes, sps: bytes, pps: bytes)

  function Arrays(p: Params, width: nat): bytes {
    Array(VPS, p.vps, width) + (Array(SPS, p.sps, width) + Array(PPS, p.pps, width))
  }

  function Record(p: Params, l: Layout): bytes {
    [1] + p.ptl + Fixed(l) + Arrays(p, l.width)
  }

  function ParamsOf(au: bytes): (r: Option<Params>)
    ensures r.Some? ==> |r.value.ptl| == 12
  {
    var nals := Nals(au);
    var vps, sps, pps := FirstOf(nals, VPS), FirstOf(nals, SPS), FirstOf(nals, PPS);
    if vps.None? || sps.None? || pps.None? || |sps.value| < 2 then None
    else
      var rbsp := Unescape(sps.value[2..]);
      if |rbsp| < 13 then None else Some(Params(rbsp[1..13], vps.value, sps.value, pps.value))
  }

  /** The record for an access unit, or nothing until it has all three sets and a whole profile block. */
  method HvccDescription(au: bytes) returns (r: Option<bytes>)
    ensures r == if ParamsOf(au).None? then None else Some(Record(ParamsOf(au).value, WRITTEN))
  {
    hide Nals, Unescape, NalType;
    var nals := AnnexbNals(au);
    var vps: Option<bytes> := None;
    var sps: Option<bytes> := None;
    var pps: Option<bytes> := None;
    for k := 0 to |nals|
      invariant vps == FirstOf(nals[..k], VPS)
      invariant sps == FirstOf(nals[..k], SPS)
      invariant pps == FirstOf(nals[..k], PPS)
    {
      var nal := nals[k];
      assert nals[..k + 1][..k] == nals[..k];
      if |nal| >= 2 {
        var t := NalType(nal);
        if t == 32 && vps.None? {
          vps := Some(nal);
        } else if t == 33 && sps.None? {
          sps := Some(nal);
        } else if t == 34 && pps.None? {
          pps := Some(nal);
        }
      }
    }
    assert nals[..|nals|] == nals;
    if vps.None? || sps.None? || pps.None? || |sps.value| < 2 {
      return None;
    }
    var rbsp := RbspUnescape(sps.value[2..]);
    if |rbsp| < 13 {
      return None;
    }
    return Some(Record(Params(rbsp[1..13], vps.value, sps.value, pps.value), WRITTEN));
  }

  /** A player's reading of a record: the profile block, the fixed fields by name, and each array's type and units. */
  datatype Parsed = Parsed(
    ptl: bytes,
    minSegmentation: (bv8, bv8),
    parallelism: bv8,
    chromaFormat: bv8,
    lumaDepthMinus8: bv8,
    chromaDepthMinus8: bv8,
    avgFrameRate: (bv8, bv8),
    constantFrameRate: bv8,
    temporalLayers: bv8,
    temporalIdNested: bv8,
    lengthSizeMinusOne: bv8,
    arrays: seq<(bv8, seq<bytes>)>)

  function ParseUnits(b: bytes, count: nat): Option<(seq<bytes>, bytes)>
    decreases count
  {
    if count == 0 then Some(([], b))
    else if |b| < 2 || |b| < 2 + FromBe(b[..2]) then None
    else
      var n := FromBe(b[..2]);
      var rest := ParseUnits(b[2 + n..], count - 1);
      if rest.None? then None else Some(([b[2..2 + n]] + rest.value.0, rest.value.1))
  }

  function ParseArrays(b: bytes, count: nat, width: nat): Option<seq<(bv8, seq<bytes>)>>
    requires width > 0
    decreases count
  {
    if count == 0 then (if |b| == 0 then Some([]) else None)
    else if |b| < width + 2 then None
    else
      var units := ParseUnits(b[width + 2..], FromBe(b[width..width + 2]));
      if units.None? then None
      else
        var rest := ParseArrays(units.value.1, count - 1, width);
        if rest.None? then None else Some([(b[width - 1] & 0x3F, units.value.0)] + rest.value)
  }

  /** The reserved bits of the fixed part are ones. */
  predicate ReservedSet(b: bytes)
    requires |b| >= 23
  {
    && b[13] & 0xF0 == 0xF0 && b[15] & 0xFC == 0xFC && b[16] & 0xFC == 0xFC
    && b[17] & 0xF8 == 0xF8 && b[18] & 0xF8 == 0xF8
  }

  function ParseRecord(b: bytes, width: nat): Option<Parsed>
    requires width > 0
  {
    if |b| < 23 || b[0] != 1 || !ReservedSet(b) then None
    else
      var arrays := ParseArrays(b[23..], NatOf(b[22]), width);
      if arrays.None? then None
      else Some(Parsed(b[1..13], (b[13] & 0x0F, b[14]), b[15] & 3, b[16] & 3, b[17] & 7, b[18] & 7, (b[19], b[20]),
                       b[21] >> 6, (b[21] >> 3) & 7, (b[21] >> 2) & 1, b[21] & 3, arrays.value))
  }

  lemma OneUnit(n: bytes, rest: bytes)
    requires |n| < 0x1_0000
    ensures ParseUnits((Be(|n|, 2) + n) + rest, 1) == Some(([n], rest))
  {
    hide Be, FromBe;
    var b := Be(|n|, 2) + n + rest;
    Widths();
    BeInverse(|n|, 2);
    assert b[..2] == Be(|n|, 2) && b[2..2 + |n|] == n && b[2 + |n|..] == rest;
    assert ParseUnits(rest, 0) == Some(([], rest));
    assert [n] + [] == [n];
  }

  lemma OneIs()
    ensures FromBe([0, 1]) == 1
  {
    assert [0, 1][..1] == [0];
    assert [0][..0] == [];
    assert NatOf(0) == 0 && NatOf(1) == 1;
  }

  lemma HeadType(t: bv8, width: nat)
    requires t < 0x40 && (width == 1 || width == 2)
    ensures |ArrayHead(t, width)| == width
    ensures ArrayHead(t, width)[width - 1] & 0x3F == t
  {}

  lemma ArrayReads(t: bv8, n: bytes, rest: bytes, count: nat, width: nat)
    requires |n| < 0x1_0000 && t < 0x40 && (width == 1 || width == 2)
    ensures ParseArrays(Array(t, n, width) + rest, count + 1, width) ==
      (var tail := ParseArrays(rest, count, width); if tail.None? then None else Some([(t, [n])] + tail.value))
  {
    hide Be, FromBe, ParseUnits, ArrayHead;
    var b := Array(t, n, width) + rest;
    HeadType(t, width);
    OneUnit(n, rest);
    OneIs();
    HeadSplit(ArrayHead(t, width), Be(|n|, 2) + n, rest);
  }

  lemma HeadSplit(head: bytes, unit: bytes, rest: bytes)
    requires |head| > 0
    ensures var b, w := head + ([0, 1] + unit) + rest, |head|;
      |b| >= w + 2 && b[w - 1] == head[w - 1] && b[w..w + 2] == [0, 1] && b[w + 2..] == unit + rest
  {
    var b, w := head + ([0, 1] + unit) + rest, |head|;
    assert b == head + ([0, 1] + (unit + rest));
  }

  predicate Small(p: Params) {
    |p.ptl| == 12 && |p.vps| < 0x1_0000 && |p.sps| < 0x1_0000 && |p.pps| < 0x1_0000
  }

  function SetArrays(p: Params): seq<(bv8, seq<bytes>)> {
    [(VPS, [p.vps]), (SPS, [p.sps]), (PPS, [p.pps])]
  }

  /** What the host's record is meant to say: the profile block, 4:2:0 at 8 bits, one nested temporal layer, four-byte
      lengths, unknown frame rate and segmentation, and one unit of each set. */
  function Meant(p: Params): Parsed {
    Parsed(p.ptl, (0, 0), 0, 1, 0, 0, (0, 0), 0, 1, 1, 3, SetArrays(p))
  }

  lemma RecordArrays(p: Params, width: nat)
    requires Small(p) && (width == 1 || width == 2)
    ensures ParseArrays(Arrays(p, width), 3, width) == Some(SetArrays(p))
  {
    hide Array, ParseArrays;
    var pps := Array(PPS, p.pps, width);
    var third := [(PPS, [p.pps])];
    var second := [(SPS, [p.sps])] + third;
    assert pps + [] == pps && third + [] == third;
    ParsedNothing(width);
    ArrayReads(PPS, p.pps, [], 0, width);
    assert ParseArrays(pps, 1, width) == Some(third);
    ArrayReads(SPS, p.sps, pps, 1, width);
    assert ParseArrays(Array(SPS, p.sps, width) + pps, 2, width) == Some(second);
    ArrayReads(VPS, p.vps, Array(SPS, p.sps, width) + pps, 2, width);
    assert [(VPS, [p.vps])] + second == SetArrays(p);
  }

  lemma ParsedNothing(width: nat)
    requires width > 0
    ensures ParseArrays([], 0, width) == Some([])
  {}

  lemma RecordLayout(p: Params, l: Layout)
    requires |p.ptl| == 12
    ensures var b := Record(p, l);
      && |b| >= 23 && b[0] == 1 && b[1..13] == p.ptl && b[13..23] == Fixed(l) && b[23..] == Arrays(p, l.width)
  {
    hide Arrays;
  }

  lemma FixedBytes(p: Params, l: Layout)
    requires |p.ptl| == 12
    ensures var b := Record(p, l);
      && |b| >= 23 && b[13] == 0xF0 && b[14] == 0 && b[15] == 0xFC && b[16] == 0xFD
      && b[17] == l.depth && b[18] == l.depth && b[19] == 0 && b[20] == 0 && b[21] == l.last && b[22] == 3
  {
    hide Arrays, Record;
    RecordLayout(p, l);
    var b := Record(p, l);
    assert forall i | 0 <= i < 10 :: b[13 + i] == b[13..23][i];
    assert 0xFC | 1 == 0xFD as bv8;
  }

  lemma SmallBytes()
    ensures NatOf(3) == 3
  {}

  /** What a reader makes of the fixed part, whatever the arrays. */
  lemma RecordFields(p: Params, l: Layout, width: nat)
    requires |p.ptl| == 12 && l.depth & 0xF8 == 0xF8 && width > 0
    ensures var arrays := ParseArrays(Arrays(p, l.width), 3, width);
      ParseRecord(Record(p, l), width) == if arrays.None? then None else
        Some(Parsed(p.ptl, (0, 0), 0, 1, l.depth & 7, l.depth & 7, (0, 0), l.last >> 6, (l.last >> 3) & 7,
                    (l.last >> 2) & 1, l.last & 3, arrays.value))
  {
    hide Record, Arrays, ParseArrays, NatOf;
    RecordLayout(p, l);
    FixedBytes(p, l);
    SmallBytes();
  }

  /** The host's layout, to a reader that expects its two header bytes: the sets are found, but the depth bytes say
      12 bits and the layer field says three. */
  lemma WrittenReads(p: Params)
    requires Small(p)
    ensures ParseRecord(Record(p, WRITTEN), 2)
         == Some(Meant(p).(lumaDepthMinus8 := 4, chromaDepthMinus8 := 4, temporalLayers := 3))
  {
    hide Record, Arrays, ParseArrays;
    RecordFields(p, WRITTEN, 2);
    RecordArrays(p, 2);
  }

  /**
   Read by section 8.3.3.1 of ISO/IEC 14496-15, a record says what it was meant to exactly if it has one header byte
   per array, depth zero and the fields of 0x0F; the host's has none of these, so for no stream does its record.
   */
  lemma StandardReading(p: Params, l: Layout)
    requires Small(p) && (l.width == 1 || l.width == 2) && l.depth & 0xF8 == 0xF8
    ensures ParseRecord(Record(p, l), 1) == Some(Meant(p)) <==> l.width == 1 && l.depth & 7 == 0 && l.last == 0x0F
  {
    hide Record, Arrays, ParseArrays;
    RecordFields(p, l, 1);
    LastByte(l.last);
    if l.width == 1 {
      RecordArrays(p, 1);
    } else {
      FirstTypeLost(p, Array(SPS, p.sps, 2) + Array(PPS, p.pps, 2));
      TwoByteArrays(p);
    }
  }

  /** For no stream does the standard's reader find the sets in the record the host writes. */
  lemma SetsAreLost(p: Params)
    requires |p.ptl| == 12
    ensures var r := ParseRecord(Record(p, WRITTEN), 1); r.Some? ==> r.value.arrays != SetArrays(p)
  {
    hide Record, Arrays, ParseArrays;
    RecordFields(p, WRITTEN, 1);
    FirstTypeLost(p, Array(SPS, p.sps, 2) + Array(PPS, p.pps, 2));
    TwoByteArrays(p);
  }

  lemma LastByte(b: bv8)
    ensures b == 0x0F <==> b >> 6 == 0 && (b >> 3) & 7 == 1 && (b >> 2) & 1 == 1 && b & 3 == 3
  {}

  lemma TwoByteArrays(p: Params)
    ensures Arrays(p, 2) == Array(VPS, p.vps, 2) + (Array(SPS, p.sps, 2) + Array(PPS, p.pps, 2))
    ensures SetArrays(p)[0].0 == VPS
  {}

  /** The standard's reader takes the host's first header byte for an array of type 0. */
  lemma FirstTypeLost(p: Params, rest: bytes)
    ensures var r := ParseArrays(Array(VPS, p.vps, 2) + rest, 3, 1);
      r.Some? ==> |r.value| > 0 && r.value[0].0 == 0
  {
    hide ParseUnits;
    var b := Array(VPS, p.vps, 2) + rest;
    assert b[0] == 0x80;
  }

  // ---- a concrete access unit ------------------------------------------------------------------

  const SAMPLE_VPS: bytes := [0x40, 1, 0x0C]
  const SAMPLE_SPS: bytes := [0x42, 1, 1, 1, 0x60, 4, 5, 6, 7, 8, 9, 10, 11, 12, 0x7B, 0xA0]
  const SAMPLE_PPS: bytes := [0x44, 1, 0xC1]

  lemma NoZeroClean(n: bytes)
    requires forall i | 0 <= i < |n| :: n[i] != 0
    ensures Clean(n)
  {}

  lemma {:induction false} NoZeroPlain(n: bytes)
    requires forall i | 0 <= i < |n| :: n[i] != 0
    ensures Unescape(n) == n
  {
    if |n| > 0 {
      NoZeroPlain(n[1..]);
    }
  }

  lemma SampleTypes()
    ensures NalType(SAMPLE_VPS) == VPS && NalType(SAMPLE_SPS) == SPS && NalType(SAMPLE_PPS) == PPS
  {}

  lemma FirstOfThree(a: bytes, b: bytes, c: bytes, t: bv8)
    requires |a| >= 2 && |b| >= 2 && |c| >= 2
    ensures FirstOf([a, b, c], t) ==
      if NalType(a) == t then Some(a) else if NalType(b) == t then Some(b) else if NalType(c) == t then Some(c) else None
  {
    hide NalType;
    assert [a, b, c][..2] == [a, b] && [a, b][..1] == [a] && [a][..0] == [];
    assert FirstOf([], t) == None;
    assert FirstOf([a], t) == if NalType(a) == t then Some(a) else None;
    assert FirstOf([a, b], t) == if NalType(a) == t then Some(a) else if NalType(b) == t then Some(b) else None;
  }

  /** A stream with all three sets, behind four-byte start codes: the host does write a record, and the standard's
      reader does not find the sets in it. */
  lemma SampleMisread()
    ensures var au := Join([SAMPLE_VPS, SAMPLE_SPS, SAMPLE_PPS], [3, 3, 3]);
      && ParamsOf(au).Some?
      && ParamsOf(au).value.vps == SAMPLE_VPS && ParamsOf(au).value.sps == SAMPLE_SPS
      && var r := ParseRecord(Record(ParamsOf(au).value, WRITTEN), 1);
         r.Some? ==> r.value.arrays != SetArrays(ParamsOf(au).value)
  {
    hide Join, Nals, Clean, NalType, Unescape, FirstOf, ParseRecord, Record;
    var nals := [SAMPLE_VPS, SAMPLE_SPS, SAMPLE_PPS];
    NoZeroClean(SAMPLE_VPS);
    NoZeroClean(SAMPLE_SPS);
    NoZeroClean(SAMPLE_PPS);
    SplitOfJoin(nals, [3, 3, 3], 0);
    var au := Join(nals, [3, 3, 3]);
    assert au + Zeros(0) == au;
    SampleTypes();
    FirstOfThree(SAMPLE_VPS, SAMPLE_SPS, SAMPLE_PPS, VPS);
    FirstOfThree(SAMPLE_VPS, SAMPLE_SPS, SAMPLE_PPS, SPS);
    FirstOfThree(SAMPLE_VPS, SAMPLE_SPS, SAMPLE_PPS, PPS);
    NoZeroPlain(SAMPLE_SPS[2..]);
    SetsAreLost(ParamsOf(au).value);
  }

  lemma ProfileBlock(au: bytes)
    requires ParamsOf(au).Some?
    ensures var p := ParamsOf(au).value;
      |p.sps| >= 2 && |Unescape(p.sps[2..])| >= 13 && p.ptl == Unescape(p.sps[2..])[1..13]
  {
    hide Unescape, Nals, FirstOf;
  }

  lemma BlockOf(p: bytes, left: bytes)
    requires |p + left| >= 13 && |left| <= 1
    ensures |p| >= 13 ==> (p + left)[1..13] == p[1..13]
    ensures |p| < 13 ==> |left| == 1 && (p + left)[1..13] == p[1..] + left
  {}

  /** The profile block of a record is bytes 1 to 12 of the payload the encoder escaped into its SPS, or the closing 3
      of a payload of twelve bytes that ends in an odd number of zeros is taken for its last byte. */
  lemma ProfileIsUnescaped(au: bytes, h0: bv8, h1: bv8, payload: bytes)
    requires ParamsOf(au).Some? && ParamsOf(au).value.sps == [h0, h1] + Escape(payload)
    ensures |payload| >= 13 ==> ParamsOf(au).value.ptl == payload[1..13]
    ensures |payload| < 13 ==> TrailingZeros(payload) % 2 == 1 && ParamsOf(au).value.ptl == payload[1..] + [3]
  {
    hide Unescape, Escape, ParamsOf, Pending;
    var sps := ParamsOf(au).value.sps;
    ProfileBlock(au);
    assert sps[2..] == Escape(payload);
    UnescapeInvertsEscape(payload);
    PendingZeros(payload);
    BlockOf(payload, Leftover(payload, 0));
  }
}
