/** The two video layouts: self-delimiting frames on a stream, fragments in datagrams. */
module Wire {
  import opened Bytes
  import opened Parity

  const HEADER_LEN := 18
  const STREAM_VERSION: bv8 := 3
  const FRAGMENT_VERSION: bv8 := 4
  const TWO64 := 0x1_0000_0000_0000_0000

  datatype WtFrame = WtFrame(frameNo: u32, captureUs: nat, key: bool, payload: bytes)

  datatype WtFragment = WtFragment(frameNo: u32, idx: nat, cnt: nat, captureUs: nat, key: bool,
                                   parity: nat, payload: bytes)

  datatype WireError = Truncated | BadVersion(version: bv8)

  datatype Result<+T> = Ok(value: T) | Err(error: WireError)

  predicate FitsFrame(f: WtFrame) {
    f.captureUs < TWO64 && |f.payload| < TWO32
  }

  predicate FitsFragment(f: WtFragment) {
    f.idx < 0x1_0000 && f.cnt < 0x1_0000 && f.captureUs < TWO64 && f.parity <= 2
  }

  function KeyFlag(key: bool): bv8 { if key then 1 else 0 }

  // ---- frames on a stream ---------------------------------------------------

  function EncodeFrame(f: WtFrame): bytes {
    [STREAM_VERSION, KeyFlag(f.key)] + Le(f.frameNo, 4) + Le(f.captureUs, 8) + Le(|f.payload|, 4) + f.payload
  }

  /** The payload length a frame header announces. */
  function HeaderLength(head: bytes): nat
    requires |head| >= HEADER_LEN
  {
    FromLe(head[14..18])
  }

  function FrameNoAt(b: bytes): (n: u32)
    requires |b| == 4
  {
    FromLeBound(b);
    Widths();
    FromLe(b)
  }

  /** The host's own parser: trailing bytes are allowed, a short body is not. */
  function DecodeFrame(buf: bytes): Result<WtFrame> {
    if |buf| < HEADER_LEN then Err(Truncated)
    else
      var len := HeaderLength(buf);
      if |buf| < HEADER_LEN + len then Err(Truncated)
      else if buf[0] != STREAM_VERSION then Err(BadVersion(buf[0]))
      else Ok(WtFrame(FrameNoAt(buf[2..6]), FromLe(buf[6..14]), buf[1] & 1 != 0, buf[18..18 + len]))
  }

  /** The browser's parser: the body has to be exactly as long as its header says. */
  function ParseFrame(buf: bytes): Option<WtFrame> {
    if |buf| < HEADER_LEN then None
    else if buf[0] != STREAM_VERSION then None
    else if |buf| != HEADER_LEN + HeaderLength(buf) then None
    else Some(WtFrame(FrameNoAt(buf[2..6]), FromLe(buf[6..14]), buf[1] & 1 != 0, buf[18..]))
  }

  /** Where each field of a frame lies. */
  lemma FrameLayout(f: WtFrame)
    ensures var b := EncodeFrame(f);
      && |b| == 18 + |f.payload|
      && b[0] == 3 && b[1] == (if f.key then 1 else 0)
      && b[2..6] == Le(f.frameNo, 4) && b[6..14] == Le(f.captureUs, 8)
      && b[14..18] == Le(|f.payload|, 4) && b[18..] == f.payload
  {}

  lemma FlagRoundTrip(key: bool)
    ensures (KeyFlag(key) & 1 != 0) == key
  {}

  /** Either parser gives back the frame that was encoded; the host's also reads it off the front of a longer
      buffer, and every proper prefix is refused by both. */
  lemma FrameRoundTrip(f: WtFrame, tail: bytes, cut: nat)
    requires FitsFrame(f)
    ensures ParseFrame(EncodeFrame(f)) == Some(f)
    ensures DecodeFrame(EncodeFrame(f) + tail) == Ok(f)
    ensures cut < |EncodeFrame(f)| ==>
      ParseFrame(EncodeFrame(f)[..cut]) == None && DecodeFrame(EncodeFrame(f)[..cut]) == Err(Truncated)
  {
    var b := EncodeFrame(f);
    FrameLayout(f);
    LeFields(f.frameNo, 4);
    LeFields(f.captureUs, 8);
    LeFields(|f.payload|, 4);
    FlagRoundTrip(f.key);
    var long := b + tail;
    assert long[2..6] == b[2..6] && long[6..14] == b[6..14] && long[14..18] == b[14..18];
    assert long[18..18 + |f.payload|] == f.payload;
    if cut < |b| && cut >= HEADER_LEN {
      assert b[..cut][14..18] == b[14..18];
    }
  }

  /** The two parsers agree on every byte string: the browser reads a frame exactly when the host's parser
      reads the same frame and nothing is left over. */
  lemma ParsersAgree(buf: bytes, f: WtFrame)
    ensures ParseFrame(buf) == Some(f) <==> DecodeFrame(buf) == Ok(f) && |buf| == HEADER_LEN + |f.payload|
  {
    if |buf| >= HEADER_LEN && |buf| == HEADER_LEN + HeaderLength(buf) {
      assert buf[18..18 + HeaderLength(buf)] == buf[18..];
    }
  }

  // ---- fragments in datagrams ---------------------------------------------------

  function ParityFlag(parity: nat): bv8 {
    if parity == 1 then 2 else if parity == 2 then 4 else 0
  }

  function EncodeFragment(f: WtFragment): bytes {
    [FRAGMENT_VERSION, KeyFlag(f.key) | ParityFlag(f.parity)]
    + Le(f.frameNo, 4) + Le(f.idx, 2) + Le(f.cnt, 2) + Le(f.captureUs, 8) + f.payload
  }

  function DecodeFragment(buf: bytes): Result<WtFragment> {
    if |buf| < HEADER_LEN then Err(Truncated)
    else if buf[0] != FRAGMENT_VERSION then Err(BadVersion(buf[0]))
    else Ok(WtFragment(FrameNoAt(buf[2..6]), FromLe(buf[6..8]), FromLe(buf[8..10]), FromLe(buf[10..18]),
                       buf[1] & 1 != 0,
                       if buf[1] & 4 != 0 then 2 else if buf[1] & 2 != 0 then 1 else 0,
                       buf[18..]))
  }

  /** The browser's reading of a datagram; bits 1 and 2 of the flags are taken as one number, so a datagram
      claiming both rows reads as row 3. */
  function ParseFragment(buf: bytes): WtFragment
    requires |buf| >= HEADER_LEN
  {
    WtFragment(FrameNoAt(buf[2..6]), FromLe(buf[6..8]), FromLe(buf[8..10]), FromLe(buf[10..18]),
               buf[1] & 1 != 0, ((buf[1] >> 1) & 3) as nat, buf[18..])
  }

  lemma FragmentFlags(key: bool, parity: nat)
    requires parity <= 2
    ensures var b := KeyFlag(key) | ParityFlag(parity);
      && (b & 1 != 0) == key
      && (if b & 4 != 0 then 2 else if b & 2 != 0 then 1 else 0) == parity
      && ((b >> 1) & 3) as nat == parity
  {}

  /** Where each field of a fragment lies. */
  lemma FragmentLayout(f: WtFragment)
    ensures var b := EncodeFragment(f);
      && |b| == 18 + |f.payload|
      && b[0] == 4
      && b[1] == (if f.key then 1 else 0) + (if f.parity == 1 then 2 else if f.parity == 2 then 4 else 0)
      && b[2..6] == Le(f.frameNo, 4) && b[6..8] == Le(f.idx, 2) && b[8..10] == Le(f.cnt, 2)
      && b[10..18] == Le(f.captureUs, 8) && b[18..] == f.payload
  {}

  /** What the host encodes is what both ends read. */
  lemma FragmentRoundTrip(f: WtFragment)
    requires FitsFragment(f)
    ensures DecodeFragment(EncodeFragment(f)) == Ok(f)
    ensures ParseFragment(EncodeFragment(f)) == f
  {
    FragmentLayout(f);
    LeFields(f.frameNo, 4);
    Widths();
    LeInverse(f.idx, 2);
    LeInverse(f.cnt, 2);
    LeFields(f.captureUs, 8);
    FragmentFlags(f.key, f.parity);
  }

  lemma FlagBits(flags: bv8)
    ensures ((flags >> 1) & 3 == 0) == (flags & 4 == 0 && flags & 2 == 0)
    ensures ((flags >> 1) & 3 == 1) == (flags & 4 == 0 && flags & 2 != 0)
  {}

  /** On every datagram, well-formed or not, the two ends agree whether it is data, row 1 or row 2; only the
      browser tells "both rows" apart, and it files those under row 2 as the host would. */
  lemma FragmentParsersAgree(buf: bytes)
    requires |buf| >= HEADER_LEN && buf[0] == FRAGMENT_VERSION
    ensures var p, d := ParseFragment(buf), DecodeFragment(buf);
      && d.Ok?
      && d.value == p.(parity := d.value.parity)
      && (p.parity == 0 <==> d.value.parity == 0)
      && (p.parity == 1 <==> d.value.parity == 1)
  {
    FlagBits(buf[1]);
  }

  // ---- what the host puts in datagrams ------------------------------------------

  function DataFragment(no: u32, h: HostFrame, i: nat): WtFragment
    requires Sendable(h) && i < |Frags(h)|
  {
    WtFragment(no, i, |Frags(h)|, h.captureUs, h.key, 0, Frags(h)[i])
  }

  function ParityFragment(no: u32, h: HostFrame, row: nat, g: nat): WtFragment
    requires Sendable(h) && g < GroupCount(|Frags(h)|)
  {
    WtFragment(no, g, |Frags(h)|, h.captureUs, h.key, row, RowPayload(Frags(h), row, g))
  }

  /** Sent by a host for frame `h` under number `no`: a data fragment, row 1, or row 2 where the frame gets one. */
  ghost predicate FromHost(f: WtFragment, no: u32, h: HostFrame) {
    && Sendable(h)
    && ((f.parity == 0 && f.idx < |Frags(h)| && f == DataFragment(no, h, f.idx))
        || (f.parity == 1 && f.idx < GroupCount(|Frags(h)|) && f == ParityFragment(no, h, 1, f.idx))
        || (f.parity == 2 && WantsTwoParityRows(h.key, |Frags(h)|)
            && f.idx < GroupCount(|Frags(h)|) && f == ParityFragment(no, h, 2, f.idx)))
  }

  /** How many rows are sent before row `row` of group `g`: group by group, row 1 first. */
  function RowIndex(h: HostFrame, row: nat, g: nat): nat
    requires Sendable(h) && 1 <= row <= 2
  {
    if WantsTwoParityRows(h.key, |Frags(h)|) then 2 * g + row - 1 else g
  }

  /** Every row the frame gets, each once at its place. */
  ghost predicate RowsInOrder(no: u32, h: HostFrame, out: seq<WtFragment>)
    requires Sendable(h)
  {
    var two, n := WantsTwoParityRows(h.key, |Frags(h)|), GroupCount(|Frags(h)|);
    && |out| == (if two then 2 * n else n)
    && (forall g | 0 <= g < n :: out[RowIndex(h, 1, g)] == ParityFragment(no, h, 1, g))
    && (two ==> forall g | 0 <= g < n :: out[RowIndex(h, 2, g)] == ParityFragment(no, h, 2, g))
  }

  /** The sender's second loop: the `k`-th row `FragmentParity` returns is sent with its group number as index. */
  method SendParity(no: u32, h: HostFrame) returns (out: seq<WtFragment>)
    requires Sendable(h)
    ensures forall f | f in out :: FromHost(f, no, h)
    ensures RowsInOrder(no, h, out)
  {
    hide RowPayload, Split, Sendable, FromHost;
    var frags := Frags(h);
    var twoRows := WantsTwoParityRows(h.key, |frags|);
    var rows := FragmentParity(frags, twoRows);
    out := [];
    for k := 0 to |rows|
      invariant |out| == k
      invariant forall i | 0 <= i < k ::
        out[i] == WtFragment(no, if twoRows then i / 2 else i, |frags|, h.captureUs, h.key, rows[i].0, rows[i].1)
    {
      var group := if twoRows then k / 2 else k;
      out := out + [WtFragment(no, group, |frags|, h.captureUs, h.key, rows[k].0, rows[k].1)];
    }
    SentRows(no, h, rows, out);
  }

  lemma SentRows(no: u32, h: HostFrame, rows: seq<(nat, bytes)>, out: seq<WtFragment>)
    requires Sendable(h) && |rows| == |out|
    requires var two, n := WantsTwoParityRows(h.key, |Frags(h)|), GroupCount(|Frags(h)|);
      && |rows| == (if two then 2 * n else n)
      && (forall i | 0 <= i < |out| :: out[i] ==
            WtFragment(no, if two then i / 2 else i, |Frags(h)|, h.captureUs, h.key, rows[i].0, rows[i].1))
      && (!two ==> forall g | 0 <= g < n :: rows[g] == (1, RowPayload(Frags(h), 1, g)))
      && (two ==> forall g | 0 <= g < n :: rows[2 * g] == (1, RowPayload(Frags(h), 1, g))
                                       && rows[2 * g + 1] == (2, RowPayload(Frags(h), 2, g)))
    ensures forall f | f in out :: FromHost(f, no, h)
    ensures RowsInOrder(no, h, out)
  {
    hide RowPayload, Split, Sendable;
    var two, n := WantsTwoParityRows(h.key, |Frags(h)|), GroupCount(|Frags(h)|);
    forall i | 0 <= i < |out| ensures FromHost(out[i], no, h) {
      if two {
        assert i == 2 * (i / 2) || i == 2 * (i / 2) + 1;
        assert rows[2 * (i / 2)].0 == 1 && rows[2 * (i / 2) + 1].0 == 2;
      } else {
        assert rows[i].0 == 1;
      }
    }
    forall g | 0 <= g < n
      ensures out[RowIndex(h, 1, g)] == ParityFragment(no, h, 1, g)
      ensures two ==> out[RowIndex(h, 2, g)] == ParityFragment(no, h, 2, g)
    {
      if two {
        assert rows[2 * g].0 == 1 && rows[2 * g + 1].0 == 2;
      } else {
        assert rows[g].0 == 1;
      }
    }
  }
}
