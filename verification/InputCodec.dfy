/** The binary input packet: the host's codec, and the browser's encoder that must produce the same bytes. */
module InputCodec {
  import opened Bytes

  const VERSION := 1
  const HEADER_LEN := 16
  const MAX_KEYS := 0xFFFF

  datatype Gamepad = Gamepad(buttons: int, lx: int, ly: int, rx: int, ry: int, lt: int, rt: int)

  datatype Snapshot = Snapshot(mouseButtons: int, modifiers: int, heldKeys: seq<int>, gamepad: Option<Gamepad>)

  datatype Event =
    | MouseMove(dx: int, dy: int, wheelX: int, wheelY: int)
    | MouseButtons(buttons: int)
    | Key(physicalCode: int, down: bool, modifiers: int)
    | Pad(pad: Gamepad)
    | State(snapshot: Snapshot)
    | Touch(pointerId: int, phase: int, x: int, y: int)

  datatype Packet = Packet(version: int, kind: int, flags: int, sequence: int, clientUs: int, event: Event)

  datatype CodecError = Truncated(need: nat, got: nat) | UnsupportedVersion(version: nat) | UnknownKind(kind: nat)

  datatype Outcome<+T> = Good(value: T) | Bad(error: CodecError) {
    predicate IsFailure() { Bad? }
    function PropagateFailure<U>(): Outcome<U>
      requires Bad?
    {
      Bad(error)
    }
    function Extract(): T
      requires Good?
    {
      value
    }
  }

  function KindOf(e: Event): (k: nat)
    ensures 1 <= k <= 6
  {
    match e
    case MouseMove(_, _, _, _) => 1
    case MouseButtons(_) => 2
    case Key(_, _, _) => 3
    case Pad(_) => 4
    case State(_) => 5
    case Touch(_, _, _, _) => 6
  }

  // ---- fields in their widths ----------------------------------------------------------

  /** A list of unsigned fields, least significant byte first. */
  function Fields(vs: seq<nat>, ws: seq<nat>): (r: bytes)
    requires |vs| == |ws|
  {
    if |vs| == 0 then [] else Le(vs[0], ws[0]) + Fields(vs[1..], ws[1..])
  }

  /** Reads fields of the given widths from `pos` on; the first that does not fit says how far it reached. */
  function ReadFields(b: bytes, pos: nat, ws: seq<nat>): (r: Outcome<(seq<nat>, nat)>)
    ensures r.Good? ==> |r.value.0| == |ws|
    decreases |ws|
  {
    if |ws| == 0 then Good(([], pos))
    else if pos + ws[0] > |b| then Bad(Truncated(pos + ws[0], |b|))
    else
      var rest :- ReadFields(b, pos + ws[0], ws[1..]);
      Good(([FromLe(b[pos..pos + ws[0]])] + rest.0, rest.1))
  }

  predicate FitWidths(vs: seq<nat>, ws: seq<nat>) {
    |vs| == |ws| && forall i | 0 <= i < |vs| :: vs[i] < Pow256(ws[i])
  }

  lemma FieldsHead(vs: seq<nat>, ws: seq<nat>)
    requires |vs| == |ws| > 0
    ensures Fields(vs, ws) == Le(vs[0], ws[0]) + Fields(vs[1..], ws[1..])
  {}

  lemma NoFields(vs: seq<nat>, ws: seq<nat>, b: bytes, pos: nat)
    requires |vs| == |ws| == 0
    ensures Fields(vs, ws) == [] && ReadFields(b, pos, ws) == Good((vs, pos))
  {}

  lemma ReadHead(b: bytes, pos: nat, ws: seq<nat>, rest: seq<nat>, end: nat)
    requires |ws| > 0 && pos + ws[0] <= |b| && ReadFields(b, pos + ws[0], ws[1..]) == Good((rest, end))
    ensures ReadFields(b, pos, ws) == Good(([FromLe(b[pos..pos + ws[0]])] + rest, end))
  {
    hide FromLe;
  }

  lemma {:induction false} FieldsReadBack(vs: seq<nat>, ws: seq<nat>, pre: bytes, post: bytes)
    requires FitWidths(vs, ws)
    ensures ReadFields(pre + Fields(vs, ws) + post, |pre|, ws) == Good((vs, |pre| + |Fields(vs, ws)|))
  {
    hide Fields, ReadFields, Le, FromLe, Pow256;
    var b := pre + Fields(vs, ws) + post;
    if |vs| == 0 {
      NoFields(vs, ws, b, |pre|);
    } else {
      var first, rest := Le(vs[0], ws[0]), Fields(vs[1..], ws[1..]);
      FieldsHead(vs, ws);
      assert b == (pre + first) + rest + post;
      FieldsReadBack(vs[1..], ws[1..], pre + first, post);
      assert b[|pre|..|pre| + ws[0]] == first;
      LeInverse(vs[0], ws[0]);
      ReadHead(b, |pre|, ws, vs[1..], |pre| + |first| + |rest|);
      assert [vs[0]] + vs[1..] == vs;
    }
  }

  /** What a shorter buffer does to a read that succeeds on the whole one: the same, or an honest truncation. */
  ghost predicate SameOrShort<T>(whole: Outcome<(T, nat)>, short: Outcome<(T, nat)>, cut: nat) {
    && whole.Good?
    && (short == whole || (short.Bad? && short.error.Truncated? && short.error.need > cut == short.error.got))
    && (whole.value.1 > cut ==> short.Bad?)
  }

  lemma {:induction false} FieldsShort(b: bytes, cut: nat, pos: nat, ws: seq<nat>)
    requires cut <= |b| && ReadFields(b, pos, ws).Good? && pos <= cut
    ensures SameOrShort(ReadFields(b, pos, ws), ReadFields(b[..cut], pos, ws), cut)
    decreases |ws|
  {
    if |ws| > 0 && pos + ws[0] <= cut {
      assert b[..cut][pos..pos + ws[0]] == b[pos..pos + ws[0]];
      FieldsShort(b, cut, pos + ws[0], ws[1..]);
    } else {
      FieldsAdvance(b, pos, ws);
    }
  }

  lemma {:induction false} FieldsAdvance(b: bytes, pos: nat, ws: seq<nat>)
    requires ReadFields(b, pos, ws).Good?
    ensures ReadFields(b, pos, ws).value.1 >= pos
    decreases |ws|
  {
    if |ws| > 0 {
      FieldsAdvance(b, pos + ws[0], ws[1..]);
    }
  }

  // ---- the layouts ----------------------------------------------------------------------

  const PAD_WIDTHS: seq<nat> := [4, 2, 2, 2, 2, 2, 2]
  const HEADER_WIDTHS: seq<nat> := [1, 1, 2, 4, 8]

  /** A 16-bit two's complement field. */
  function Unsigned(v: int): nat { v % 0x1_0000 }

  function Signed(v: nat): int { if v < 0x8000 then v else v - 0x1_0000 }

  predicate U8(v: int) { 0 <= v < 0x100 }
  predicate U16(v: int) { 0 <= v < 0x1_0000 }
  predicate U32(v: int) { 0 <= v < TWO32 }
  predicate I16(v: int) { -0x8000 <= v < 0x8000 }

  predicate PadFits(g: Gamepad) {
    U32(g.buttons) && I16(g.lx) && I16(g.ly) && I16(g.rx) && I16(g.ry) && U16(g.lt) && U16(g.rt)
  }

  predicate EventFits(e: Event) {
    match e
    case MouseMove(dx, dy, wx, wy) => I16(dx) && I16(dy) && I16(wx) && I16(wy)
    case MouseButtons(b) => U16(b)
    case Key(code, _, mods) => U16(code) && U8(mods)
    case Pad(g) => PadFits(g)
    case State(s) =>
      && U16(s.mouseButtons) && U8(s.modifiers) && (s.gamepad.Some? ==> PadFits(s.gamepad.value))
      && forall i | 0 <= i < |s.heldKeys| :: U16(s.heldKeys[i])
    case Touch(id, phase, x, y) => U32(id) && U8(phase) && U16(x) && U16(y)
  }

  /** A packet whose fields are in their types' ranges, as the constructor builds it. */
  predicate Fits(p: Packet) {
    && p.version == VERSION && p.kind == KindOf(p.event)
    && U16(p.flags) && U32(p.sequence) && 0 <= p.clientUs < 0x1_0000_0000_0000_0000
    && EventFits(p.event)
  }

  function PadFields(g: Gamepad): (r: seq<nat>)
    requires PadFits(g)
    ensures FitWidths(r, PAD_WIDTHS)
  {
    Widths();
    [g.buttons, Unsigned(g.lx), Unsigned(g.ly), Unsigned(g.rx), Unsigned(g.ry), g.lt, g.rt]
  }

  function PadOf(v: seq<nat>): Gamepad
    requires |v| == 7
  {
    Gamepad(v[0], Signed(v[1]), Signed(v[2]), Signed(v[3]), Signed(v[4]), v[5], v[6])
  }

  lemma PadBack(g: Gamepad)
    requires PadFits(g)
    ensures PadOf(PadFields(g)) == g
  {}

  function Kept(keys: seq<int>): (r: seq<int>)
    ensures |r| <= MAX_KEYS && |r| <= |keys| && r == keys[..|r|]
    ensures |keys| <= MAX_KEYS ==> r == keys
  {
    if |keys| <= MAX_KEYS then keys else keys[..MAX_KEYS]
  }

  /** A run of `n` two-byte fields. */
  function Twos(n: nat): (r: seq<nat>)
    ensures |r| == n && forall i | 0 <= i < n :: r[i] == 2
  {
    seq(n, _ => 2)
  }

  function Nats(keys: seq<int>): (r: seq<nat>)
    requires forall i | 0 <= i < |keys| :: U16(keys[i])
    ensures |r| == |keys| && forall i | 0 <= i < |keys| :: r[i] == keys[i]
  {
    if |keys| == 0 then []
    else
      assert U16(keys[|keys| - 1]);
      var last: nat := keys[|keys| - 1];
      Nats(keys[..|keys| - 1]) + [last]
  }

  function Ints(v: seq<nat>): (r: seq<int>)
    ensures |r| == |v| && forall i | 0 <= i < |v| :: r[i] == v[i]
  {
    seq(|v|, i requires 0 <= i < |v| => v[i] as int)
  }

  function EncodePad(g: Gamepad): bytes
    requires PadFits(g)
  {
    Fields(PadFields(g), PAD_WIDTHS)
  }

  function EncodeSnapshot(s: Snapshot): bytes
    requires EventFits(State(s))
  {
    Fields([s.mouseButtons, s.modifiers, if s.gamepad.Some? then 1 else 0, |Kept(s.heldKeys)|], [2, 1, 1, 2])
    + Fields(Nats(Kept(s.heldKeys)), Twos(|Kept(s.heldKeys)|))
    + (if s.gamepad.Some? then EncodePad(s.gamepad.value) else [])
  }

  function EncodeEvent(e: Event): bytes
    requires EventFits(e)
  {
    match e
    case MouseMove(dx, dy, wx, wy) =>
      Fields([Unsigned(dx), Unsigned(dy), Unsigned(wx), Unsigned(wy)], [2, 2, 2, 2])
    case MouseButtons(b) => Fields([b], [2])
    case Key(code, down, mods) => Fields([code, if down then 1 else 0, mods], [2, 1, 1])
    case Pad(g) => EncodePad(g)
    case State(s) => EncodeSnapshot(s)
    case Touch(id, phase, x, y) => Fields([id, phase, 0, x, y], [4, 1, 1, 2, 2])
  }

  function Encode(p: Packet): bytes
    requires Fits(p)
  {
    Fields([p.version, p.kind, p.flags, p.sequence, p.clientUs], HEADER_WIDTHS) + EncodeEvent(p.event)
  }

  function DecodeSnapshot(b: bytes, pos: nat): Outcome<(Event, nat)> {
    var head :- ReadFields(b, pos, [2, 1, 1, 2]);
    var keys :- ReadFields(b, head.1, Twos(head.0[3]));
    if head.0[2] % 2 == 1 then
      var pad :- ReadFields(b, keys.1, PAD_WIDTHS);
      Good((State(Snapshot(head.0[0], head.0[1], Ints(keys.0), Some(PadOf(pad.0)))), pad.1))
    else Good((State(Snapshot(head.0[0], head.0[1], Ints(keys.0), None)), keys.1))
  }

  function DecodeEvent(b: bytes, pos: nat, kind: nat): Outcome<(Event, nat)>
    requires 1 <= kind <= 6
  {
    match kind
    case 1 =>
      var r :- ReadFields(b, pos, [2, 2, 2, 2]);
      Good((MouseMove(Signed(r.0[0]), Signed(r.0[1]), Signed(r.0[2]), Signed(r.0[3])), r.1))
    case 2 =>
      var r :- ReadFields(b, pos, [2]);
      Good((MouseButtons(r.0[0]), r.1))
    case 3 =>
      var r :- ReadFields(b, pos, [2, 1, 1]);
      Good((Key(r.0[0], r.0[1] != 0, r.0[2]), r.1))
    case 4 =>
      var r :- ReadFields(b, pos, PAD_WIDTHS);
      Good((Pad(PadOf(r.0)), r.1))
    case 5 => DecodeSnapshot(b, pos)
    case _ =>
      var r :- ReadFields(b, pos, [4, 1, 1, 2, 2]);
      Good((Touch(r.0[0], r.0[1], r.0[3], r.0[4]), r.1))
  }

  function Decode(b: bytes): Outcome<Packet> {
    if |b| < HEADER_LEN then Bad(Truncated(HEADER_LEN, |b|))
    else
      var h :- ReadFields(b, 0, HEADER_WIDTHS);
      if h.0[0] != VERSION then Bad(UnsupportedVersion(h.0[0]))
      else if !(1 <= h.0[1] <= 6) then Bad(UnknownKind(h.0[1]))
      else
        var e :- DecodeEvent(b, h.1, h.0[1]);
        Good(Packet(h.0[0], h.0[1], h.0[2], h.0[3], h.0[4], e.0))
  }

  // ---- round trip ------------------------------------------------------------------------------

  /** What the wire can carry of a packet: a snapshot's first 65535 held keys. */
  function Clip(e: Event): Event {
    match e
    case State(s) => State(s.(heldKeys := Kept(s.heldKeys)))
    case _ => e
  }

  lemma SignedBack(v: int)
    requires I16(v)
    ensures Signed(Unsigned(v)) == v && Unsigned(v) < 0x1_0000
  {}

  lemma PadReadsBack(g: Gamepad, pre: bytes, post: bytes)
    requires PadFits(g)
    ensures var r := ReadFields(pre + EncodePad(g) + post, |pre|, PAD_WIDTHS);
      r.Good? && PadOf(r.value.0) == g && r.value.1 == |pre| + |EncodePad(g)|
  {
    hide Fields, ReadFields, Pow256, PadFields, PadOf;
    FieldsReadBack(PadFields(g), PAD_WIDTHS, pre, post);
    PadBack(g);
  }

  lemma SnapshotReadsBack(s: Snapshot, pre: bytes, post: bytes)
    requires EventFits(State(s))
    ensures DecodeSnapshot(pre + EncodeSnapshot(s) + post, |pre|)
         == Good((Clip(State(s)), |pre| + |EncodeSnapshot(s)|))
  {
    hide Fields, ReadFields, Pow256, EncodePad, PadOf, PadFits;
    Widths();
    var keys := Kept(s.heldKeys);
    var flag := if s.gamepad.Some? then 1 else 0;
    var head := Fields([s.mouseButtons, s.modifiers, flag, |keys|], [2, 1, 1, 2]);
    var held := Fields(Nats(keys), Twos(|keys|));
    var pad := if s.gamepad.Some? then EncodePad(s.gamepad.value) else [];
    var b := pre + EncodeSnapshot(s) + post;
    assert b == pre + head + (held + pad + post);
    FieldsReadBack([s.mouseButtons, s.modifiers, flag, |keys|], [2, 1, 1, 2], pre, held + pad + post);
    assert b == (pre + head) + held + (pad + post);
    KeysFit(keys);
    FieldsReadBack(Nats(keys), Twos(|keys|), pre + head, pad + post);
    assert Ints(Nats(keys)) == keys;
    if s.gamepad.Some? {
      assert b == (pre + head + held) + pad + post;
      PadReadsBack(s.gamepad.value, pre + head + held, post);
    }
  }

  lemma KeysFit(keys: seq<int>)
    requires forall i | 0 <= i < |keys| :: U16(keys[i])
    ensures FitWidths(Nats(keys), Twos(|keys|))
  {
    Widths();
  }

  lemma SimpleReadsBack(e: Event, vs: seq<nat>, ws: seq<nat>, pre: bytes, post: bytes)
    requires EventFits(e) && FitWidths(vs, ws) && EncodeEvent(e) == Fields(vs, ws)
    ensures ReadFields(pre + EncodeEvent(e) + post, |pre|, ws) == Good((vs, |pre| + |EncodeEvent(e)|))
  {
    FieldsReadBack(vs, ws, pre, post);
  }

  lemma EventReadsBack(e: Event, pre: bytes, post: bytes)
    requires EventFits(e)
    ensures DecodeEvent(pre + EncodeEvent(e) + post, |pre|, KindOf(e))
         == Good((Clip(e), |pre| + |EncodeEvent(e)|))
  {
    hide Fields, ReadFields, Pow256, DecodeSnapshot, EncodeSnapshot, EncodePad, PadOf, PadFits, Kept;
    Widths();
    match e
    case MouseMove(dx, dy, wx, wy) =>
      SignedBack(dx); SignedBack(dy); SignedBack(wx); SignedBack(wy);
      SimpleReadsBack(e, [Unsigned(dx), Unsigned(dy), Unsigned(wx), Unsigned(wy)], [2, 2, 2, 2], pre, post);
    case MouseButtons(b) => SimpleReadsBack(e, [b], [2], pre, post);
    case Key(code, down, mods) => SimpleReadsBack(e, [code, if down then 1 else 0, mods], [2, 1, 1], pre, post);
    case Pad(g) => PadReadsBack(g, pre, post);
    case State(s) => SnapshotReadsBack(s, pre, post);
    case Touch(id, phase, x, y) => SimpleReadsBack(e, [id, phase, 0, x, y], [4, 1, 1, 2, 2], pre, post);
  }

  lemma HeaderReadsBack(p: Packet, post: bytes)
    requires Fits(p)
    ensures var vs := [p.version, p.kind, p.flags, p.sequence, p.clientUs];
      && |Fields(vs, HEADER_WIDTHS)| == HEADER_LEN
      && ReadFields(Fields(vs, HEADER_WIDTHS) + post, 0, HEADER_WIDTHS) == Good((vs, HEADER_LEN))
  {
    hide ReadFields, EventFits;
    Widths();
    var vs: seq<nat> := [p.version, p.kind, p.flags, p.sequence, p.clientUs];
    HeaderSize(vs);
    FieldsReadBack(vs, HEADER_WIDTHS, [], post);
    assert [] + Fields(vs, HEADER_WIDTHS) + post == Fields(vs, HEADER_WIDTHS) + post;
  }

  lemma {:induction false} FieldsSize(vs: seq<nat>, ws: seq<nat>)
    requires |vs| == |ws|
    ensures |Fields(vs, ws)| == Sum(ws)
  {
    if |vs| > 0 {
      FieldsSize(vs[1..], ws[1..]);
    }
  }

  function Sum(ws: seq<nat>): nat {
    if |ws| == 0 then 0 else ws[0] + Sum(ws[1..])
  }

  lemma HeaderSize(vs: seq<nat>)
    requires |vs| == 5
    ensures |Fields(vs, HEADER_WIDTHS)| == 16
  {
    FieldsSize(vs, HEADER_WIDTHS);
    assert HEADER_WIDTHS[1..] == [1, 2, 4, 8] && [1, 2, 4, 8][1..] == [2, 4, 8] && [2, 4, 8][1..] == [4, 8]
      && [4, 8][1..] == [8] && [8][1..] == [];
  }

  /** Decoding undoes encoding, trailing bytes ignored, but for held keys past the 65535th. */
  lemma RoundTrip(p: Packet, tail: bytes)
    requires Fits(p)
    ensures Decode(Encode(p) + tail) == Good(p.(event := Clip(p.event)))
    ensures Decode(Encode(p) + tail) == Good(p) <==> (p.event.State? ==> |p.event.snapshot.heldKeys| <= MAX_KEYS)
  {
    hide Fields, ReadFields, DecodeEvent, EncodeEvent, EventFits;
    var head := Fields([p.version, p.kind, p.flags, p.sequence, p.clientUs], HEADER_WIDTHS);
    var b := Encode(p) + tail;
    assert b == head + (EncodeEvent(p.event) + tail);
    HeaderReadsBack(p, EncodeEvent(p.event) + tail);
    assert b == head + EncodeEvent(p.event) + tail;
    EventReadsBack(p.event, head, tail);
  }

  // ---- truncation ---------------------------------------------------------------------------------

  lemma SnapshotShort(b: bytes, cut: nat, pos: nat)
    requires pos <= cut <= |b| && DecodeSnapshot(b, pos).Good?
    ensures SameOrShort(DecodeSnapshot(b, pos), DecodeSnapshot(b[..cut], pos), cut)
  {
    hide ReadFields, PadOf;
    var head := ReadFields(b, pos, [2, 1, 1, 2]);
    FieldsShort(b, cut, pos, [2, 1, 1, 2]);
    var ws := Twos(head.value.0[3]);
    var keys := ReadFields(b, head.value.1, ws);
    FieldsAdvance(b, head.value.1, ws);
    if head.value.1 <= cut {
      FieldsShort(b, cut, head.value.1, ws);
      if head.value.0[2] % 2 == 1 {
        FieldsAdvance(b, keys.value.1, PAD_WIDTHS);
        if keys.value.1 <= cut {
          FieldsShort(b, cut, keys.value.1, PAD_WIDTHS);
        }
      }
    }
  }

  lemma EventShort(b: bytes, cut: nat, pos: nat, kind: nat)
    requires pos <= cut <= |b| && 1 <= kind <= 6 && DecodeEvent(b, pos, kind).Good?
    ensures SameOrShort(DecodeEvent(b, pos, kind), DecodeEvent(b[..cut], pos, kind), cut)
  {
    hide ReadFields, PadOf, DecodeSnapshot;
    match kind
    case 1 => FieldsShort(b, cut, pos, [2, 2, 2, 2]);
    case 2 => FieldsShort(b, cut, pos, [2]);
    case 3 => FieldsShort(b, cut, pos, [2, 1, 1]);
    case 4 => FieldsShort(b, cut, pos, PAD_WIDTHS);
    case 5 => SnapshotShort(b, cut, pos);
    case _ => FieldsShort(b, cut, pos, [4, 1, 1, 2, 2]);
  }

  /** Every proper prefix of an encoded packet is refused as truncated, saying how much there was. */
  lemma PrefixIsTruncated(p: Packet, cut: nat)
    requires Fits(p) && cut < |Encode(p)|
    ensures var r := Decode(Encode(p)[..cut]);
      r.Bad? && r.error.Truncated? && r.error.got == cut < r.error.need
  {
    hide Fields, ReadFields, DecodeEvent, EncodeEvent, EventFits;
    var head := Fields([p.version, p.kind, p.flags, p.sequence, p.clientUs], HEADER_WIDTHS);
    var b := Encode(p);
    HeaderReadsBack(p, EncodeEvent(p.event));
    if cut >= HEADER_LEN {
      assert b[..cut] == head + EncodeEvent(p.event)[..cut - HEADER_LEN];
      HeaderReadsBack(p, EncodeEvent(p.event)[..cut - HEADER_LEN]);
      assert b == head + EncodeEvent(p.event) + [];
      EventReadsBack(p.event, head, []);
      EventShort(b, cut, HEADER_LEN, p.kind);
    }
  }

  // ---- sizes ---------------------------------------------------------------------------------------

  lemma {:induction false} TwosSum(n: nat)
    ensures Sum(Twos(n)) == 2 * n
  {
    if n > 0 {
      assert Twos(n)[1..] == Twos(n - 1);
      TwosSum(n - 1);
    }
  }

  lemma WidthSums()
    ensures Sum(HEADER_WIDTHS) == 16 && Sum(PAD_WIDTHS) == 16 && Sum([2, 1, 1, 2]) == 6 && Sum([4, 1, 1, 2, 2]) == 10
    ensures Sum([2]) == 2 && Sum([2, 1, 1]) == 4 && Sum([2, 2, 2, 2]) == 8
  {
    assert HEADER_WIDTHS[1..] == [1, 2, 4, 8] && [1, 2, 4, 8][1..] == [2, 4, 8] && [2, 4, 8][1..] == [4, 8]
      && [4, 8][1..] == [8] && [8][1..] == [];
    assert PAD_WIDTHS[1..] == Twos(6) && Sum(Twos(6)) == 12 by { TwosSum(6); }
    assert [2, 1, 1, 2][1..] == [1, 1, 2] && [1, 1, 2][1..] == [1, 2] && [1, 2][1..] == [2] && [2][1..] == [];
    assert [4, 1, 1, 2, 2][1..] == [1, 1, 2, 2] && [1, 1, 2, 2][1..] == [1, 2, 2] && [1, 2, 2][1..] == [2, 2];
    assert [2, 2][1..] == [2] && [2, 1, 1][1..] == [1, 1] && [1, 1][1..] == [1] && [1][1..] == [];
    assert [2, 2, 2, 2] == Twos(4) && Sum(Twos(4)) == 8 by { TwosSum(4); }
  }

  /** What a packet takes on the wire. */
  lemma EncodedSize(p: Packet)
    requires Fits(p)
    ensures |Encode(p)| == 16 +
      match p.event
      case MouseMove(_, _, _, _) => 8
      case MouseButtons(_) => 2
      case Key(_, _, _) => 4
      case Pad(_) => 16
      case State(s) => 6 + 2 * |Kept(s.heldKeys)| + (if s.gamepad.Some? then 16 else 0)
      case Touch(_, _, _, _) => 10
  {
    hide Fields, Sum, PadFields, Twos;
    WidthSums();
    FieldsSize([p.version, p.kind, p.flags, p.sequence, p.clientUs], HEADER_WIDTHS);
    match p.event
    case MouseMove(dx, dy, wx, wy) =>
      FieldsSize([Unsigned(dx), Unsigned(dy), Unsigned(wx), Unsigned(wy)], [2, 2, 2, 2]);
    case MouseButtons(b) => FieldsSize([b], [2]);
    case Key(code, down, mods) => FieldsSize([code, if down then 1 else 0, mods], [2, 1, 1]);
    case Pad(g) => FieldsSize(PadFields(g), PAD_WIDTHS);
    case State(s) => SnapshotSize(s);
    case Touch(id, phase, x, y) => FieldsSize([id, phase, 0, x, y], [4, 1, 1, 2, 2]);
  }

  lemma SnapshotSize(s: Snapshot)
    requires EventFits(State(s))
    ensures |EncodeSnapshot(s)| == 6 + 2 * |Kept(s.heldKeys)| + (if s.gamepad.Some? then 16 else 0)
  {
    hide Fields, Sum, PadFields, PadFits;
    var keys := Kept(s.heldKeys);
    WidthSums();
    TwosSum(|keys|);
    FieldsSize([s.mouseButtons, s.modifiers, if s.gamepad.Some? then 1 else 0, |keys|], [2, 1, 1, 2]);
    FieldsSize(Nats(keys), Twos(|keys|));
    if s.gamepad.Some? {
      FieldsSize(PadFields(s.gamepad.value), PAD_WIDTHS);
    }
  }

  // ---- the browser's encoder -------------------------------------------------------------------------

  function TsU8(v: int): bytes { [ByteOf(v % 256)] }

  function TsU16(v: int): bytes { [ByteOf(v % 256), ByteOf(v / 256 % 256)] }

  function TsI16(v: int): bytes { TsU16(if v < 0 then v + 0x1_0000 else v) }

  function TsU32(v: int): bytes {
    [ByteOf(v % 256), ByteOf(v / 256 % 256), ByteOf(v / 0x1_0000 % 256), ByteOf(v / 0x100_0000 % 256)]
  }

  function TsPad(g: Gamepad): bytes {
    TsU32(g.buttons) + (TsI16(g.lx) + (TsI16(g.ly) + (TsI16(g.rx) + (TsI16(g.ry) + (TsU16(g.lt) + TsU16(g.rt))))))
  }

  function TsKeys(keys: seq<int>): (r: bytes)
    ensures |r| == 2 * |keys|
  {
    if |keys| == 0 then [] else TsU16(keys[0]) + TsKeys(keys[1..])
  }

  /** The payload as the browser writes it: every held key, behind a count that wraps at 16 bits. */
  function TsPayload(e: Event): bytes {
    match e
    case MouseMove(dx, dy, wx, wy) => TsI16(dx) + (TsI16(dy) + (TsI16(wx) + TsI16(wy)))
    case MouseButtons(b) => TsU16(b)
    case Key(code, down, mods) => TsU16(code) + (TsU8(if down then 1 else 0) + TsU8(mods))
    case Pad(g) => TsPad(g)
    case State(s) =>
      (TsU16(s.mouseButtons) + (TsU8(s.modifiers) + (TsU8(if s.gamepad.Some? then 1 else 0) + TsU16(|s.heldKeys|))))
      + TsKeys(s.heldKeys)
      + (if s.gamepad.Some? then TsPad(s.gamepad.value) else [])
    case Touch(id, phase, x, y) => TsU32(id) + (TsU8(phase) + (TsU8(0) + (TsU16(x) + TsU16(y))))
  }

  function TsEncode(sequence: int, clientUs: int, flags: int, e: Event): bytes {
    TsU8(VERSION) + (TsU8(KindOf(e)) + (TsU16(flags) + (TsU32(sequence) + Le(clientUs % 0x1_0000_0000_0000_0000, 8))))
    + TsPayload(e)
  }

  lemma TsWidths(v: nat)
    ensures TsU8(v) == Le(v, 1) && TsU16(v) == Le(v, 2) && TsU32(v) == Le(v, 4)
  {
    hide ByteOf;
    assert Le(v, 1) == [ByteOf(v % 256)] + [];
    assert Le(v, 2) == [ByteOf(v % 256)] + Le(v / 256, 1);
    assert Le(v / 256, 1) == [ByteOf(v / 256 % 256)] + [];
    assert Le(v, 4) == [ByteOf(v % 256)] + Le(v / 256, 3);
    assert Le(v / 256, 3) == [ByteOf(v / 256 % 256)] + Le(v / 256 / 256, 2);
    assert Le(v / 256 / 256, 2) == [ByteOf(v / 256 / 256 % 256)] + Le(v / 256 / 256 / 256, 1);
    assert v / 256 / 256 == v / 0x1_0000 && v / 256 / 256 / 256 == v / 0x100_0000;
    assert Le(v / 0x100_0000, 1) == [ByteOf(v / 0x100_0000 % 256)] + [];
  }

  lemma UnsignedIs(v: int)
    requires I16(v)
    ensures Unsigned(v) == if v < 0 then v + 0x1_0000 else v
  {}

  lemma TsSigned(v: int)
    requires I16(v)
    ensures TsI16(v) == Le(Unsigned(v), 2)
  {
    hide TsU16, Le, Unsigned;
    UnsignedIs(v);
    TsWidths(Unsigned(v));
  }

  lemma FieldsCons(v: nat, w: nat, vs: seq<nat>, ws: seq<nat>)
    requires |vs| == |ws|
    ensures Fields([v] + vs, [w] + ws) == Le(v, w) + Fields(vs, ws)
  {
    assert ([v] + vs)[1..] == vs && ([w] + ws)[1..] == ws;
  }

  lemma FieldsOne(v: nat, w: nat)
    ensures Fields([v], [w]) == Le(v, w)
  {
    assert [v][1..] == [] && [w][1..] == [];
  }

  lemma FieldsThree(a: nat, b: nat, c: nat, u: nat, v: nat, w: nat)
    ensures Fields([a, b, c], [u, v, w]) == Le(a, u) + (Le(b, v) + Le(c, w))
  {
    hide Fields, Le;
    FieldsOne(c, w);
    FieldsCons(b, v, [c], [w]);
    FieldsCons(a, u, [b, c], [v, w]);
    assert [b] + [c] == [b, c] && [a] + [b, c] == [a, b, c];
    assert [v] + [w] == [v, w] && [u] + [v, w] == [u, v, w];
  }

  lemma FieldsFour(a: nat, b: nat, c: nat, d: nat, s: nat, u: nat, v: nat, w: nat)
    ensures Fields([a, b, c, d], [s, u, v, w]) == Le(a, s) + (Le(b, u) + (Le(c, v) + Le(d, w)))
  {
    hide Fields, Le;
    FieldsThree(b, c, d, u, v, w);
    FieldsCons(a, s, [b, c, d], [u, v, w]);
    assert [a] + [b, c, d] == [a, b, c, d] && [s] + [u, v, w] == [s, u, v, w];
  }

  lemma FiveOf(a: nat, b: nat, c: nat, d: nat, e: nat)
    ensures [a] + [b, c, d, e] == [a, b, c, d, e]
  {}

  lemma FieldsFive(a: nat, b: nat, c: nat, d: nat, e: nat, r: nat, s: nat, u: nat, v: nat, w: nat)
    ensures Fields([a, b, c, d, e], [r, s, u, v, w]) == Le(a, r) + (Le(b, s) + (Le(c, u) + (Le(d, v) + Le(e, w))))
  {
    hide Fields, Le;
    FieldsFour(b, c, d, e, s, u, v, w);
    FieldsCons(a, r, [b, c, d, e], [s, u, v, w]);
    FiveOf(a, b, c, d, e);
    FiveOf(r, s, u, v, w);
  }

  lemma PadBytes(g: Gamepad)
    requires PadFits(g)
    ensures EncodePad(g) ==
      Le(g.buttons, 4) + (Le(Unsigned(g.lx), 2) + (Le(Unsigned(g.ly), 2) + (Le(Unsigned(g.rx), 2)
      + (Le(Unsigned(g.ry), 2) + (Le(g.lt, 2) + Le(g.rt, 2))))))
  {
    hide Fields, Le, Unsigned;
    var lx, ly, rx, ry := Unsigned(g.lx), Unsigned(g.ly), Unsigned(g.rx), Unsigned(g.ry);
    FieldsFour(rx, ry, g.lt, g.rt, 2, 2, 2, 2);
    FieldsCons(ly, 2, [rx, ry, g.lt, g.rt], [2, 2, 2, 2]);
    FieldsCons(lx, 2, [ly, rx, ry, g.lt, g.rt], [2, 2, 2, 2, 2]);
    FieldsCons(g.buttons, 4, [lx, ly, rx, ry, g.lt, g.rt], [2, 2, 2, 2, 2, 2]);
    assert [ly] + [rx, ry, g.lt, g.rt] == [ly, rx, ry, g.lt, g.rt] && [2] + [2, 2, 2, 2] == [2, 2, 2, 2, 2];
    assert [lx] + [ly, rx, ry, g.lt, g.rt] == [lx, ly, rx, ry, g.lt, g.rt] && [2] + [2, 2, 2, 2, 2] == [2, 2, 2, 2, 2, 2];
    assert [g.buttons] + [lx, ly, rx, ry, g.lt, g.rt] == PadFields(g) && [4] + [2, 2, 2, 2, 2, 2] == PAD_WIDTHS;
  }

  lemma PadSame(g: Gamepad)
    requires PadFits(g)
    ensures TsPad(g) == EncodePad(g)
  {
    hide Fields, Le, TsU16, TsU32, TsI16, Unsigned, EncodePad;
    PadBytes(g);
    TsWidths(g.buttons); TsWidths(g.lt); TsWidths(g.rt);
    TsSigned(g.lx); TsSigned(g.ly); TsSigned(g.rx); TsSigned(g.ry);
  }

  lemma {:induction false} KeysSame(keys: seq<int>)
    requires forall i | 0 <= i < |keys| :: U16(keys[i])
    ensures TsKeys(keys) == Fields(Nats(keys), Twos(|keys|))
  {
    hide TsU16, Le;
    if |keys| > 0 {
      KeysSame(keys[1..]);
      TsWidths(keys[0]);
      assert Nats(keys)[1..] == Nats(keys[1..]) && Twos(|keys|)[1..] == Twos(|keys[1..]|);
    }
  }

  lemma SnapshotSame(s: Snapshot)
    requires EventFits(State(s))
    ensures TsPayload(State(s)) == EncodeSnapshot(s) <==> |s.heldKeys| <= MAX_KEYS
  {
    hide Fields, Le, TsU16, TsU8, TsPad, EncodePad, PadFits, TsKeys;
    var flag := if s.gamepad.Some? then 1 else 0;
    if s.gamepad.Some? {
      PadSame(s.gamepad.value);
    }
    var n := |Kept(s.heldKeys)|;
    HeadSize(s.mouseButtons, s.modifiers, flag, n);
    HeadSize(s.mouseButtons, s.modifiers, flag, |s.heldKeys|);
    KeysSame(Kept(s.heldKeys));
  }

  lemma HeadSize(a: nat, b: nat, c: nat, d: nat)
    ensures Fields([a, b, c, d], [2, 1, 1, 2]) == TsU16(a) + (TsU8(b) + (TsU8(c) + TsU16(d)))
    ensures |Fields([a, b, c, d], [2, 1, 1, 2])| == 6
  {
    hide Fields, Le;
    FieldsFour(a, b, c, d, 2, 1, 1, 2);
    TsWidths(a); TsWidths(b); TsWidths(c); TsWidths(d);
  }

  lemma PayloadSame(e: Event)
    requires EventFits(e)
    ensures TsPayload(e) == EncodeEvent(e) <==> (e.State? ==> |e.snapshot.heldKeys| <= MAX_KEYS)
  {
    hide Fields, Le, TsU16, TsU8, TsU32, TsI16, EncodeSnapshot, Unsigned;
    match e
    case MouseMove(dx, dy, wx, wy) =>
      TsSigned(dx); TsSigned(dy); TsSigned(wx); TsSigned(wy);
      FieldsFour(Unsigned(dx), Unsigned(dy), Unsigned(wx), Unsigned(wy), 2, 2, 2, 2);
    case MouseButtons(b) => TsWidths(b); FieldsOne(b, 2);
    case Key(code, down, mods) =>
      TsWidths(code); TsWidths(0); TsWidths(1); TsWidths(mods);
      FieldsThree(code, if down then 1 else 0, mods, 2, 1, 1);
    case Pad(g) => PadSame(g);
    case State(s) => SnapshotSame(s);
    case Touch(id, phase, x, y) =>
      TsWidths(id); TsWidths(phase); TsWidths(0); TsWidths(x); TsWidths(y);
      FieldsFive(id, phase, 0, x, y, 4, 1, 1, 2, 2);
  }

  /** The two encoders produce the same bytes for every packet in range, exactly up to 65535 held keys. */
  lemma EncodersAgree(p: Packet)
    requires Fits(p)
    ensures TsEncode(p.sequence, p.clientUs, p.flags, p.event) == Encode(p)
       <==> (p.event.State? ==> |p.event.snapshot.heldKeys| <= MAX_KEYS)
  {
    hide Fields, Le, TsU16, TsU8, TsU32, TsPayload, EncodeEvent, EventFits;
    PayloadSame(p.event);
    TsWidths(p.version); TsWidths(p.kind); TsWidths(p.flags); TsWidths(p.sequence);
    FieldsFive(p.version, p.kind, p.flags, p.sequence, p.clientUs, 1, 1, 2, 4, 8);
    var head := Fields([p.version, p.kind, p.flags, p.sequence, p.clientUs], HEADER_WIDTHS);
    SameTail(head, TsPayload(p.event), EncodeEvent(p.event));
  }

  lemma SameTail(head: bytes, a: bytes, b: bytes)
    ensures head + a == head + b <==> a == b
  {
    assert (head + a)[|head|..] == a && (head + b)[|head|..] == b;
  }
}
