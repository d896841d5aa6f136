/** The host's packet codec as it runs: a writer that appends fields and a reader that advances over them. */
module InputBuffers {
  import opened Bytes
  import C = InputCodec

  // ---- writing -------------------------------------------------------------------------

  class Writer {
    var out: bytes

    constructor ()
      ensures out == []
    {
      out := [];
    }

    method U8(v: nat)
      requires C.U8(v)
      modifies this
      ensures out == old(out) + Le(v, 1)
    {
      out := out + Le(v, 1);
    }

    method U16(v: nat)
      requires C.U16(v)
      modifies this
      ensures out == old(out) + Le(v, 2)
    {
      out := out + Le(v, 2);
    }

    method I16(v: int)
      requires C.I16(v)
      modifies this
      ensures out == old(out) + Le(C.Unsigned(v), 2)
    {
      out := out + Le(C.Unsigned(v), 2);
    }

    method U32(v: nat)
      requires C.U32(v)
      modifies this
      ensures out == old(out) + Le(v, 4)
    {
      out := out + Le(v, 4);
    }

    method U64(v: nat)
      modifies this
      ensures out == old(out) + Le(v, 8)
    {
      out := out + Le(v, 8);
    }
  }

  method WritePad(w: Writer, g: C.Gamepad)
    requires C.PadFits(g)
    modifies w
    ensures w.out == old(w.out) + C.EncodePad(g)
  {
    hide Le, C.Unsigned, C.EncodePad;
    C.PadBytes(g);
    w.U32(g.buttons);
    w.I16(g.lx);
    w.I16(g.ly);
    w.I16(g.rx);
    w.I16(g.ry);
    w.U16(g.lt);
    w.U16(g.rt);
  }

  lemma {:induction false} FieldsSnoc(vs: seq<nat>, ws: seq<nat>, v: nat, w: nat)
    requires |vs| == |ws|
    ensures C.Fields(vs + [v], ws + [w]) == C.Fields(vs, ws) + Le(v, w)
  {
    hide Le;
    if |vs| == 0 {
      assert vs + [v] == [v] && ws + [w] == [w];
      C.FieldsOne(v, w);
    } else {
      assert (vs + [v])[1..] == vs[1..] + [v] && (ws + [w])[1..] == ws[1..] + [w];
      FieldsSnoc(vs[1..], ws[1..], v, w);
    }
  }

  lemma KeysSnoc(keys: seq<int>, i: nat)
    requires i < |keys| && forall k | 0 <= k < |keys| :: C.U16(keys[k])
    ensures C.Fields(C.Nats(keys[..i + 1]), C.Twos(i + 1)) == C.Fields(C.Nats(keys[..i]), C.Twos(i)) + Le(keys[i], 2)
  {
    hide Le, C.Fields;
    FieldsSnoc(C.Nats(keys[..i]), C.Twos(i), keys[i], 2);
    assert C.Nats(keys[..i + 1]) == C.Nats(keys[..i]) + [keys[i]];
    assert C.Twos(i + 1) == C.Twos(i) + [2];
  }

  method WriteKeys(w: Writer, keys: seq<int>)
    requires forall k | 0 <= k < |keys| :: C.U16(keys[k])
    modifies w
    ensures w.out == old(w.out) + C.Fields(C.Nats(keys), C.Twos(|keys|))
  {
    hide Le, C.Fields, C.Nats, C.Twos;
    NoKeys();
    for i := 0 to |keys|
      invariant w.out == old(w.out) + C.Fields(C.Nats(keys[..i]), C.Twos(i))
    {
      KeysSnoc(keys, i);
      Regroup(old(w.out), C.Fields(C.Nats(keys[..i]), C.Twos(i)), Le(keys[i], 2));
      w.U16(keys[i]);
    }
    assert keys[..|keys|] == keys;
  }

  method WriteSnapshotHead(w: Writer, mouseButtons: nat, modifiers: nat, flag: nat, count: nat)
    requires C.U16(mouseButtons) && C.U8(modifiers) && C.U8(flag) && C.U16(count)
    modifies w
    ensures w.out == old(w.out) + C.Fields([mouseButtons, modifiers, flag, count], [2, 1, 1, 2])
  {
    hide Le, C.Fields;
    C.FieldsFour(mouseButtons, modifiers, flag, count, 2, 1, 1, 2);
    w.U16(mouseButtons);
    w.U8(modifiers);
    w.U8(flag);
    w.U16(count);
  }

  method WriteSnapshot(w: Writer, s: C.Snapshot)
    requires C.EventFits(C.State(s))
    modifies w
    ensures w.out == old(w.out) + C.EncodeSnapshot(s)
  {
    hide Le, C.Fields, C.EncodePad, C.PadFits, C.Nats, C.Twos;
    var count := if |s.heldKeys| <= C.MAX_KEYS then |s.heldKeys| else C.MAX_KEYS;
    WriteSnapshotHead(w, s.mouseButtons, s.modifiers, if s.gamepad.Some? then 1 else 0, count);
    WriteKeys(w, s.heldKeys[..count]);
    if s.gamepad.Some? {
      WritePad(w, s.gamepad.value);
    }
  }

  lemma NoKeys()
    ensures C.Fields([], []) == [] && C.Twos(0) == [] && C.Nats([]) == []
  {}

  method WriteMove(w: Writer, dx: int, dy: int, wheelX: int, wheelY: int)
    requires C.EventFits(C.MouseMove(dx, dy, wheelX, wheelY))
    modifies w
    ensures w.out == old(w.out) + C.EncodeEvent(C.MouseMove(dx, dy, wheelX, wheelY))
  {
    hide Le, C.Fields, C.Unsigned;
    C.FieldsFour(C.Unsigned(dx), C.Unsigned(dy), C.Unsigned(wheelX), C.Unsigned(wheelY), 2, 2, 2, 2);
    w.I16(dx);
    w.I16(dy);
    w.I16(wheelX);
    w.I16(wheelY);
  }

  method WriteTouch(w: Writer, id: nat, phase: nat, x: nat, y: nat)
    requires C.EventFits(C.Touch(id, phase, x, y))
    modifies w
    ensures w.out == old(w.out) + C.EncodeEvent(C.Touch(id, phase, x, y))
  {
    hide Le, C.Fields;
    C.FieldsFive(id, phase, 0, x, y, 4, 1, 1, 2, 2);
    w.U32(id);
    w.U8(phase);
    w.U8(0);
    w.U16(x);
    w.U16(y);
  }

  method WriteKey(w: Writer, code: nat, down: bool, modifiers: nat)
    requires C.EventFits(C.Key(code, down, modifiers))
    modifies w
    ensures w.out == old(w.out) + C.EncodeEvent(C.Key(code, down, modifiers))
  {
    hide Le, C.Fields;
    var pressed := if down then 1 else 0;
    C.FieldsThree(code, pressed, modifiers, 2, 1, 1);
    w.U16(code);
    w.U8(pressed);
    w.U8(modifiers);
  }

  method WriteEvent(w: Writer, e: C.Event)
    requires C.EventFits(e)
    modifies w
    ensures w.out == old(w.out) + C.EncodeEvent(e)
  {
    hide Le, C.Fields, C.EncodePad, C.PadFits, C.EncodeSnapshot;
    match e
    case MouseMove(dx, dy, wheelX, wheelY) =>
      WriteMove(w, dx, dy, wheelX, wheelY);
    case MouseButtons(b) =>
      C.FieldsOne(b, 2);
      w.U16(b);
    case Key(code, down, modifiers) =>
      WriteKey(w, code, down, modifiers);
    case Pad(g) =>
      WritePad(w, g);
    case State(s) =>
      WriteSnapshot(w, s);
    case Touch(id, phase, x, y) =>
      WriteTouch(w, id, phase, x, y);
  }

  /** A packet in range, serialised field by field. */
  method EncodePacket(p: C.Packet) returns (b: bytes)
    requires C.Fits(p)
    ensures b == C.Encode(p)
  {
    hide Le, C.Fields, C.EncodeEvent, C.EventFits;
    C.FieldsFive(p.version, p.kind, p.flags, p.sequence, p.clientUs, 1, 1, 2, 4, 8);
    var w := new Writer();
    w.U8(p.version);
    w.U8(p.kind);
    w.U16(p.flags);
    w.U32(p.sequence);
    w.U64(p.clientUs);
    assert w.out == C.Fields([p.version, p.kind, p.flags, p.sequence, p.clientUs], C.HEADER_WIDTHS);
    WriteEvent(w, p.event);
    b := w.out;
  }

  // ---- reading -------------------------------------------------------------------------------

  /** One field of `w` bytes at `pos`: its value and the position behind it, or how far it reached. */
  ghost predicate ReadsOne(b: bytes, pos: nat, w: nat, r: C.Outcome<nat>, after: nat) {
    if pos + w > |b| then r == C.Bad(C.Truncated(pos + w, |b|))
    else r == C.Good(FromLe(b[pos..pos + w])) && after == pos + w
  }

  class Reader {
    const buf: bytes
    var pos: nat

    constructor (buf: bytes)
      ensures this.buf == buf && pos == 0
    {
      this.buf := buf;
      pos := 0;
    }

    method Take(n: nat) returns (r: C.Outcome<nat>)
      modifies this
      ensures ReadsOne(buf, old(pos), n, r, pos)
    {
      var end := pos + n;
      if end > |buf| {
        return C.Bad(C.Truncated(end, |buf|));
      }
      r := C.Good(FromLe(buf[pos..end]));
      pos := end;
    }
  }

  lemma ReadNone(b: bytes, pos: nat)
    ensures C.ReadFields(b, pos, []) == C.Good(([], pos))
  {}

  lemma ReadMore(b: bytes, pos: nat, w: nat, ws: seq<nat>)
    ensures C.ReadFields(b, pos, [w] + ws) ==
      if pos + w > |b| then C.Bad(C.Truncated(pos + w, |b|))
      else
        var rest := C.ReadFields(b, pos + w, ws);
        if rest.Bad? then C.Bad(rest.error)
        else C.Good(([FromLe(b[pos..pos + w])] + rest.value.0, rest.value.1))
  {
    assert ([w] + ws)[1..] == ws;
  }

  /** The fields of the given widths, one after another; the source writes these reads out field by field. */
  method TakeFields(r: Reader, ws: seq<nat>) returns (res: C.Outcome<seq<nat>>)
    modifies r
    ensures var spec := C.ReadFields(r.buf, old(r.pos), ws);
      && (spec.Bad? ==> res == C.Bad(spec.error))
      && (spec.Good? ==> res == C.Good(spec.value.0) && r.pos == spec.value.1)
  {
    hide C.ReadFields, FromLe;
    var vs: seq<nat> := [];
    ghost var start := r.pos;
    assert ws[0..] == ws;
    assert C.ReadFields(r.buf, start, ws).Good? ==>
      vs + C.ReadFields(r.buf, start, ws).value.0 == C.ReadFields(r.buf, start, ws).value.0;
    for i := 0 to |ws|
      invariant |vs| == i
      invariant var spec, rest := C.ReadFields(r.buf, start, ws), C.ReadFields(r.buf, r.pos, ws[i..]);
        && (spec.Bad? <==> rest.Bad?) && (spec.Bad? ==> spec.error == rest.error)
        && (spec.Good? ==> spec.value == (vs + rest.value.0, rest.value.1))
    {
      assert ws[i..] == [ws[i]] + ws[i + 1..];
      ReadMore(r.buf, r.pos, ws[i], ws[i + 1..]);
      ghost var rest := C.ReadFields(r.buf, r.pos, ws[i..]);
      var v := r.Take(ws[i]);
      if v.Bad? {
        return C.Bad(v.error);
      }
      ghost var after := C.ReadFields(r.buf, r.pos, ws[i + 1..]);
      assert after.Good? ==> vs + ([v.value] + after.value.0) == (vs + [v.value]) + after.value.0;
      vs := vs + [v.value];
    }
    ReadNone(r.buf, r.pos);
    assert ws[|ws|..] == [] && vs + [] == vs;
    return C.Good(vs);
  }

  method ReadSnapshot(r: Reader) returns (res: C.Outcome<C.Event>)
    modifies r
    ensures var spec := C.DecodeSnapshot(r.buf, old(r.pos));
      res == if spec.Bad? then C.Bad(spec.error) else C.Good(spec.value.0)
  {
    hide C.ReadFields, C.PadOf;
    var head :- TakeFields(r, [2, 1, 1, 2]);
    var keys :- TakeFields(r, C.Twos(head[3]));
    if head[2] % 2 == 1 {
      var pad :- TakeFields(r, C.PAD_WIDTHS);
      return C.Good(C.State(C.Snapshot(head[0], head[1], C.Ints(keys), Some(C.PadOf(pad)))));
    }
    return C.Good(C.State(C.Snapshot(head[0], head[1], C.Ints(keys), None)));
  }

  method ReadEvent(r: Reader, kind: nat) returns (res: C.Outcome<C.Event>)
    requires 1 <= kind <= 6
    modifies r
    ensures var spec := C.DecodeEvent(r.buf, old(r.pos), kind);
      res == if spec.Bad? then C.Bad(spec.error) else C.Good(spec.value.0)
  {
    hide C.ReadFields, C.PadOf, C.DecodeSnapshot, C.Signed;
    match kind
    case 1 =>
      var f :- TakeFields(r, [2, 2, 2, 2]);
      return C.Good(C.MouseMove(C.Signed(f[0]), C.Signed(f[1]), C.Signed(f[2]), C.Signed(f[3])));
    case 2 =>
      var f :- TakeFields(r, [2]);
      return C.Good(C.MouseButtons(f[0]));
    case 3 =>
      var f :- TakeFields(r, [2, 1, 1]);
      return C.Good(C.Key(f[0], f[1] != 0, f[2]));
    case 4 =>
      var f :- TakeFields(r, C.PAD_WIDTHS);
      return C.Good(C.Pad(C.PadOf(f)));
    case 5 =>
      res := ReadSnapshot(r);
    case _ =>
      var f :- TakeFields(r, [4, 1, 1, 2, 2]);
      return C.Good(C.Touch(f[0], f[1], f[3], f[4]));
  }

  /** A packet off the wire, or why not. */
  method DecodePacket(b: bytes) returns (res: C.Outcome<C.Packet>)
    ensures res == C.Decode(b)
  {
    hide C.ReadFields, C.DecodeEvent;
    if |b| < C.HEADER_LEN {
      return C.Bad(C.Truncated(C.HEADER_LEN, |b|));
    }
    var r := new Reader(b);
    var h :- TakeFields(r, C.HEADER_WIDTHS);
    if h[0] != C.VERSION {
      return C.Bad(C.UnsupportedVersion(h[0]));
    }
    if !(1 <= h[1] <= 6) {
      return C.Bad(C.UnknownKind(h[1]));
    }
    var e :- ReadEvent(r, h[1]);
    return C.Good(C.Packet(h[0], h[1], h[2], h[3], h[4], e));
  }
}
