/** The repository's golden input packets: what a packet of each kind is, byte for byte, at either end. */
module InputGolden {
  import opened Bytes
  import opened InputCodec

  const MOVE := Packet(1, 1, 1, 42, 1_234_567, MouseMove(-3, 7, 0, -1))
  const BUTTONS := Packet(1, 2, 0, 7, 0, MouseButtons(5))
  const KEY_DOWN := Packet(1, 3, 0, 1, 1, Key(0x1E, true, 3))
  const EXTREMES := Packet(1, 4, 0, 100, 9_999_999, Pad(Gamepad(0xDEAD_BEEF, -32768, 32767, 256, -256, 65535, 0)))
  const NOTHING_HELD := Packet(1, 5, 0, 0, 0, State(Snapshot(0, 0, [], None)))
  const TWO_HELD :=
    Packet(1, 5, 0, 55, 42, State(Snapshot(1, 1, [0x1E, 0x11], Some(Gamepad(1, 1, 2, 3, 4, 5, 6)))))

  lemma Digit(a: nat, n: nat, w: nat)
    requires a < 256
    ensures Le(a + 256 * n, w + 1) == [ByteOf(a)] + Le(n, w)
  {
    hide ByteOf;
    assert (a + 256 * n) % 256 == a && (a + 256 * n) / 256 == n;
  }

  lemma TwoDigits(a: nat, b: nat)
    requires a < 256 && b < 256
    ensures TsU16(a + 256 * b) == [ByteOf(a), ByteOf(b)]
  {
    hide ByteOf;
    assert (a + 256 * b) % 256 == a && (a + 256 * b) / 256 == b;
  }

  lemma FourDigits(a: nat, b: nat, c: nat, d: nat)
    requires a < 256 && b < 256 && c < 256 && d < 256
    ensures TsU32(Number(a, b, c, d)) == [ByteOf(a), ByteOf(b), ByteOf(c), ByteOf(d)]
    ensures Le(Number(a, b, c, d), 8) == [ByteOf(a), ByteOf(b), ByteOf(c), ByteOf(d)] + [0, 0, 0, 0]
  {
    hide ByteOf, Le, TsU32;
    TsWidths(Number(a, b, c, d));
    FourOf(a, b, c, d, 0);
    FourOf(a, b, c, d, 4);
    NoDigits();
  }

  function Number(a: nat, b: nat, c: nat, d: nat): nat { a + 256 * (b + 256 * (c + 256 * d)) }

  lemma FourOf(a: nat, b: nat, c: nat, d: nat, w: nat)
    requires a < 256 && b < 256 && c < 256 && d < 256
    ensures Le(Number(a, b, c, d), w + 4) == [ByteOf(a), ByteOf(b), ByteOf(c), ByteOf(d)] + Le(0, w)
  {
    hide ByteOf, Le;
    Digit(a, b + 256 * (c + 256 * d), w + 3);
    Digit(b, c + 256 * d, w + 2);
    Digit(c, d, w + 1);
    Digit(d, 0, w);
  }

  lemma NoDigits()
    ensures Le(0, 4) == [0, 0, 0, 0] && Le(0, 0) == []
  {
    assert ByteOf(0) == 0;
    Digit(0, 0, 3); Digit(0, 0, 2); Digit(0, 0, 1); Digit(0, 0, 0);
  }

  /** The header of a packet whose number and flags are below 256 and whose time is below 2^24. */
  lemma Head(sequence: nat, x: nat, y: nat, z: nat, flags: nat, e: Event)
    requires sequence < 256 && flags < 256 && x < 256 && y < 256 && z < 256
    ensures TsEncode(sequence, Number(x, y, z, 0), flags, e)
         == [1, ByteOf(KindOf(e))] + [ByteOf(flags), 0] + [ByteOf(sequence), 0, 0, 0]
            + [ByteOf(x), ByteOf(y), ByteOf(z), 0] + [0, 0, 0, 0] + TsPayload(e)
  {
    hide TsPayload, TsU16, TsU32, TsU8, Le, Number, ByteOf;
    Small(sequence, x, y, z);
    TwoDigits(flags, 0);
    FourDigits(sequence, 0, 0, 0);
    FourDigits(x, y, z, 0);
    Ones(KindOf(e));
    Together(TsU8(VERSION), TsU8(KindOf(e)), TsU16(flags), TsU32(sequence), [ByteOf(x), ByteOf(y), ByteOf(z), 0],
             [0, 0, 0, 0], TsPayload(e));
  }

  lemma Together(a: bytes, b: bytes, c: bytes, d: bytes, e: bytes, f: bytes, t: bytes)
    ensures (a + (b + (c + (d + (e + f))))) + t == a + b + c + d + e + f + t
  {}

  lemma Small(sequence: nat, x: nat, y: nat, z: nat)
    requires x < 256 && y < 256 && z < 256
    ensures Number(sequence, 0, 0, 0) == sequence && Number(x, y, z, 0) < TWO32
    ensures Number(x, y, z, 0) % 0x1_0000_0000_0000_0000 == Number(x, y, z, 0)
  {}

  lemma Ones(k: nat)
    requires 1 <= k <= 6
    ensures TsU8(VERSION) == [1] && TsU8(k) == [ByteOf(k)] && ByteOf(0) == 0
  {}

  lemma MoveBytes()
    ensures Encode(MOVE) == [1, 1, 1, 0, 0x2A, 0, 0, 0, 0x87, 0xD6, 0x12, 0, 0, 0, 0, 0,
                             0xFD, 0xFF, 7, 0, 0, 0, 0xFF, 0xFF]
  {
    hide Encode, TsEncode, TsU16;
    EncodersAgree(MOVE);
    Head(42, 0x87, 0xD6, 0x12, 1, MOVE.event);
    TwoDigits(0xFD, 0xFF); TwoDigits(7, 0); TwoDigits(0, 0); TwoDigits(0xFF, 0xFF);
  }

  lemma ButtonsBytes()
    ensures Encode(BUTTONS) == [1, 2, 0, 0, 7, 0, 0, 0, 0, 0, 0, 0, 0, 0, 0, 0, 5, 0]
  {
    hide Encode, TsEncode, TsU16;
    EncodersAgree(BUTTONS);
    Head(7, 0, 0, 0, 0, BUTTONS.event);
    TwoDigits(5, 0);
  }

  lemma KeyBytes()
    ensures Encode(KEY_DOWN) == [1, 3, 0, 0, 1, 0, 0, 0, 1, 0, 0, 0, 0, 0, 0, 0, 0x1E, 0, 1, 3]
  {
    hide Encode, TsEncode, TsU16;
    EncodersAgree(KEY_DOWN);
    Head(1, 1, 0, 0, 0, KEY_DOWN.event);
    TwoDigits(0x1E, 0);
  }

  lemma ExtremeSticks()
    ensures TsI16(-32768) == [0, 0x80] && TsI16(32767) == [0xFF, 0x7F]
    ensures TsI16(256) == [0, 1] && TsI16(-256) == [0, 0xFF]
  {
    hide TsU16;
    TwoDigits(0, 0x80); TwoDigits(0xFF, 0x7F); TwoDigits(0, 1); TwoDigits(0, 0xFF);
  }

  lemma ExtremeButtons()
    ensures TsU32(0xDEAD_BEEF) == [0xEF, 0xBE, 0xAD, 0xDE]
  {
    hide TsU32;
    FourDigits(0xEF, 0xBE, 0xAD, 0xDE);
  }

  lemma ExtremeTriggers()
    ensures TsU16(65535) == [0xFF, 0xFF] && TsU16(0) == [0, 0]
  {
    hide TsU16;
    TwoDigits(0xFF, 0xFF); TwoDigits(0, 0);
  }

  lemma ExtremePad()
    ensures TsPad(EXTREMES.event.pad) ==
      [0xEF, 0xBE, 0xAD, 0xDE] + ([0, 0x80] + [0xFF, 0x7F] + [0, 1] + [0, 0xFF]) + ([0xFF, 0xFF] + [0, 0])
  {
    hide TsU16, TsU32, TsI16;
    ExtremeSticks();
    ExtremeButtons();
    ExtremeTriggers();
  }

  lemma ExtremeBytes()
    ensures Encode(EXTREMES) == [1, 4] + [0, 0] + [0x64, 0, 0, 0] + [0x7F, 0x96, 0x98, 0] + [0, 0, 0, 0]
      + ([0xEF, 0xBE, 0xAD, 0xDE] + ([0, 0x80] + [0xFF, 0x7F] + [0, 1] + [0, 0xFF]) + ([0xFF, 0xFF] + [0, 0]))
  {
    hide Encode, TsEncode, TsPad;
    EncodersAgree(EXTREMES);
    Head(100, 0x7F, 0x96, 0x98, 0, EXTREMES.event);
    ExtremePad();
  }

  lemma EmptyBytes()
    ensures Encode(NOTHING_HELD) == [1, 5, 0, 0, 0, 0, 0, 0, 0, 0, 0, 0, 0, 0, 0, 0, 0, 0, 0, 0, 0, 0]
  {
    hide Encode, TsEncode, TsU16;
    EncodersAgree(NOTHING_HELD);
    Head(0, 0, 0, 0, 0, NOTHING_HELD.event);
    TwoDigits(0, 0);
  }

  lemma SmallButtons()
    ensures TsU32(1) == [1, 0, 0, 0]
  {
    hide TsU32;
    FourDigits(1, 0, 0, 0);
  }

  lemma SmallNumber(k: nat)
    requires k <= 6
    ensures TsU16(k) == [ByteOf(k), 0] && TsI16(k) == [ByteOf(k), 0]
  {
    hide TsU16, ByteOf;
    TwoDigits(k, 0);
    Ones(1);
  }

  lemma SmallPad()
    ensures TsPad(Gamepad(1, 1, 2, 3, 4, 5, 6)) ==
      [1, 0, 0, 0] + ([1, 0] + [2, 0] + [3, 0] + [4, 0]) + ([5, 0] + [6, 0])
  {
    hide TsU16, TsU32, TsI16;
    SmallButtons();
    SmallNumber(1); SmallNumber(2); SmallNumber(3); SmallNumber(4); SmallNumber(5); SmallNumber(6);
  }

  lemma TwoKeys()
    ensures TsKeys([0x1E, 0x11]) == [0x1E, 0, 0x11, 0]
  {
    hide TsU16;
    assert [0x1E, 0x11][1..] == [0x11] && [0x11][1..] == [];
    TwoDigits(0x1E, 0); TwoDigits(0x11, 0);
  }

  lemma TwoHeldPayload()
    ensures TsPayload(TWO_HELD.event) == [1, 0, 1, 1, 2, 0] + [0x1E, 0, 0x11, 0]
      + ([1, 0, 0, 0] + ([1, 0] + [2, 0] + [3, 0] + [4, 0]) + ([5, 0] + [6, 0]))
  {
    hide TsPad, TsKeys, TsU16;
    SmallPad();
    TwoKeys();
    TwoDigits(1, 0); TwoDigits(2, 0);
  }

  lemma TwoHeldBytes()
    ensures Encode(TWO_HELD) == [1, 5] + [0, 0] + [0x37, 0, 0, 0] + [0x2A, 0, 0, 0] + [0, 0, 0, 0]
      + ([1, 0, 1, 1, 2, 0] + [0x1E, 0, 0x11, 0]
         + ([1, 0, 0, 0] + ([1, 0] + [2, 0] + [3, 0] + [4, 0]) + ([5, 0] + [6, 0])))
  {
    hide Encode, TsEncode, TsPayload;
    EncodersAgree(TWO_HELD);
    Head(55, 42, 0, 0, 0, TWO_HELD.event);
    TwoHeldPayload();
  }
}
