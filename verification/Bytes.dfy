/** Byte strings and the fixed-width integer layouts both ends of the wire use. */
module Bytes {
  type bytes = seq<bv8>

  const TWO32 := 0x1_0000_0000
  const HALF := 0x8000_0000

  type u32 = n: nat | n < TWO32

  datatype Option<+T> = None | Some(value: T)

  function ByteOf(n: nat): bv8
    requires n < 256
  {
    n as bv8
  }

  function NatOf(b: bv8): (n: nat)
    ensures n < 256
  {
    b as nat
  }

  lemma NatInverse(b: bv8)
    ensures ByteOf(NatOf(b)) == b
  {}

  lemma NatSucc(b: bv8)
    requires b != 255
    ensures NatOf(b + 1) == NatOf(b) + 1
  {}

  lemma {:induction false} ByteWith(n: nat) returns (b: bv8)
    requires n < 256
    ensures NatOf(b) == n
  {
    if n == 0 {
      b := 0;
    } else {
      var c := ByteWith(n - 1);
      assert c != 255;
      NatSucc(c);
      b := c + 1;
    }
  }

  lemma ByteInverse(n: nat)
    requires n < 256
    ensures NatOf(ByteOf(n)) == n
  {
    var b := ByteWith(n);
    NatInverse(b);
  }

  /** The low `w` bytes of `n`, least significant first (a cast to `8 * w` bits, then `to_le_bytes`). */
  function Le(n: nat, w: nat): (b: bytes)
    ensures |b| == w
  {
    if w == 0 then [] else [ByteOf(n % 256)] + Le(n / 256, w - 1)
  }

  function FromLe(b: bytes): nat {
    if |b| == 0 then 0 else NatOf(b[0]) + 256 * FromLe(b[1..])
  }

  /** The low `w` bytes of `n`, most significant first. */
  function Be(n: nat, w: nat): (b: bytes)
    ensures |b| == w
  {
    if w == 0 then [] else Be(n / 256, w - 1) + [ByteOf(n % 256)]
  }

  function FromBe(b: bytes): nat {
    if |b| == 0 then 0 else 256 * FromBe(b[..|b| - 1]) + NatOf(b[|b| - 1])
  }

  function Pow256(w: nat): (p: nat)
    ensures p > 0
  {
    if w == 0 then 1 else 256 * Pow256(w - 1)
  }

  lemma {:induction false} LeInverse(n: nat, w: nat)
    requires n < Pow256(w)
    ensures FromLe(Le(n, w)) == n
  {
    hide ByteOf, NatOf;
    if w > 0 {
      ByteInverse(n % 256);
      LeInverse(n / 256, w - 1);
      assert Le(n, w)[1..] == Le(n / 256, w - 1);
    }
  }

  lemma {:induction false} BeInverse(n: nat, w: nat)
    requires n < Pow256(w)
    ensures FromBe(Be(n, w)) == n
  {
    hide ByteOf, NatOf;
    if w > 0 {
      ByteInverse(n % 256);
      BeInverse(n / 256, w - 1);
      assert Be(n, w)[..w - 1] == Be(n / 256, w - 1);
    }
  }

  lemma Widths()
    ensures Pow256(1) == 0x100
    ensures Pow256(2) == 0x1_0000
    ensures Pow256(4) == TWO32
    ensures Pow256(8) == 0x1_0000_0000_0000_0000
  {
    assert Pow256(2) == 256 * Pow256(1);
    assert Pow256(3) == 256 * Pow256(2);
    assert Pow256(4) == 256 * Pow256(3);
    assert Pow256(5) == 256 * Pow256(4);
    assert Pow256(6) == 256 * Pow256(5);
    assert Pow256(7) == 256 * Pow256(6);
    assert Pow256(8) == 256 * Pow256(7);
  }

  lemma {:induction false} FromLeBound(b: bytes)
    ensures FromLe(b) < Pow256(|b|)
  {
    hide NatOf;
    if |b| > 0 {
      FromLeBound(b[1..]);
    }
  }

  /** What the wire's own widths keep: a field in range comes back unchanged. */
  lemma LeFields(a: nat, w: nat)
    requires w == 1 || w == 2 || w == 4 || w == 8
    requires w == 1 ==> a < 0x100
    requires w == 2 ==> a < 0x1_0000
    requires w == 4 ==> a < TWO32
    requires w == 8 ==> a < 0x1_0000_0000_0000_0000
    ensures FromLe(Le(a, w)) == a
  {
    Widths();
    LeInverse(a, w);
  }

  /** Wrapping distance from `b` up to `a` on a 32-bit counter: `(a - b) >>> 0`. */
  function Ahead(a: u32, b: u32): (d: u32)
    ensures d as int == (a - b) % TWO32
  {
    if a >= b then a - b else a - b + TWO32
  }

  function Next(n: u32): u32 {
    if n == TWO32 - 1 then 0 else n + 1
  }

  function Plus(n: u32, k: nat): u32 {
    (n + k) % TWO32
  }

  lemma Regroup<T>(a: seq<T>, b: seq<T>, c: seq<T>)
    ensures (a + b) + c == a + (b + c)
  {}

  function Concat(parts: seq<bytes>): bytes {
    if |parts| == 0 then [] else parts[0] + Concat(parts[1..])
  }

  lemma {:induction false} ConcatAppend(xs: seq<bytes>, ys: seq<bytes>)
    ensures Concat(xs + ys) == Concat(xs) + Concat(ys)
  {
    if |xs| == 0 {
      assert xs + ys == ys;
    } else {
      ConcatAppend(xs[1..], ys);
      assert (xs + ys)[1..] == xs[1..] + ys;
    }
  }

  lemma ConcatSnoc(xs: seq<bytes>, y: bytes)
    ensures Concat(xs + [y]) == Concat(xs) + y
  {
    ConcatAppend(xs, [y]);
    assert [y][1..] == [];
  }
}
