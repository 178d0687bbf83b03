/** The C integer types of the byte-order headers, their conversions, and the bit operations
    the headers use. Integers of Dafny are unbounded, so every conversion is written out;
    signed types are two's complement. */
module CTypes {
  import opened ByteValue

  type uint16 = x: int | 0 <= x < 0x1_0000
  type uint32 = x: int | 0 <= x < 0x1_0000_0000
  type uint64 = x: int | 0 <= x < 0x1_0000_0000_0000_0000
  type int16 = x: int | -0x8000 <= x < 0x8000
  type int32 = x: int | -0x8000_0000 <= x < 0x8000_0000
  type int64 = x: int | -0x8000_0000_0000_0000 <= x < 0x8000_0000_0000_0000

  function U8(x: int): (r: uchar) { x % 0x100 }

  function U16(x: int): (r: uint16)
    ensures 0 <= x < 0x1_0000 ==> r == x
  {
    x % 0x1_0000
  }

  function U32(x: int): (r: uint32)
    ensures 0 <= x < 0x1_0000_0000 ==> r == x
  {
    x % 0x1_0000_0000
  }

  function U64(x: int): (r: uint64)
    ensures 0 <= x < 0x1_0000_0000_0000_0000 ==> r == x
  {
    x % 0x1_0000_0000_0000_0000
  }

  /** The signed number that n bytes holding v modulo 256^n stand for. */
  function Signed(n: nat, v: int): (r: int) {
    var u := v % Pow256(n);
    if 2 * u < Pow256(n) then u else u - Pow256(n)
  }

  function S16(x: int): (r: int16)
    ensures -0x8000 <= x < 0x8000 ==> r == x
    ensures 0x8000 <= x < 0x1_0000 ==> r == x - 0x1_0000
  {
    var u := x % 0x1_0000;
    if u < 0x8000 then u else u - 0x1_0000
  }

  function S32(x: int): (r: int32)
    ensures -0x8000_0000 <= x < 0x8000_0000 ==> r == x
    ensures 0x8000_0000 <= x < 0x1_0000_0000 ==> r == x - 0x1_0000_0000
  {
    var u := x % 0x1_0000_0000;
    if u < 0x8000_0000 then u else u - 0x1_0000_0000
  }

  function S64(x: int): (r: int64) {
    var u := x % 0x1_0000_0000_0000_0000;
    if u < 0x8000_0000_0000_0000 then u else u - 0x1_0000_0000_0000_0000
  }

  lemma ConversionsAreSigned(x: int)
    ensures S16(x) == Signed(2, x) && S32(x) == Signed(4, x) && S64(x) == Signed(8, x)
  {
    Pow256Table();
  }

  lemma SignedOfValue(n: nat, v: nat)
    requires v < Pow256(n)
    ensures Signed(n, v) == if 2 * v < Pow256(n) then v else v - Pow256(n)
  {
    DivModUnique(v, Pow256(n), 0, v);
  }

  /** `Signed(n, v)` is the one number of [-256^n/2, 256^n/2) congruent to v modulo 256^n. */
  lemma SignedUnique(n: nat, v: int, x: int)
    requires n > 0
    ensures var p: int := Pow256(n);
            x == Signed(n, v) <==> -p <= 2 * x < p && x % p == v % p
  {
    var p: int := Pow256(n);
    assert p == 2 * (128 * Pow256(n - 1));
    var u := v % p;
    DivModUnique(u, p, 0, u);
    DivModUnique(u - p, p, -1, u);
    if -p <= 2 * x < p {
      if x >= 0 {
        DivModUnique(x, p, 0, x);
      } else {
        DivModUnique(x, p, -1, x + p);
      }
    }
  }

  /** x << bits and x >> bits. Every shift in the headers is by whole bytes; a right shift of
      a negative number is arithmetic. */
  function Shl(x: int, bits: nat): (r: int)
    requires bits % 8 == 0
    ensures bits == 8 ==> r == x * 0x100
    ensures bits == 16 ==> r == x * 0x1_0000
    ensures bits == 24 ==> r == x * 0x100_0000
    ensures bits == 32 ==> r == x * 0x1_0000_0000
    ensures bits == 40 ==> r == x * 0x100_0000_0000
  {
    Pow256Table();
    x * Pow256(bits / 8)
  }

  function Shr(x: int, bits: nat): (r: int)
    requires bits % 8 == 0
  {
    x / Pow256(bits / 8)
  }

  /** x | y */
  function BitOr(x: nat, y: nat): (r: nat) {
    if x == 0 && y == 0 then 0
    else 2 * BitOr(x / 2, y / 2) + (if x % 2 == 1 || y % 2 == 1 then 1 else 0)
  }

  /** Bit n of x. */
  predicate Bit(x: nat, n: nat) {
    if n == 0 then x % 2 == 1 else Bit(x / 2, n - 1)
  }

  /** A number is known by its bits. */
  lemma {:induction false} BitsDetermine(x: nat, y: nat)
    requires forall n :: Bit(x, n) <==> Bit(y, n)
    ensures x == y
  {
    if x != 0 || y != 0 {
      assert Bit(x, 0) <==> Bit(y, 0);
      forall n: nat
        ensures Bit(x / 2, n) <==> Bit(y / 2, n)
      {
        assert Bit(x, n + 1) <==> Bit(y, n + 1);
      }
      BitsDetermine(x / 2, y / 2);
    }
  }

  /** Each bit of x | y is set exactly if it is set in x or in y. */
  lemma {:induction false} BitOfOr(x: nat, y: nat, n: nat)
    ensures Bit(BitOr(x, y), n) <==> Bit(x, n) || Bit(y, n)
    decreases n
  {
    if x == 0 && y == 0 {
      BitOfZero(n);
    } else if n > 0 {
      BitOfOr(x / 2, y / 2, n - 1);
    }
  }

  lemma {:induction false} BitOfZero(n: nat)
    ensures !Bit(0, n)
  {
    if n > 0 {
      BitOfZero(n - 1);
    }
  }

  function Pow2(n: nat): (p: nat)
    ensures p > 0
  {
    if n == 0 then 1 else 2 * Pow2(n - 1)
  }

  lemma Pow2Byte(n: nat)
    ensures Pow2(n + 8) == 256 * Pow2(n)
  {
    assert Pow2(n + 2) == 4 * Pow2(n);
    assert Pow2(n + 4) == 4 * Pow2(n + 2);
    assert Pow2(n + 6) == 4 * Pow2(n + 4);
  }

  lemma Pow2Table()
    ensures Pow2(8) == 0x100 && Pow2(16) == 0x1_0000 && Pow2(24) == 0x100_0000
  {
    Pow2Byte(0);
    Pow2Byte(8);
    Pow2Byte(16);
  }

  lemma {:induction false} OrZero(x: nat)
    ensures BitOr(x, 0) == x
  {
    if x > 0 {
      OrZero(x / 2);
    }
  }

  /** Or-ing a number into the zero bits under a shifted one adds it. */
  lemma {:induction false} OrDisjoint(x: nat, k: nat, y: nat)
    requires y < Pow2(k)
    ensures BitOr(x * Pow2(k), y) == x * Pow2(k) + y
  {
    if k == 0 {
      OrZero(x);
    } else {
      var h := x * Pow2(k - 1);
      assert x * Pow2(k) == 2 * h;
      OrDisjoint(x, k - 1, y / 2);
      assert 2 * h / 2 == h && 2 * h % 2 == 0;
      if h == 0 && y == 0 {
      } else {
        assert BitOr(2 * h, y) == 2 * BitOr(h, y / 2) + y % 2;
      }
    }
  }
}
