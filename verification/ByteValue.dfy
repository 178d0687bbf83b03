/** Byte sequences and the numbers they stand for.

    `Value` is the one little-endian specification ("low byte first") that every reader and
    writer of the byte-order headers is proved against, whatever its width. `BigValue` is the
    big-endian counterpart, used only to describe the memory of big-endian machines. */
module ByteValue {

  type uchar = x: int | 0 <= x < 0x100

  function Pow256(n: nat): (p: nat)
    ensures p > 0
  {
    if n == 0 then 1 else 256 * Pow256(n - 1)
  }

  /** The number a byte sequence of any length stands for, low byte first. */
  function Value(s: seq<uchar>): (r: nat) {
    if s == [] then 0 else s[0] + 256 * Value(s[1..])
  }

  /** The low n bytes of v, low byte first; a negative v is taken in two's complement. */
  function Bytes(n: nat, v: int): (s: seq<uchar>)
    ensures |s| == n
  {
    if n == 0 then [] else [v % 256] + Bytes(n - 1, v / 256)
  }

  /** The number a byte sequence stands for, high byte first. */
  function BigValue(s: seq<uchar>): (r: nat) {
    if s == [] then 0 else 256 * BigValue(s[..|s| - 1]) + s[|s| - 1]
  }

  function Reverse(s: seq<uchar>): (r: seq<uchar>)
    ensures |r| == |s|
    ensures forall i :: 0 <= i < |s| ==> r[i] == s[|s| - 1 - i]
  {
    if s == [] then [] else Reverse(s[1..]) + [s[0]]
  }

  /** The buffer s after the bytes b have been written at offset t. */
  function Put(s: seq<uchar>, t: nat, b: seq<uchar>): (r: seq<uchar>)
    requires t + |b| <= |s|
    ensures |r| == |s|
  {
    s[..t] + b + s[t + |b|..]
  }

  lemma PutAt(s: seq<uchar>, t: nat, b: seq<uchar>, p: nat)
    requires t + |b| <= |s| && p < |s|
    ensures Put(s, t, b)[p] == if t <= p < t + |b| then b[p - t] else s[p]
  {
  }

  lemma SliceIs(r: seq<uchar>, t: nat, b: seq<uchar>)
    requires t + |b| <= |r|
    requires forall i :: 0 <= i < |b| ==> r[t + i] == b[i]
    ensures r[t..t + |b|] == b
  {
  }

  lemma PutConcat(s: seq<uchar>, t: nat, a: seq<uchar>, b: seq<uchar>)
    requires t + |a| + |b| <= |s|
    ensures Put(Put(s, t, a), t + |a|, b) == Put(s, t, a + b)
  {
  }

  lemma Pow256Table()
    ensures Pow256(1) == 0x100 && Pow256(2) == 0x1_0000 && Pow256(3) == 0x100_0000
    ensures Pow256(4) == 0x1_0000_0000 && Pow256(5) == 0x100_0000_0000
    ensures Pow256(6) == 0x1_0000_0000_0000 && Pow256(8) == 0x1_0000_0000_0000_0000
  {
    assert Pow256(3) == 256 * Pow256(2);
    assert Pow256(5) == 256 * Pow256(4);
    assert Pow256(6) == 256 * Pow256(5);
    assert Pow256(7) == 256 * Pow256(6);
    assert Pow256(8) == 256 * Pow256(7);
  }

  lemma MultipleAtLeast(k: int, d: nat)
    requires k >= 1
    ensures k * d >= d
  {
  }

  lemma DivModUnique(v: int, d: nat, q: int, r: int)
    requires v == q * d + r && 0 <= r < d
    ensures v / d == q && v % d == r
  {
    var q', r' := v / d, v % d;
    assert (q - q') * d == r' - r && (q' - q) * d == r - r';
    if q - q' >= 1 {
      MultipleAtLeast(q - q', d);
    } else if q' - q >= 1 {
      MultipleAtLeast(q' - q, d);
    }
  }

  lemma DivByteStep(v: int, p: nat)
    requires p > 0
    ensures v / (256 * p) == v / 256 / p
  {
    ModByteStep(v, p);
  }

  /** Shifting right twice shifts by the sum. */
  lemma {:induction false} DivDiv(v: int, m: nat, n: nat)
    ensures v / Pow256(m) / Pow256(n) == v / Pow256(m + n)
    decreases m
  {
    if m > 0 {
      DivByteStep(v, Pow256(m - 1));
      DivByteStep(v, Pow256(m - 1 + n));
      DivDiv(v / 256, m - 1, n);
      assert Pow256(m + n) == 256 * Pow256(m - 1 + n);
    }
  }

  lemma ModByteStep(v: int, p: nat)
    requires p > 0
    ensures v % (256 * p) == v % 256 + 256 * (v / 256 % p)
    ensures v / (256 * p) == v / 256 / p
  {
    var q, r := v / 256 / p, v / 256 % p;
    assert v / 256 == q * p + r;
    assert v == q * (256 * p) + (256 * r + v % 256);
    DivModUnique(v, 256 * p, q, 256 * r + v % 256);
  }

  // ----- the specification is a bijection between n bytes and [0, 256^n)

  lemma {:induction false} ValueInRange(s: seq<uchar>)
    ensures Value(s) < Pow256(|s|)
  {
    if s != [] {
      ValueInRange(s[1..]);
    }
  }

  lemma {:induction false} ValueOfBytes(n: nat, v: int)
    ensures Value(Bytes(n, v)) == v % Pow256(n)
  {
    if n > 0 {
      ValueOfBytes(n - 1, v / 256);
      ModByteStep(v, Pow256(n - 1));
      assert Bytes(n, v)[1..] == Bytes(n - 1, v / 256);
    }
  }

  lemma {:induction false} BytesOfValue(s: seq<uchar>)
    ensures Bytes(|s|, Value(s)) == s
  {
    if s != [] {
      DivModUnique(Value(s), 256, Value(s[1..]), s[0]);
      BytesOfValue(s[1..]);
    }
  }

  lemma ValueInjective(a: seq<uchar>, b: seq<uchar>)
    requires |a| == |b| && Value(a) == Value(b)
    ensures a == b
  {
    BytesOfValue(a);
    BytesOfValue(b);
  }

  /** n bytes represent exactly the numbers of [0, 256^n). */
  lemma ValueRangeExact(n: nat, v: int)
    ensures 0 <= v < Pow256(n) <==> exists s: seq<uchar> :: |s| == n && Value(s) == v
  {
    if 0 <= v < Pow256(n) {
      ValueOfBytes(n, v);
      DivModUnique(v, Pow256(n), 0, v);
      assert |Bytes(n, v)| == n && Value(Bytes(n, v)) == v;
    }
    forall s: seq<uchar> | |s| == n && Value(s) == v
      ensures 0 <= v < Pow256(n)
    {
      ValueInRange(s);
    }
  }

  /** Two numbers have the same low n bytes exactly when they are congruent modulo 256^n. */
  lemma BytesCongruent(n: nat, v: int, w: int)
    ensures Bytes(n, v) == Bytes(n, w) <==> v % Pow256(n) == w % Pow256(n)
  {
    ValueOfBytes(n, v);
    ValueOfBytes(n, w);
    if v % Pow256(n) == w % Pow256(n) {
      ValueInjective(Bytes(n, v), Bytes(n, w));
    }
  }

  /** n bytes tell apart all the numbers of [0, 256^n). */
  lemma BytesInjective(n: nat, v: nat, w: nat)
    requires v < Pow256(n) && w < Pow256(n)
    ensures Bytes(n, v) == Bytes(n, w) <==> v == w
  {
    DivModUnique(v, Pow256(n), 0, v);
    DivModUnique(w, Pow256(n), 0, w);
    BytesCongruent(n, v, w);
  }

  lemma MulAssociates(x: int, y: int, z: int)
    ensures x * (y * z) == (x * y) * z
  {
  }

  lemma {:induction false} ValueConcat(a: seq<uchar>, b: seq<uchar>)
    ensures Value(a + b) == Value(a) + Pow256(|a|) * Value(b)
  {
    if a == [] {
      assert a + b == b;
    } else {
      ValueConcat(a[1..], b);
      assert (a + b)[1..] == a[1..] + b;
      MulAssociates(256, Pow256(|a| - 1), Value(b));
    }
  }

  lemma {:induction false} BytesSplit(m: nat, n: nat, v: int)
    ensures Bytes(m + n, v) == Bytes(m, v) + Bytes(n, v / Pow256(m))
  {
    if m > 0 {
      BytesSplit(m - 1, n, v / 256);
      ModByteStep(v, Pow256(m - 1));
    }
  }

  // ----- big-endian numbers are little-endian numbers of the reversed bytes

  lemma {:induction false} BigValueReversed(s: seq<uchar>)
    ensures BigValue(Reverse(s)) == Value(s)
  {
    if s != [] {
      BigValueReversed(s[1..]);
      assert Reverse(s)[..|s| - 1] == Reverse(s[1..]);
    }
  }

  /** Zero bytes behind a number do not change its little-endian value and shift its big-endian one. */
  lemma {:induction false} ZeroBytesBehind(s: seq<uchar>, zeros: seq<uchar>)
    requires forall i :: 0 <= i < |zeros| ==> zeros[i] == 0
    ensures Value(s + zeros) == Value(s)
    ensures BigValue(s + zeros) == BigValue(s) * Pow256(|zeros|)
    decreases |zeros|
  {
    if zeros == [] {
      assert s + zeros == s;
    } else {
      var init := zeros[..|zeros| - 1];
      ZeroBytesBehind(s, init);
      assert (s + zeros)[..|s + zeros| - 1] == s + init;
      assert s + zeros == (s + init) + [0];
      assert [0 as uchar][1..] == [];
      assert Value([0]) == 0;
      ValueConcat(s + init, [0]);
      MulAssociates(BigValue(s), 256, Pow256(|init|));
      assert BigValue(s) * 256 == 256 * BigValue(s);
      MulAssociates(256, BigValue(s), Pow256(|init|));
    }
  }

  lemma ReverseTwice(s: seq<uchar>)
    ensures Reverse(Reverse(s)) == s
  {
  }

}
