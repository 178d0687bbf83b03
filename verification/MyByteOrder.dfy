/** my_byteorder.h: the readers and writers of 3, 5 and 6 bytes, and what readers and writers of
    every width promise together. */
module MyByteOrder {
  import opened ByteValue
  import opened CTypes
  import opened ByteOrderGeneric

  lemma Value3(A: seq<uchar>)
    requires |A| >= 3
    ensures Value(A[..3]) == A[0] + Shl(A[1], 8) + Shl(A[2], 16)
  {
    ValueConcat(A[..2], [A[2]]);
    assert A[..3] == A[..2] + [A[2]];
    Value2(A);
    assert [A[2]][1..] == [];
    assert Value([A[2]]) == A[2];
    Pow256Table();
  }

  lemma Value5(A: seq<uchar>)
    requires |A| >= 5
    ensures Value(A[..5]) == Value(A[..4]) + Shl(A[4], 32)
  {
    ValueConcat(A[..4], [A[4]]);
    assert A[..5] == A[..4] + [A[4]];
    assert [A[4]][1..] == [];
    assert Value([A[4]]) == A[4];
    Pow256Table();
  }

  lemma Value6(A: seq<uchar>)
    requires |A| >= 6
    ensures Value(A[..6]) == Value(A[..5]) + Shl(A[5], 40)
  {
    ValueConcat(A[..5], [A[5]]);
    assert A[..6] == A[..5] + [A[5]];
    assert [A[5]][1..] == [];
    assert Value([A[5]]) == A[5];
    Pow256Table();
  }

  /** The or of three bytes shifted to places of their own is their sum. */
  lemma OrOfBytes(a2: uchar, a1: uchar, a0: uchar)
    ensures BitOr(BitOr(U32(Shl(U32(a2), 16)), U32(Shl(U32(a1), 8))), U32(a0)) == a0 + Shl(a1, 8) + Shl(a2, 16)
  {
    Pow2Table();
    OrDisjoint(a2, 16, Shl(a1, 8));
    OrDisjoint(a2 * 0x100 as int + a1, 8, a0);
  }

  lemma OrOfBytesSigned(a2: uchar, a1: uchar, a0: uchar)
    ensures BitOr(BitOr(BitOr(U32(Shl(U32(255), 24)), U32(Shl(U32(a2), 16))), U32(Shl(U32(a1), 8))), U32(a0))
            == 0xFF00_0000 + a0 + Shl(a1, 8) + Shl(a2, 16)
  {
    Pow2Table();
    OrDisjoint(0xFF, 24, Shl(a2, 16));
    OrDisjoint(0xFF00 + a2 as int, 16, Shl(a1, 8));
    OrDisjoint(0xFF_0000 + Shl(a2, 8) + a1, 8, a0);
  }

  lemma Bit7(b: uchar)
    ensures b / 128 % 2 == 1 <==> b >= 128
  {
  }

  lemma Signed3(v: nat)
    requires v < 0x100_0000
    ensures Signed(3, v) == if v < 0x80_0000 then v else v - 0x100_0000
  {
    Pow256Table();
    SignedOfValue(3, v);
  }

  function Sint3Korr(A: seq<uchar>): (r: int32)
    requires |A| >= 3
    ensures r == Signed(3, Value(A[..3]))
  {
    Value3(A); Bit7(A[2]);
    Signed3(Value(A[..3]));
    OrOfBytes(A[2], A[1], A[0]);
    OrOfBytesSigned(A[2], A[1], A[0]);
    if A[2] / 128 % 2 == 1 then
      S32(BitOr(BitOr(BitOr(U32(Shl(U32(255), 24)), U32(Shl(U32(A[2]), 16))), U32(Shl(U32(A[1]), 8))), U32(A[0])))
    else
      S32(BitOr(BitOr(U32(Shl(U32(A[2]), 16)), U32(Shl(U32(A[1]), 8))), U32(A[0])))
  }

  function Uint3Korr(A: seq<uchar>): (r: uint32)
    requires |A| >= 3
    ensures r == Value(A[..3])
  {
    Value3(A);
    U32(U32(U32(A[0]) + U32(Shl(U32(A[1]), 8))) + U32(Shl(U32(A[2]), 16)))
  }

  function Uint5Korr(A: seq<uchar>): (r: uint64)
    requires |A| >= 5
    ensures r == Value(A[..5])
  {
    Value4(A); Value5(A);
    var lo := U32(U32(U32(U32(A[0]) + U32(Shl(U32(A[1]), 8))) + U32(Shl(U32(A[2]), 16))) + U32(Shl(U32(A[3]), 24)));
    U64(U64(lo) + U64(Shl(U64(A[4]), 32)))
  }

  function Uint6Korr(A: seq<uchar>): (r: uint64)
    requires |A| >= 6
    ensures r == Value(A[..6])
  {
    Value4(A); Value5(A); Value6(A);
    var lo := U32(U32(U32(U32(A[0]) + U32(Shl(U32(A[1]), 8))) + U32(Shl(U32(A[2]), 16))) + U32(Shl(U32(A[3]), 24)));
    U64(U64(U64(lo) + U64(Shl(U64(A[4]), 32))) + U64(Shl(U64(A[5]), 40)))
  }

  lemma Bytes1(v: int)
    ensures Bytes(1, v) == [U8(v)]
  {
    assert Bytes(1, v) == [v % 256] + Bytes(0, v / 256);
  }

  method Int3Store(T: array<uchar>, t: nat, A: uint32)
    requires t + 3 <= T.Length
    modifies T
    ensures T[..] == Put(old(T[..]), t, Bytes(3, A))
  {
    T[t] := U8(A);
    T[t + 1] := U8(Shr(A, 8));
    T[t + 2] := U8(Shr(A, 16));
    BytesSplit(2, 1, A);
    Bytes2(A);
    Bytes1(Shr(A, 16));
  }

  method Int5Store(T: array<uchar>, t: nat, A: uint64)
    requires t + 5 <= T.Length
    modifies T
    ensures T[..] == Put(old(T[..]), t, Bytes(5, A))
  {
    T[t] := U8(A);
    T[t + 1] := U8(Shr(A, 8));
    T[t + 2] := U8(Shr(A, 16));
    T[t + 3] := U8(Shr(A, 24));
    T[t + 4] := U8(Shr(A, 32));
    BytesSplit(4, 1, A);
    Bytes4(A);
    Bytes1(Shr(A, 32));
  }

  method Int6Store(T: array<uchar>, t: nat, A: uint64)
    requires t + 6 <= T.Length
    modifies T
    ensures T[..] == Put(old(T[..]), t, Bytes(6, A))
  {
    T[t] := U8(A);
    T[t + 1] := U8(Shr(A, 8));
    T[t + 2] := U8(Shr(A, 16));
    T[t + 3] := U8(Shr(A, 24));
    T[t + 4] := U8(Shr(A, 32));
    T[t + 5] := U8(Shr(A, 40));
    Bytes6(A);
  }

  lemma Bytes6(v: int)
    ensures Bytes(6, v) == [U8(v), U8(Shr(v, 8)), U8(Shr(v, 16)), U8(Shr(v, 24)), U8(Shr(v, 32)), U8(Shr(v, 40))]
  {
    BytesSplit(4, 2, v);
    Bytes4(v);
    Bytes2(Shr(v, 32));
    DivDiv(v, 4, 1);
  }

  // ----- all widths together

  type Width = k: nat | k in {2, 3, 4, 5, 6, 8} witness 2

  /** The unsigned reader of a width. */
  function UintKorr(k: Width, A: seq<uchar>): (r: nat)
    requires |A| >= k
  {
    match k
    case 2 => Uint2Korr(A)
    case 3 => Uint3Korr(A)
    case 4 => Uint4Korr(A)
    case 5 => Uint5Korr(A)
    case 6 => Uint6Korr(A)
    case _ => Uint8Korr(A)
  }

  /** The signed reader of a width that has one. */
  function SintKorr(k: Width, A: seq<uchar>): (r: int)
    requires k in {2, 3, 4, 8}
    requires |A| >= k
  {
    match k
    case 2 => Sint2Korr(A)
    case 3 => Sint3Korr(A)
    case 4 => Sint4Korr(A)
    case _ => Sint8Korr(A)
  }

  /** The writer of a width; the argument is converted to the parameter type of that writer. */
  method IntStore(k: Width, T: array<uchar>, t: nat, a: int)
    requires t + k <= T.Length
    modifies T
    ensures T[..] == Put(old(T[..]), t, Bytes(k, a))
  {
    ConvertedBytes(a);
    match k {
      case 2 => Int2Store(T, t, U16(a));
      case 3 => Int3Store(T, t, U32(a));
      case 4 => Int4Store(T, t, U32(a));
      case 5 => Int5Store(T, t, U64(a));
      case 6 => Int6Store(T, t, U64(a));
      case _ => Int8Store(T, t, U64(a));
    }
  }

  /** Converting to a parameter type keeps the bytes that the writer stores. */
  lemma ConvertedBytes(a: int)
    ensures Bytes(2, a) == Bytes(2, U16(a))
    ensures Bytes(3, a) == Bytes(3, U32(a)) && Bytes(4, a) == Bytes(4, U32(a))
    ensures Bytes(5, a) == Bytes(5, U64(a)) && Bytes(6, a) == Bytes(6, U64(a)) && Bytes(8, a) == Bytes(8, U64(a))
  {
    Pow256Table();
    BytesPrefixCongruent(2, 2, a, U16(a));
    BytesPrefixCongruent(3, 4, a, U32(a));
    BytesPrefixCongruent(4, 4, a, U32(a));
    BytesPrefixCongruent(5, 8, a, U64(a));
    BytesPrefixCongruent(6, 8, a, U64(a));
    BytesPrefixCongruent(8, 8, a, U64(a));
  }

  /** Numbers congruent modulo 256^m have the same low k bytes for every k up to m. */
  lemma BytesPrefixCongruent(k: nat, m: nat, v: int, w: int)
    requires k <= m && v % Pow256(m) == w % Pow256(m)
    ensures Bytes(k, v) == Bytes(k, w)
  {
    BytesCongruent(m, v, w);
    BytesSplit(k, m - k, v);
    BytesSplit(k, m - k, w);
    assert Bytes(k, v) == Bytes(m, v)[..k];
  }

  lemma ReadsAreValues(k: Width, A: seq<uchar>)
    requires |A| >= k
    ensures UintKorr(k, A) == Value(A[..k])
    ensures k in {2, 3, 4, 8} ==> SintKorr(k, A) == Signed(k, Value(A[..k]))
  {
  }

  /** Reading what was stored gives the argument modulo 256^k. */
  lemma ReadAfterStore(k: Width, a: int, A: seq<uchar>)
    requires |A| >= k && A[..k] == Bytes(k, a)
    ensures UintKorr(k, A) == a % Pow256(k)
  {
    ReadsAreValues(k, A);
    ValueOfBytes(k, a);
  }

  /** A signed reader returns the one number of the signed range that is congruent to what was
      stored; in particular it gives back every number of that range. */
  lemma SignedReadAfterStore(k: Width, a: int, A: seq<uchar>, x: int)
    requires k in {2, 3, 4, 8} && |A| >= k && A[..k] == Bytes(k, a)
    ensures var p: int := Pow256(k);
            SintKorr(k, A) == x <==> -p <= 2 * x < p && x % p == a % p
  {
    ReadsAreValues(k, A);
    ValueOfBytes(k, a);
    ModTwice(a, Pow256(k));
    SignedUnique(k, Value(A[..k]), x);
  }

  lemma ModTwice(a: int, p: nat)
    requires p > 0
    ensures a % p % p == a % p
  {
  }

  /** Storing what was read, signed or unsigned, gives back the bytes that were read. */
  lemma StoreAfterRead(k: Width, A: seq<uchar>)
    requires |A| >= k
    ensures Bytes(k, UintKorr(k, A)) == A[..k]
    ensures k in {2, 3, 4, 8} ==> Bytes(k, SintKorr(k, A)) == A[..k]
  {
    ReadsAreValues(k, A);
    BytesOfValue(A[..k]);
    SignedBytes(k, Value(A[..k]));
  }

  lemma SignedBytes(k: nat, v: int)
    requires k > 0
    ensures Bytes(k, Signed(k, v)) == Bytes(k, v)
  {
    SignedUnique(k, v, Signed(k, v));
    BytesCongruent(k, v, Signed(k, v));
  }
}
