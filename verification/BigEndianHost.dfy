/** big_endian.h: machine-format access and floating-point wire format on big-endian machines.
    A `float` or `double` is its bit pattern; an output parameter `*V` is a result. */
module BigEndianHost {
  import opened ByteValue
  import opened CTypes
  import opened HostMemory
  import G = ByteOrderGeneric
  import MyByteOrder

  // ----- floating point, low byte first

  method Float4Store(T: array<uchar>, t: nat, A: uint32)
    requires t + 4 <= T.Length
    modifies T
    ensures T[..] == Put(old(T[..]), t, Bytes(4, A))
  {
    var a := Memory(Big, 4, A);
    T[t] := a[3];
    T[t + 1] := a[2];
    T[t + 2] := a[1];
    T[t + 3] := a[0];
  }

  method Float4Get(M: seq<uchar>) returns (V: uint32)
    requires |M| >= 4
    ensures V == Value(M[..4])
  {
    var defTemp := new uchar[4];
    defTemp[0] := M[3];
    defTemp[1] := M[2];
    defTemp[2] := M[1];
    defTemp[3] := M[0];
    BigLoad(M[..4], defTemp[..]);
    V := Pattern(Big, defTemp[..]);
  }

  method Float8Store(T: array<uchar>, t: nat, V: uint64)
    requires t + 8 <= T.Length
    modifies T
    ensures T[..] == Put(old(T[..]), t, Bytes(8, V))
  {
    var v := Memory(Big, 8, V);
    T[t] := v[7];
    T[t + 1] := v[6];
    T[t + 2] := v[5];
    T[t + 3] := v[4];
    T[t + 4] := v[3];
    T[t + 5] := v[2];
    T[t + 6] := v[1];
    T[t + 7] := v[0];
  }

  method Float8Get(M: seq<uchar>) returns (V: uint64)
    requires |M| >= 8
    ensures V == Value(M[..8])
  {
    var defTemp := new uchar[8];
    defTemp[0] := M[7];
    defTemp[1] := M[6];
    defTemp[2] := M[5];
    defTemp[3] := M[4];
    defTemp[4] := M[3];
    defTemp[5] := M[2];
    defTemp[6] := M[1];
    defTemp[7] := M[0];
    BigLoad(M[..8], defTemp[..]);
    V := Pattern(Big, defTemp[..]);
  }

  /** Loading reversed bytes on a big-endian machine gives their little-endian value. */
  lemma BigLoad(s: seq<uchar>, r: seq<uchar>)
    requires |r| == |s| && forall i :: 0 <= i < |s| ==> r[i] == s[|s| - 1 - i]
    ensures Pattern(Big, r) == Value(s)
    ensures |s| == 4 ==> Pattern(Big, r) < 0x1_0000_0000
    ensures |s| == 8 ==> Pattern(Big, r) < 0x1_0000_0000_0000_0000
  {
    assert r == Reverse(s);
    BigValueReversed(s);
    ValueInRange(s);
    Pow256Table();
  }

  // ----- integers in machine format

  method UshortGet(pM: seq<uchar>) returns (V: uint16)
    requires |pM| >= 2
    ensures V == Pattern(Big, pM[..2])
  {
    V := U16(U16(pM[1]) + Shl(U16(pM[0]), 8));
    BigValue2(pM);
  }

  method ShortGet(pM: seq<uchar>) returns (V: int16)
    requires |pM| >= 2
    ensures V == Signed(2, Pattern(Big, pM[..2]))
  {
    V := S16(S16(pM[1]) + Shl(S16(pM[0]), 8));
    BigValue2(pM);
    ConversionsAreSigned(Pattern(Big, pM[..2]));
  }

  lemma BigValue2(A: seq<uchar>)
    requires |A| >= 2
    ensures BigValue(A[..2]) == A[1] + Shl(A[0], 8)
  {
    assert A[..2][..1] == [A[0]] && [A[0]][..0] == [];
    assert BigValue([A[0]]) == A[0];
  }

  method LongGet(pM: seq<uchar>) returns (V: int32)
    requires |pM| >= 4
    ensures V == Signed(4, Pattern(Big, pM[..4]))
  {
    var defTemp := new uchar[4];
    defTemp[0] := pM[0];
    defTemp[1] := pM[1];
    defTemp[2] := pM[2];
    defTemp[3] := pM[3];
    assert defTemp[..] == pM[..4];
    V := S32(Pattern(Big, defTemp[..]));
    ConversionsAreSigned(Pattern(Big, pM[..4]));
  }

  method UlongGet(pM: seq<uchar>) returns (V: uint32)
    requires |pM| >= 4
    ensures V == Pattern(Big, pM[..4])
  {
    var defTemp := new uchar[4];
    defTemp[0] := pM[0];
    defTemp[1] := pM[1];
    defTemp[2] := pM[2];
    defTemp[3] := pM[3];
    assert defTemp[..] == pM[..4];
    ReverseTwice(pM[..4]);
    BigLoad(Reverse(pM[..4]), pM[..4]);
    V := Pattern(Big, defTemp[..]);
  }

  method ShortStore(T: array<uchar>, t: nat, A: int16)
    requires t + 2 <= T.Length
    modifies T
    ensures T[..] == Put(old(T[..]), t, Memory(Big, 2, A))
  {
    var defTemp := U32(A);
    T[t + 1] := U8(defTemp);
    T[t] := U8(Shr(defTemp, 8));
    ConvertedBytes2(A);
  }

  method LongStore(T: array<uchar>, t: nat, A: int32)
    requires t + 4 <= T.Length
    modifies T
    ensures T[..] == Put(old(T[..]), t, Memory(Big, 4, A))
  {
    T[t + 3] := U8(A);
    T[t + 2] := U8(Shr(A, 8));
    T[t + 1] := U8(Shr(A, 16));
    T[t] := U8(Shr(A, 24));
    BigMemory4(A);
  }

  lemma BigMemory4(A: int)
    ensures Memory(Big, 4, A) == [U8(Shr(A, 24)), U8(Shr(A, 16)), U8(Shr(A, 8)), U8(A)]
  {
    G.Bytes4(A);
  }

  lemma ConvertedBytes2(A: int16)
    ensures Bytes(2, A) == [U8(U32(A)), U8(Shr(U32(A), 8))]
  {
    Pow256Table();
    MyByteOrder.BytesPrefixCongruent(2, 4, A, U32(A));
    G.Bytes2(U32(A));
  }

  method LonglongGet(M: seq<uchar>) returns (V: int64)
    requires |M| >= 8
    ensures V == Signed(8, Pattern(Big, M[..8]))
  {
    ConversionsAreSigned(Pattern(Big, M[..8]));
    V := S64(Pattern(Big, M[..8]));
  }

  method LonglongStore(T: array<uchar>, t: nat, V: int64)
    requires t + 8 <= T.Length
    modifies T
    ensures T[..] == Put(old(T[..]), t, Memory(Big, 8, V))
  {
    CopyBytes(T, t, Memory(Big, 8, V));
  }

  // ----- doubles in machine format

  method DoubleGet(M: seq<uchar>) returns (V: uint64)
    requires |M| >= 8
    ensures Memory(Big, 8, V) == M[..8]
  {
    ReverseTwice(M[..8]);
    BigLoad(Reverse(M[..8]), M[..8]);
    MemoryOfPattern(Big, M[..8]);
    V := Pattern(Big, M[..8]);
  }

  method DoubleStore(T: array<uchar>, t: nat, V: uint64)
    requires t + 8 <= T.Length
    modifies T
    ensures T[..] == Put(old(T[..]), t, Memory(Big, 8, V))
  {
    CopyBytes(T, t, Memory(Big, 8, V));
  }
}
