/** byte_order_generic.h: the shift-and-add readers and writers for hosts other than x86.
    A reader takes the bytes from its pointer on; a writer takes the buffer and the offset its
    pointer has in it. */
module ByteOrderGeneric {
  import opened ByteValue
  import opened CTypes

  lemma Value2(A: seq<uchar>)
    requires |A| >= 2
    ensures Value(A[..2]) == A[0] + Shl(A[1], 8)
  {
    assert A[..2][1..] == [A[1]] && [A[1]][1..] == [];
    assert Value([A[1]]) == A[1];
  }

  lemma Value4(A: seq<uchar>)
    requires |A| >= 4
    ensures Value(A[..4]) == A[0] + Shl(A[1], 8) + Shl(A[2], 16) + Shl(A[3], 24)
  {
    ValueConcat(A[..2], A[2..4]);
    assert A[..4] == A[..2] + A[2..4];
    Value2(A);
    Value2(A[2..4]);
    assert A[2..4][..2] == A[2..4];
    Pow256Table();
  }

  function Sint2Korr(A: seq<uchar>): (r: int16)
    requires |A| >= 2
    ensures r == Signed(2, Value(A[..2]))
  {
    Value2(A); ConversionsAreSigned(Value(A[..2]));
    S16(S16(A[0]) + Shl(S16(A[1]), 8))
  }

  function Sint4Korr(A: seq<uchar>): (r: int32)
    requires |A| >= 4
    ensures r == Signed(4, Value(A[..4]))
  {
    Value4(A); ConversionsAreSigned(Value(A[..4]));
    S32(S32(S32(S32(S32(A[0]) + S32(Shl(S32(A[1]), 8))) + S32(Shl(S32(A[2]), 16))) + S32(Shl(S32(A[3]), 24))))
  }

  function Uint2Korr(A: seq<uchar>): (r: uint16)
    requires |A| >= 2
    ensures r == Value(A[..2])
  {
    Value2(A);
    U16(U16(A[0]) + Shl(U16(A[1]), 8))
  }

  function Uint4Korr(A: seq<uchar>): (r: uint32)
    requires |A| >= 4
    ensures r == Value(A[..4])
  {
    Value4(A);
    U32(U32(U32(U32(A[0]) + U32(Shl(U32(A[1]), 8))) + U32(Shl(U32(A[2]), 16))) + U32(Shl(U32(A[3]), 24)))
  }

  function Uint8Korr(A: seq<uchar>): (r: uint64)
    requires |A| >= 8
    ensures r == Value(A[..8])
  {
    Value8(A); Value4(A); Value4(A[4..8]);
    assert A[4..8][..4] == A[4..8];
    var lo := U32(U32(U32(U32(A[0]) + U32(Shl(U32(A[1]), 8))) + U32(Shl(U32(A[2]), 16))) + U32(Shl(U32(A[3]), 24)));
    var hi := U32(U32(U32(U32(A[4]) + U32(Shl(U32(A[5]), 8))) + U32(Shl(U32(A[6]), 16))) + U32(Shl(U32(A[7]), 24)));
    U64(U64(lo) + U64(Shl(U64(hi), 32)))
  }

  lemma Value8(A: seq<uchar>)
    requires |A| >= 8
    ensures Value(A[..8]) == Value(A[..4]) + Shl(Value(A[4..8]), 32)
  {
    ValueConcat(A[..4], A[4..8]);
    assert A[..8] == A[..4] + A[4..8];
    Value4(A);
    Value4(A[4..8]);
    assert A[4..8][..4] == A[4..8];
    Pow256Table();
  }

  function Sint8Korr(A: seq<uchar>): (r: int64)
    requires |A| >= 8
    ensures r == Signed(8, Value(A[..8]))
  {
    ConversionsAreSigned(Value(A[..8]));
    S64(Uint8Korr(A))
  }

  lemma Bytes2(v: int)
    ensures Bytes(2, v) == [U8(v), U8(Shr(v, 8))]
  {
    Pow256Table();
    assert Bytes(2, v) == [v % 256] + Bytes(1, v / 256);
    assert Bytes(1, v / 256) == [v / 256 % 256] + Bytes(0, v / 256 / 256);
  }

  lemma Bytes4(v: int)
    ensures Bytes(4, v) == [U8(v), U8(Shr(v, 8)), U8(Shr(v, 16)), U8(Shr(v, 24))]
  {
    Pow256Table();
    BytesSplit(2, 2, v);
    Bytes2(v);
    Bytes2(Shr(v, 16));
    ModByteStep(v, Pow256(2));
    ModByteStep(v / 256, 256);
    assert Shr(Shr(v, 16), 8) == Shr(v, 24) by { DivDiv(v, 2, 1); }
  }

  lemma Bytes8(v: uint64)
    ensures Bytes(8, v) == Bytes(4, U32(v)) + Bytes(4, U32(Shr(v, 32)))
  {
    Pow256Table();
    BytesSplit(4, 4, v);
    BytesCongruent(4, v, U32(v));
    assert Shr(v, 32) < 0x1_0000_0000;
  }

  method Int2Store(T: array<uchar>, t: nat, A: uint16)
    requires t + 2 <= T.Length
    modifies T
    ensures T[..] == Put(old(T[..]), t, Bytes(2, A))
  {
    var defTemp: uint32 := A;
    T[t] := U8(defTemp);
    T[t + 1] := U8(Shr(defTemp, 8));
    Bytes2(A);
  }

  method Int4Store(T: array<uchar>, t: nat, A: uint32)
    requires t + 4 <= T.Length
    modifies T
    ensures T[..] == Put(old(T[..]), t, Bytes(4, A))
  {
    T[t] := U8(A);
    T[t + 1] := U8(Shr(A, 8));
    T[t + 2] := U8(Shr(A, 16));
    T[t + 3] := U8(Shr(A, 24));
    Bytes4(A);
  }

  method Int8Store(T: array<uchar>, t: nat, A: uint64)
    requires t + 8 <= T.Length
    modifies T
    ensures T[..] == Put(old(T[..]), t, Bytes(8, A))
  {
    var defTemp: uint32, defTemp2: uint32 := U32(A), U32(Shr(A, 32));
    Int4Store(T, t, defTemp);
    Int4Store(T, t + 4, defTemp2);
    PutConcat(old(T[..]), t, Bytes(4, defTemp), Bytes(4, defTemp2));
    Bytes8(A);
  }
}
