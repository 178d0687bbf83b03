/** little_endian.h: the same interface on machines whose integers are little-endian. Such a
    machine may still keep the two words of a `double` high word first ("bi-endian hardware");
    this is a build setting of the header. */
module LittleEndianHost {
  import opened ByteValue
  import opened CTypes
  import opened HostMemory
  import G = ByteOrderGeneric
  import MyByteOrder

  datatype FloatWordOrder = LowWordFirst | HighWordFirst

  function HighWord(v: uint64): (r: uint32) { v / 0x1_0000_0000 }

  function LowWord(v: uint64): (r: uint32) { v % 0x1_0000_0000 }

  function FromWords(hi: uint32, lo: uint32): (v: uint64)
    ensures HighWord(v) == hi && LowWord(v) == lo
  {
    DivModUnique(hi * 0x1_0000_0000 + lo, 0x1_0000_0000, hi, lo);
    hi * 0x1_0000_0000 + lo
  }

  /** The memory of a double whose bit pattern is v. */
  function DoubleMemory(o: FloatWordOrder, v: uint64): (s: seq<uchar>)
    ensures |s| == 8
  {
    match o
    case LowWordFirst => Bytes(8, v)
    case HighWordFirst => Bytes(4, HighWord(v)) + Bytes(4, LowWord(v))
  }

  /** The double whose memory is s. */
  function DoublePattern(o: FloatWordOrder, s: seq<uchar>): (v: uint64)
    requires |s| == 8
    ensures DoubleMemory(o, v) == s
  {
    match o
    case LowWordFirst =>
      BytesOfValue(s);
      Value8InRange(s);
      Value(s)
    case HighWordFirst =>
      BytesOfValue(s[..4]);
      BytesOfValue(s[4..]);
      Value4InRange(s[..4]);
      Value4InRange(s[4..]);
      FromWords(Value(s[..4]), Value(s[4..]))
  }

  lemma Value4InRange(s: seq<uchar>)
    requires |s| == 4
    ensures Value(s) < 0x1_0000_0000
  {
    ValueInRange(s);
    Pow256Table();
  }

  lemma Value8InRange(s: seq<uchar>)
    requires |s| == 8
    ensures Value(s) < 0x1_0000_0000_0000_0000
  {
    ValueInRange(s);
    Pow256Table();
  }

  lemma BytesOfWords(v: uint64)
    ensures Bytes(8, v) == Bytes(4, LowWord(v)) + Bytes(4, HighWord(v))
  {
    G.Bytes8(v);
    Pow256Table();
    assert U32(v) == LowWord(v) && Shr(v, 32) == HighWord(v);
  }

  function SwapWords(s: seq<uchar>): (r: seq<uchar>)
    requires |s| == 8
    ensures |r| == 8
  {
    s[4..] + s[..4]
  }

  /** A double kept high word first is its pattern's bytes with the words exchanged; exchanging
      them again gives the pattern's bytes back. */
  lemma HighWordFirstSwaps(v: uint64)
    ensures DoubleMemory(HighWordFirst, v) == SwapWords(Bytes(8, v))
    ensures SwapWords(DoubleMemory(HighWordFirst, v)) == Bytes(8, v)
  {
    BytesOfWords(v);
  }

  lemma PatternOfBytes8(v: uint64)
    ensures Value(Bytes(8, v)) == v
  {
    ValueOfBytes(8, v);
    Pow256Table();
  }

  // ----- floating point, copied as it lies in memory

  method Float4Get(M: seq<uchar>) returns (V: uint32)
    requires |M| >= 4
    ensures V == Value(M[..4])
  {
    Value4InRange(M[..4]);
    V := Pattern(Little, M[..4]);
  }

  method Float4Store(T: array<uchar>, t: nat, M: uint32)
    requires t + 4 <= T.Length
    modifies T
    ensures T[..] == Put(old(T[..]), t, Bytes(4, M))
  {
    CopyBytes(T, t, Memory(Little, 4, M));
  }

  method Float8Get(o: FloatWordOrder, M: seq<uchar>) returns (V: uint64)
    requires |M| >= 8
    ensures DoubleMemory(o, V) == M[..8]
  {
    V := DoublePattern(o, M[..8]);
  }

  method Float8Store(o: FloatWordOrder, T: array<uchar>, t: nat, M: uint64)
    requires t + 8 <= T.Length
    modifies T
    ensures T[..] == Put(old(T[..]), t, DoubleMemory(o, M))
  {
    CopyBytes(T, t, DoubleMemory(o, M));
  }

  /** On either word order the stored bytes are those of the pattern, low byte first. */
  method DoubleStore(o: FloatWordOrder, T: array<uchar>, t: nat, V: uint64)
    requires t + 8 <= T.Length
    modifies T
    ensures T[..] == Put(old(T[..]), t, Bytes(8, V))
  {
    var v := DoubleMemory(o, V);
    if o == HighWordFirst {
      T[t] := v[4];
      T[t + 1] := v[5];
      T[t + 2] := v[6];
      T[t + 3] := v[7];
      T[t + 4] := v[0];
      T[t + 5] := v[1];
      T[t + 6] := v[2];
      T[t + 7] := v[3];
      assert T[..] == Put(old(T[..]), t, SwapWords(v));
      HighWordFirstSwaps(V);
    } else {
      CopyBytes(T, t, v);
    }
  }

  method DoubleGet(o: FloatWordOrder, M: seq<uchar>) returns (V: uint64)
    requires |M| >= 8
    ensures V == Value(M[..8])
  {
    if o == HighWordFirst {
      var defTemp := new uchar[8];
      defTemp[0] := M[4];
      defTemp[1] := M[5];
      defTemp[2] := M[6];
      defTemp[3] := M[7];
      defTemp[4] := M[0];
      defTemp[5] := M[1];
      defTemp[6] := M[2];
      defTemp[7] := M[3];
      assert SwapWords(defTemp[..]) == M[..8];
      V := DoublePattern(o, defTemp[..]);
      HighWordFirstSwaps(V);
    } else {
      V := DoublePattern(o, M[..8]);
    }
    PatternOfBytes8(V);
  }

  // ----- integers in machine format

  method UshortGet(pM: seq<uchar>) returns (V: uint16)
    requires |pM| >= 2
    ensures V == Pattern(Little, pM[..2])
  {
    V := G.Uint2Korr(pM);
  }

  method ShortGet(pM: seq<uchar>) returns (V: int16)
    requires |pM| >= 2
    ensures V == Signed(2, Pattern(Little, pM[..2]))
  {
    V := G.Sint2Korr(pM);
  }

  method LongGet(pM: seq<uchar>) returns (V: int32)
    requires |pM| >= 4
    ensures V == Signed(4, Pattern(Little, pM[..4]))
  {
    V := G.Sint4Korr(pM);
  }

  method UlongGet(pM: seq<uchar>) returns (V: uint32)
    requires |pM| >= 4
    ensures V == Pattern(Little, pM[..4])
  {
    V := G.Uint4Korr(pM);
  }

  method ShortStore(T: array<uchar>, t: nat, V: int16)
    requires t + 2 <= T.Length
    modifies T
    ensures T[..] == Put(old(T[..]), t, Memory(Little, 2, V))
  {
    G.Int2Store(T, t, U16(V));
    MyByteOrder.ConvertedBytes(V);
  }

  method LongStore(T: array<uchar>, t: nat, V: int32)
    requires t + 4 <= T.Length
    modifies T
    ensures T[..] == Put(old(T[..]), t, Memory(Little, 4, V))
  {
    G.Int4Store(T, t, U32(V));
    MyByteOrder.ConvertedBytes(V);
  }

  method LonglongGet(M: seq<uchar>) returns (V: int64)
    requires |M| >= 8
    ensures V == Signed(8, Pattern(Little, M[..8]))
  {
    ConversionsAreSigned(Pattern(Little, M[..8]));
    V := S64(Pattern(Little, M[..8]));
  }

  method LonglongStore(T: array<uchar>, t: nat, V: int64)
    requires t + 8 <= T.Length
    modifies T
    ensures T[..] == Put(old(T[..]), t, Memory(Little, 8, V))
  {
    CopyBytes(T, t, Memory(Little, 8, V));
  }
}
