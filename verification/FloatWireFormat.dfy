/** Doubles and floats exchanged between machines through float8store/float8get and
    float4store/float4get, and machine-format integers seen from the other byte order. */
module FloatWireFormat {
  import opened ByteValue
  import opened CTypes
  import opened HostMemory
  import L = LittleEndianHost
  import B = BigEndianHost
  import G = ByteOrderGeneric

  /** The builds of the byte-order headers. */
  datatype Host = BigEndian | LittleEndian(order: L.FloatWordOrder)

  predicate IsMixed(h: Host) { h == LittleEndian(L.HighWordFirst) }

  /** What float8store of a host writes for the double v. */
  function Float8Bytes(h: Host, v: uint64): (s: seq<uchar>)
    ensures |s| == 8
  {
    match h
    case BigEndian => Bytes(8, v)
    case LittleEndian(o) => L.DoubleMemory(o, v)
  }

  /** What float8get of a host reads. */
  function Float8Read(h: Host, s: seq<uchar>): (r: uint64)
    requires |s| == 8
  {
    match h
    case BigEndian => L.Value8InRange(s); Value(s)
    case LittleEndian(o) => L.DoublePattern(o, s)
  }

  predicate EqualWords(v: uint64) { L.HighWord(v) == L.LowWord(v) }

  lemma SwappedWordsEqual(a: seq<uchar>, b: seq<uchar>)
    requires |a| == |b|
    ensures a + b == b + a <==> a == b
  {
    assert a == (a + b)[..|a|] && b == (b + a)[..|a|];
  }

  lemma WordsOf(v: uint64)
    ensures L.DoubleMemory(L.HighWordFirst, v) == Bytes(8, v) <==> EqualWords(v)
  {
    L.BytesOfWords(v);
    SwappedWordsEqual(Bytes(4, L.HighWord(v)), Bytes(4, L.LowWord(v)));
    Pow256Table();
    BytesInjective(4, L.HighWord(v), L.LowWord(v));
  }

  /** float8store writes the pattern low byte first on every host except a mixed one, and there
      exactly for the doubles whose two words are equal. */
  lemma Float8IsLowByteFirst(h: Host, v: uint64)
    ensures Float8Bytes(h, v) == Bytes(8, v) <==> !IsMixed(h) || EqualWords(v)
  {
    WordsOf(v);
  }

  lemma Float8ReadUnique(h: Host, v: uint64, s: seq<uchar>)
    requires |s| == 8
    ensures Float8Read(h, s) == v <==> Float8Bytes(h, v) == s
  {
    match h
    case BigEndian =>
      BytesOfValue(s);
      L.PatternOfBytes8(v);
    case LittleEndian(o) =>
      DoubleMemoryInjective(o, v, L.DoublePattern(o, s));
  }

  lemma DoubleMemoryInjective(o: L.FloatWordOrder, v: uint64, w: uint64)
    ensures L.DoubleMemory(o, v) == L.DoubleMemory(o, w) <==> v == w
  {
    L.HighWordFirstSwaps(v);
    L.HighWordFirstSwaps(w);
    Pow256Table();
    BytesInjective(8, v, w);
  }

  lemma Float8BytesAgree(h: Host, h': Host, v: uint64)
    ensures Float8Bytes(h, v) == Float8Bytes(h', v) <==> IsMixed(h) == IsMixed(h') || EqualWords(v)
  {
    Float8IsLowByteFirst(h, v);
    Float8IsLowByteFirst(h', v);
  }

  /** A double stored by one host and read by another arrives exactly when both hosts keep doubles
      the same way round or its two words are equal. */
  lemma DoubleAcrossHosts(h: Host, h': Host, v: uint64)
    ensures Float8Read(h', Float8Bytes(h, v)) == v <==>
            IsMixed(h) == IsMixed(h') || EqualWords(v)
  {
    Float8BytesAgree(h, h', v);
    Float8ReadUnique(h', v, Float8Bytes(h, v));
  }

  lemma SwappedMemory(v: uint64)
    ensures var w := L.FromWords(L.LowWord(v), L.HighWord(v));
            L.DoubleMemory(L.HighWordFirst, v) == Bytes(8, w) && L.DoubleMemory(L.HighWordFirst, w) == Bytes(8, v)
  {
    hide Bytes, L.HighWord, L.LowWord, L.FromWords;
    L.BytesOfWords(v);
    L.BytesOfWords(L.FromWords(L.LowWord(v), L.HighWord(v)));
  }

  /** What arrives when exactly one of the two hosts is mixed: the double with its words exchanged. */
  lemma MixedHostSwapsWords(h: Host, h': Host, v: uint64)
    requires IsMixed(h) != IsMixed(h')
    ensures Float8Read(h', Float8Bytes(h, v)) == L.FromWords(L.LowWord(v), L.HighWord(v))
  {
    var w := L.FromWords(L.LowWord(v), L.HighWord(v));
    SwappedMemory(v);
    Float8ReadUnique(h', w, Float8Bytes(h, v));
    hide L.FromWords, L.LowWord, L.HighWord, Bytes, Float8Read;
    Float8IsLowByteFirstUnless(h, v);
    Float8IsLowByteFirstUnless(h', w);
  }

  lemma Float8IsLowByteFirstUnless(h: Host, v: uint64)
    ensures Float8Bytes(h, v) == if IsMixed(h) then L.DoubleMemory(L.HighWordFirst, v) else Bytes(8, v)
  {
  }

  /** float8store of one host into a buffer and float8get of another out of it: the double arrives exactly if
      both hosts keep doubles the same way round or its two words are equal. */
  method ExchangeDouble(h: Host, h': Host, T: array<uchar>, t: nat, v: uint64) returns (r: uint64)
    requires t + 8 <= T.Length
    modifies T
    ensures T[..] == Put(old(T[..]), t, Float8Bytes(h, v))
    ensures r == v <==> IsMixed(h) == IsMixed(h') || EqualWords(v)
    ensures IsMixed(h) != IsMixed(h') ==> r == L.FromWords(L.LowWord(v), L.HighWord(v))
  {
    match h {
      case BigEndian => B.Float8Store(T, t, v);
      case LittleEndian(o) => L.Float8Store(o, T, t, v);
    }
    ghost var s := Float8Bytes(h, v);
    PutRead(old(T[..]), t, s);
    match h' {
      case BigEndian => r := B.Float8Get(T[t..]);
      case LittleEndian(o) =>
        r := L.Float8Get(o, T[t..]);
        DoubleMemoryInjective(o, r, L.DoublePattern(o, s));
    }
    assert r == Float8Read(h', s);
    DoubleAcrossHosts(h, h', v);
    if IsMixed(h) != IsMixed(h') {
      MixedHostSwapsWords(h, h', v);
    }
  }

  /** float4store of one host and float4get of another: every float arrives, and the bytes in between are its
      pattern, low byte first. */
  method ExchangeFloat(h: Host, h': Host, T: array<uchar>, t: nat, v: uint32) returns (r: uint32)
    requires t + 4 <= T.Length
    modifies T
    ensures T[..] == Put(old(T[..]), t, Bytes(4, v))
    ensures r == v
  {
    match h {
      case BigEndian => B.Float4Store(T, t, v);
      case LittleEndian(_) => L.Float4Store(T, t, v);
    }
    PutRead(old(T[..]), t, Bytes(4, v));
    PatternOfBytes4(v);
    match h' {
      case BigEndian => r := B.Float4Get(T[t..]);
      case LittleEndian(_) => r := L.Float4Get(T[t..]);
    }
  }

  lemma PutRead(s: seq<uchar>, t: nat, b: seq<uchar>)
    requires t + |b| <= |s|
    ensures Put(s, t, b)[t..][..|b|] == b
  {
  }

  lemma PatternOfBytes4(v: uint32)
    ensures Value(Bytes(4, v)) == v
  {
    ValueOfBytes(4, v);
    Pow256Table();
  }

  /** longget of a big-endian machine is sint4korr of the four bytes reversed. */
  lemma BigLongIsReversedSint4(A: seq<uchar>)
    requires |A| >= 4
    ensures Signed(4, Pattern(Big, A[..4])) == G.Sint4Korr(Reverse(A[..4]))
  {
    BigValueIsValueReversed(A[..4]);
    assert Reverse(A[..4])[..4] == Reverse(A[..4]);
  }
}
