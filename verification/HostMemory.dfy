/** How a machine keeps an object of n bytes in memory. */
module HostMemory {
  import opened ByteValue
  import opened CTypes

  datatype Endian = Little | Big

  /** The memory of an n-byte object whose bit pattern is v. */
  function Memory(e: Endian, n: nat, v: int): (s: seq<uchar>)
    ensures |s| == n
  {
    if e == Little then Bytes(n, v) else Reverse(Bytes(n, v))
  }

  /** The bit pattern of the object that occupies the bytes s. */
  function Pattern(e: Endian, s: seq<uchar>): (r: nat) {
    if e == Little then Value(s) else BigValue(s)
  }

  lemma BigValueIsValueReversed(s: seq<uchar>)
    ensures BigValue(s) == Value(Reverse(s))
  {
    BigValueReversed(Reverse(s));
    ReverseTwice(s);
  }

  lemma PatternOfMemory(e: Endian, n: nat, v: int)
    ensures Pattern(e, Memory(e, n, v)) == v % Pow256(n)
  {
    ValueOfBytes(n, v);
    BigValueReversed(Bytes(n, v));
  }

  lemma MemoryOfPattern(e: Endian, s: seq<uchar>)
    ensures Memory(e, |s|, Pattern(e, s)) == s
  {
    BytesOfValue(s);
    BigValueIsValueReversed(s);
    BytesOfValue(Reverse(s));
    ReverseTwice(s);
  }

  lemma PatternInjective(e: Endian, a: seq<uchar>, b: seq<uchar>)
    requires |a| == |b| && Pattern(e, a) == Pattern(e, b)
    ensures a == b
  {
    MemoryOfPattern(e, a);
    MemoryOfPattern(e, b);
  }

  /** Memory copied from one machine to another keeps its meaning exactly when the machines
      agree on byte order or the bytes read the same backwards. */
  lemma CopiedMemoryReadable(e: Endian, e': Endian, n: nat, v: int)
    ensures Pattern(e', Memory(e, n, v)) == v % Pow256(n) <==>
            e == e' || Reverse(Memory(e, n, v)) == Memory(e, n, v)
  {
    var s := Memory(e, n, v);
    PatternOfMemory(e, n, v);
    BigValueIsValueReversed(s);
    if Value(s) == Value(Reverse(s)) {
      ValueInjective(s, Reverse(s));
    }
  }

  /** What a machine-format store leaves, the matching load on the same machine returns: every
      signed number of the width comes back, and every byte string is some number's memory. */
  lemma MachineFormatRoundTrip(e: Endian, n: nat, v: int, s: seq<uchar>)
    requires n > 0 && |s| == n
    ensures var p: int := Pow256(n);
            Signed(n, Pattern(e, Memory(e, n, v))) == v <==> -p <= 2 * v < p
    ensures Memory(e, n, Signed(n, Pattern(e, s))) == s
  {
    PatternOfMemory(e, n, v);
    SignedUnique(n, Pattern(e, Memory(e, n, v)), v);
    DivModUnique(v % Pow256(n), Pow256(n), 0, v % Pow256(n));
    MemoryOfPattern(e, s);
    var u := Pattern(e, s);
    SignedUnique(n, u, Signed(n, u));
    BytesCongruent(n, Signed(n, u), u);
  }

  /** A store through a pointer to a wider type, or a memcpy, of the bytes b. */
  method CopyBytes(T: array<uchar>, t: nat, b: seq<uchar>)
    requires t + |b| <= T.Length
    modifies T
    ensures T[..] == Put(old(T[..]), t, b)
  {
    forall i | 0 <= i < |b| {
      T[t + i] := b[i];
    }
  }
}
