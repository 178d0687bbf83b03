/** byte_order_generic_x86.h: direct loads and stores on a little-endian machine. */
module ByteOrderX86 {
  import opened ByteValue
  import opened CTypes
  import opened HostMemory
  import G = ByteOrderGeneric

  lemma LoadInRange(s: seq<uchar>)
    ensures |s| == 2 ==> Pattern(Little, s) < 0x1_0000
    ensures |s| == 4 ==> Pattern(Little, s) < 0x1_0000_0000
    ensures |s| == 8 ==> Pattern(Little, s) < 0x1_0000_0000_0000_0000
  {
    ValueInRange(s);
    Pow256Table();
  }

  function Sint2Korr(A: seq<uchar>): (r: int16)
    requires |A| >= 2
  {
    S16(Pattern(Little, A[..2]))
  }

  function Sint4Korr(A: seq<uchar>): (r: int32)
    requires |A| >= 4
  {
    S32(Pattern(Little, A[..4]))
  }

  function Uint2Korr(A: seq<uchar>): (r: uint16)
    requires |A| >= 2
  {
    LoadInRange(A[..2]);
    Pattern(Little, A[..2])
  }

  function Uint4Korr(A: seq<uchar>): (r: uint32)
    requires |A| >= 4
  {
    LoadInRange(A[..4]);
    Pattern(Little, A[..4])
  }

  function Uint8Korr(A: seq<uchar>): (r: uint64)
    requires |A| >= 8
  {
    LoadInRange(A[..8]);
    Pattern(Little, A[..8])
  }

  function Sint8Korr(A: seq<uchar>): (r: int64)
    requires |A| >= 8
  {
    S64(Pattern(Little, A[..8]))
  }

  /** The direct loads return what the shift-and-add readers return, on every byte string. */
  lemma ReadersAgree(A: seq<uchar>)
    ensures |A| >= 2 ==> Uint2Korr(A) == G.Uint2Korr(A) && Sint2Korr(A) == G.Sint2Korr(A)
    ensures |A| >= 4 ==> Uint4Korr(A) == G.Uint4Korr(A) && Sint4Korr(A) == G.Sint4Korr(A)
    ensures |A| >= 8 ==> Uint8Korr(A) == G.Uint8Korr(A) && Sint8Korr(A) == G.Sint8Korr(A)
  {
  }

  // The stores leave the bytes that the shift-and-mask writers of ByteOrderGeneric leave.

  method Int2Store(T: array<uchar>, t: nat, A: uint16)
    requires t + 2 <= T.Length
    modifies T
    ensures T[..] == Put(old(T[..]), t, Bytes(2, A))
  {
    CopyBytes(T, t, Memory(Little, 2, A));
  }

  method Int4Store(T: array<uchar>, t: nat, A: uint32)
    requires t + 4 <= T.Length
    modifies T
    ensures T[..] == Put(old(T[..]), t, Bytes(4, A))
  {
    CopyBytes(T, t, Memory(Little, 4, A));
  }

  method Int8Store(T: array<uchar>, t: nat, A: uint64)
    requires t + 8 <= T.Length
    modifies T
    ensures T[..] == Put(old(T[..]), t, Bytes(8, A))
  {
    CopyBytes(T, t, Memory(Little, 8, A));
  }
}
