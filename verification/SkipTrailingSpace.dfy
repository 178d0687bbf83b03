/** m_string.h: the two implementations of `skip_trailing_space`.

    The string is the whole of an array, so that a read outside it is an error; addresses are
    numbers, `ptr` being the address of the first byte. Both scanners are proved to return
    `ptr + TrimmedLength`, the answer of the plain byte-by-byte loop. */
module SkipTrailingSpace {
  import opened ByteValue
  import opened CTypes
  import opened HostMemory
  import G = ByteOrderGeneric
  import X86 = ByteOrderX86

  const SPACE: uchar := 0x20

  /** The length that remains when all trailing spaces are dropped one by one. */
  function TrimmedLength(s: seq<uchar>): (n: nat)
    ensures n <= |s|
  {
    if s != [] && s[|s| - 1] == SPACE then TrimmedLength(s[..|s| - 1]) else |s|
  }

  /** It is the one position with only spaces behind it and no space just before it. */
  lemma {:induction false} TrimmedLengthUnique(s: seq<uchar>, n: nat)
    requires n <= |s|
    ensures n == TrimmedLength(s) <==>
            (forall i :: n <= i < |s| ==> s[i] == 0x20) && (n == 0 || s[n - 1] != 0x20)
  {
    if s != [] && s[|s| - 1] == SPACE {
      var init := s[..|s| - 1];
      if n == |s| {
        assert TrimmedLength(s) <= |s| - 1;
      } else {
        TrimmedLengthUnique(init, n);
        assert forall i :: n <= i < |init| ==> init[i] == s[i];
      }
    } else if n < |s| {
      assert s[|s| - 1] != SPACE;
    }
  }

  predicate SpacesIn(s: seq<uchar>, i: nat, j: nat)
    requires i <= j <= |s|
  {
    forall k :: i <= k < j ==> s[k] == SPACE
  }

  lemma TrimmedLengthAtMost(s: seq<uchar>, i: nat)
    requires i <= |s|
    ensures TrimmedLength(s) <= i <==> SpacesIn(s, i, |s|)
  {
    TrimmedLengthUnique(s, TrimmedLength(s));
  }

  /** A run of spaces just before the trimmed part is trimmed too; a run with another byte is not. */
  lemma TrimRun(s: seq<uchar>, i: nat, j: nat)
    requires i <= j <= |s| && TrimmedLength(s) <= j
    ensures TrimmedLength(s) <= i <==> SpacesIn(s, i, j)
  {
    TrimmedLengthAtMost(s, i);
    TrimmedLengthAtMost(s, j);
  }

  // ----- words of spaces

  /** sizeof(int) and sizeof(void*) */
  type WordSize = w: nat | w == 4 || w == 8 witness 4

  function SpaceInt(W: WordSize): (r: nat) {
    if W == 4 then 0x2020_2020 else 0x2020_2020_2020_2020
  }

  lemma ValueOfSpaces(s: seq<uchar>)
    requires SpacesIn(s, 0, |s|)
    ensures |s| == 4 ==> Value(s) == SpaceInt(4)
    ensures |s| == 8 ==> Value(s) == SpaceInt(8)
  {
    if |s| == 4 {
      G.Value4(s);
      assert s[..4] == s;
    } else if |s| == 8 {
      G.Value8(s);
      assert s[..8] == s;
      ValueOfSpaces(s[..4]);
      ValueOfSpaces(s[4..8]);
    }
  }

  /** A word equals the constant exactly when all its bytes are spaces, on either byte order. */
  lemma SpaceWord(e: Endian, W: WordSize, s: seq<uchar>, i: nat)
    requires i + W <= |s|
    ensures Pattern(e, s[i..i + W]) == SpaceInt(W) <==> SpacesIn(s, i, i + W)
  {
    var spaces: seq<uchar> := seq(W, _ => SPACE);
    ValueOfSpaces(spaces);
    BigValueIsValueReversed(spaces);
    assert Reverse(spaces) == spaces;
    if Pattern(e, s[i..i + W]) == SpaceInt(W) {
      PatternInjective(e, s[i..i + W], spaces);
      assert forall k :: i <= k < i + W ==> s[k] == s[i..i + W][k - i];
    }
    if SpacesIn(s, i, i + W) {
      assert s[i..i + W] == spaces;
    }
  }

  // ----- the three zones of the aligned scanner

  // Sizes are compile-time constants of the source, so each is a case of its own.

  /** a % sizeof(int) == 0 */
  predicate Aligned(W: WordSize, a: nat) {
    if W == 4 then a % 4 == 0 else a % 8 == 0
  }

  lemma MultipleAligned(q: nat)
    ensures Aligned(4, q * 4) && Aligned(8, q * 8)
  {
    DivModUnique(q * 4, 4, q, 0);
    DivModUnique(q * 8, 8, q, 0);
  }

  /** x / SIZEOF_INT * SIZEOF_INT */
  function RoundDown(W: WordSize, x: nat): (r: nat)
    ensures r <= x < r + W && Aligned(W, r)
  {
    MultipleAligned(x / 4);
    MultipleAligned(x / 8);
    if W == 4 then x / 4 * 4 else x / 8 * 8
  }

  /** (ulonglong)(intptr)a: intptr is signed, so a short pointer is sign-extended. */
  function ToUlonglong(pb: WordSize, a: nat): (r: uint64) {
    if pb == 4 then U64(S32(a)) else U64(S64(a))
  }

  /** (const uchar *)(intptr)x: the low bits of x. */
  function ToPointer(pb: WordSize, x: uint64): (r: nat) {
    if pb == 4 then U32(x) else x
  }

  /** The number of addresses. */
  function AddressSpace(pb: WordSize): (r: nat) {
    if pb == 4 then 0x1_0000_0000 else 0x1_0000_0000_0000_0000
  }

  function EndWords(pb: WordSize, W: WordSize, end: nat): (r: nat) {
    ToPointer(pb, RoundDown(W, ToUlonglong(pb, end)))
  }

  function StartWords(pb: WordSize, W: WordSize, ptr: nat): (r: nat) {
    ToPointer(pb, RoundDown(W, U64(ToUlonglong(pb, ptr) + W - 1)))
  }

  /** The detour over signed and 64-bit integers does round down to a multiple of the word size. */
  lemma EndWordsRoundsDown(pb: WordSize, W: WordSize, end: nat)
    requires end < AddressSpace(pb)
    ensures EndWords(pb, W, end) == RoundDown(W, end)
  {
    RoundedPointer(pb, W, end, 0);
  }

  lemma StartWordsRoundsUp(pb: WordSize, W: WordSize, ptr: nat)
    requires ptr + W <= AddressSpace(pb)
    ensures StartWords(pb, W, ptr) == RoundDown(W, ptr + W - 1)
  {
    RoundedPointer(pb, W, ptr, W - 1);
  }

  lemma RoundedPointer(pb: WordSize, W: WordSize, a: nat, d: nat)
    requires a + d < AddressSpace(pb)
    ensures ToPointer(pb, RoundDown(W, U64(ToUlonglong(pb, a) + d))) == RoundDown(W, a + d)
  {
    SignExtended(pb, a);
    if pb == 4 && a >= 0x8000_0000 {
      HighPointer(W, a + d);
    }
  }

  /** The arithmetic on a sign-extended pointer of 32 bits. */
  lemma HighPointer(W: WordSize, x: nat)
    requires x < 0x1_0000_0000
    ensures RoundDown(W, x + 0xFFFF_FFFF_0000_0000) == RoundDown(W, x) + 0xFFFF_FFFF_0000_0000
    ensures U32(RoundDown(W, x) + 0xFFFF_FFFF_0000_0000) == RoundDown(W, x)
  {
  }

  lemma SignExtended(pb: WordSize, a: nat)
    requires a < AddressSpace(pb)
    ensures ToUlonglong(pb, a) == if pb == 8 || a < 0x8000_0000 then a else a + 0xFFFF_FFFF_0000_0000
  {
  }

  /** For a string of more than 20 bytes the assertion of the source holds, its second guard is
      always true, and the zones are in order, wherever the string lies. */
  lemma ZonesInOrder(pb: WordSize, W: WordSize, ptr: nat, len: nat)
    requires len > 20 && ptr + len < AddressSpace(pb)
    ensures var s, e := StartWords(pb, W, ptr), EndWords(pb, W, ptr + len);
            ptr <= s < ptr + W && s < e && ptr < e && ptr + len - W < e <= ptr + len && Aligned(W, s) && Aligned(W, e)
  {
    StartWordsRoundsUp(pb, W, ptr);
    EndWordsRoundsDown(pb, W, ptr + len);
  }

  predicate WordBetween(W: WordSize, ptr: nat, len: nat) {
    RoundDown(W, ptr + len) > RoundDown(W, ptr + W - 1)
  }

  /** The barrier of 20 is not tight: the aligned zone is non-empty at every address exactly from
      2W - 1 bytes on. */
  lemma ZonesNeedLength(W: WordSize, len: nat)
    ensures (forall ptr :: WordBetween(W, ptr, len)) <==> len >= 2 * W - 1
  {
    if len < 2 * W - 1 {
      assert !WordBetween(W, 1, len);
    }
  }

  // ----- memory accesses

  /** `end[-1]`, which must lie in the string */
  function ByteBefore(buf: array<uchar>, ptr: nat, end: nat): (r: uchar)
    requires ptr < end <= ptr + buf.Length
    reads buf
  {
    buf[end - 1 - ptr]
  }

  /** `((unsigned *)end)[-1]`, which must be aligned and lie in the string */
  function WordBefore(e: Endian, W: WordSize, buf: array<uchar>, ptr: nat, end: nat): (r: nat)
    requires ptr + W <= end <= ptr + buf.Length && Aligned(W, end - W)
    reads buf
  {
    Pattern(e, buf[end - W - ptr..end - ptr])
  }

  /** `uint8korr(end-8)`, on bytes of the string */
  function Uint8KorrBefore(buf: array<uchar>, ptr: nat, end: nat): (r: uint64)
    requires ptr + 8 <= end <= ptr + buf.Length
    reads buf
  {
    G.Uint8Korr(buf[end - 8 - ptr..])
  }

  lemma ByteStep(buf: array<uchar>, ptr: nat, end: nat)
    requires ptr < end <= ptr + buf.Length && TrimmedLength(buf[..]) <= end - ptr
    ensures ByteBefore(buf, ptr, end) == SPACE <==> TrimmedLength(buf[..]) <= end - 1 - ptr
  {
    TrimRun(buf[..], end - 1 - ptr, end - ptr);
  }

  lemma WordStep(e: Endian, W: WordSize, buf: array<uchar>, ptr: nat, end: nat)
    requires ptr + W <= end <= ptr + buf.Length && Aligned(W, end - W)
    requires TrimmedLength(buf[..]) <= end - ptr
    ensures WordBefore(e, W, buf, ptr, end) == SpaceInt(W) <==> TrimmedLength(buf[..]) <= end - W - ptr
  {
    SpaceWord(e, W, buf[..], end - W - ptr);
    assert buf[..][end - W - ptr..end - ptr] == buf[end - W - ptr..end - ptr];
    TrimRun(buf[..], end - W - ptr, end - ptr);
  }

  lemma EightStep(buf: array<uchar>, ptr: nat, end: nat)
    requires ptr + 8 <= end <= ptr + buf.Length && TrimmedLength(buf[..]) <= end - ptr
    ensures Uint8KorrBefore(buf, ptr, end) == 0x2020_2020_2020_2020 <==> TrimmedLength(buf[..]) <= end - 8 - ptr
  {
    SpaceWord(Little, 8, buf[..], end - 8 - ptr);
    assert buf[..][end - 8 - ptr..end - ptr] == buf[end - 8 - ptr..][..8];
    TrimRun(buf[..], end - 8 - ptr, end - ptr);
  }

  // ----- the scanner for machines that need aligned loads

  method Zones(pb: WordSize, W: WordSize, ptr: nat, len: nat) returns (startWords: nat, endWords: nat)
    requires len > 20 && ptr + len < AddressSpace(pb)
    ensures ptr <= startWords < ptr + W && startWords < endWords
    ensures ptr < endWords && ptr + len - W < endWords <= ptr + len
    ensures Aligned(W, startWords) && Aligned(W, endWords)
  {
    endWords := EndWords(pb, W, ptr + len);
    startWords := StartWords(pb, W, ptr);
    ZonesInOrder(pb, W, ptr, len);
  }

  /** `head`, `words` and `tail` count the steps of the three loops. */
  method SkipAligned(e: Endian, pb: WordSize, W: WordSize, buf: array<uchar>, ptr: nat)
    returns (end: nat, ghost head: nat, ghost words: nat, ghost tail: nat)
    requires ptr + buf.Length < AddressSpace(pb)
    ensures end == ptr + TrimmedLength(buf[..])
    ensures head + words * W + tail == buf.Length - TrimmedLength(buf[..])
    ensures buf.Length > 20 ==> head < W && tail < W
    ensures buf.Length <= 20 ==> head == words == 0
  {
    var len := buf.Length;
    ghost var r := ptr + TrimmedLength(buf[..]);
    end, head, words, tail := ptr + len, 0, 0, 0;
    if len > 20 {
      var startWords, endWords := Zones(pb, W, ptr, len);
      assert endWords > ptr;
      while end > endWords && ByteBefore(buf, ptr, end) == SPACE
        invariant endWords <= end && r <= end && end + head == ptr + len
      {
        ByteStep(buf, ptr, end);
        end, head := end - 1, head + 1;
      }
      ByteStep(buf, ptr, end);
      if ByteBefore(buf, ptr, end) == SPACE && startWords < endWords {
        end, words := SkipWords(e, W, buf, ptr, startWords, end);
      }
    }
    end, tail := SkipBytes(buf, ptr, end);
  }

  /** The word loop of the aligned zone. */
  method SkipWords(e: Endian, W: WordSize, buf: array<uchar>, ptr: nat, startWords: nat, from: nat)
    returns (end: nat, ghost steps: nat)
    requires ptr <= startWords < ptr + W && startWords <= from <= ptr + buf.Length
    requires Aligned(W, startWords) && Aligned(W, from)
    requires ptr + TrimmedLength(buf[..]) <= from
    ensures ptr + TrimmedLength(buf[..]) <= end < ptr + TrimmedLength(buf[..]) + W
    ensures end + steps * W == from
  {
    end, steps := from, 0;
    AlignedGap(W, startWords, end);
    while end > startWords && WordBefore(e, W, buf, ptr, end) == SpaceInt(W)
      invariant startWords <= end <= from && ptr + TrimmedLength(buf[..]) <= end && Aligned(W, end)
      invariant end > startWords ==> startWords + W <= end && Aligned(W, end - W)
      invariant end + steps * W == from
    {
      WordStep(e, W, buf, ptr, end);
      end, steps := end - W, steps + 1;
      AlignedGap(W, startWords, end);
    }
    if end > startWords {
      WordStep(e, W, buf, ptr, end);
    }
  }

  /** The last loop of both scanners. */
  method SkipBytes(buf: array<uchar>, ptr: nat, from: nat) returns (end: nat, ghost steps: nat)
    requires ptr + TrimmedLength(buf[..]) <= from <= ptr + buf.Length
    ensures end == ptr + TrimmedLength(buf[..]) && steps == from - end
  {
    end, steps := from, 0;
    while end > ptr && ByteBefore(buf, ptr, end) == SPACE
      invariant ptr + TrimmedLength(buf[..]) <= end <= from && end + steps == from
    {
      ByteStep(buf, ptr, end);
      end, steps := end - 1, steps + 1;
    }
    if end > ptr {
      ByteStep(buf, ptr, end);
    }
  }

  lemma AlignedGap(W: WordSize, a: nat, b: nat)
    requires Aligned(W, a) && Aligned(W, b)
    ensures a < b ==> a + W <= b && Aligned(W, b - W)
  {
    if a < b {
      var i, j := if W == 4 then a / 4 else a / 8, if W == 4 then b / 4 else b / 8;
      assert i * W == a && j * W == b && i < j;
      MultipleAligned(j - 1);
    }
  }

  // ----- the scanner for all other machines

  method SkipByEights(buf: array<uchar>, ptr: nat)
    returns (end: nat, ghost words: nat, ghost tail: nat)
    ensures end == ptr + TrimmedLength(buf[..])
    ensures 8 * words + tail == buf.Length - TrimmedLength(buf[..])
    ensures words <= buf.Length / 8 && tail < 8
  {
    ghost var r := ptr + TrimmedLength(buf[..]);
    end, words := ptr + buf.Length, 0;
    while end - ptr >= 8
      invariant ptr <= end && r <= end && end + 8 * words == ptr + buf.Length
    {
      EightStep(buf, ptr, end);
      if Uint8KorrBefore(buf, ptr, end) != 0x2020_2020_2020_2020 {
        break;
      }
      end, words := end - 8, words + 1;
    }
    end, tail := SkipBytes(buf, ptr, end);
  }

  /** The build setting that selects a scanner does not change the answer. */
  method SkipTrailing(sparc: bool, e: Endian, pb: WordSize, W: WordSize, buf: array<uchar>, ptr: nat) returns (end: nat)
    requires ptr + buf.Length < AddressSpace(pb)
    ensures ptr <= end <= ptr + buf.Length
    ensures (forall i :: end - ptr <= i < buf.Length ==> buf[i] == 0x20) && (end == ptr || buf[end - ptr - 1] != 0x20)
    ensures end == ptr + TrimmedLength(buf[..])
  {
    ghost var head, words, tail;
    if sparc {
      end, head, words, tail := SkipAligned(e, pb, W, buf, ptr);
    } else {
      end, words, tail := SkipByEights(buf, ptr);
    }
    TrimmedLengthUnique(buf[..], end - ptr);
  }
}
