/** event2/util.h: evutil_timeradd, evutil_timersub and evutil_timercmp.

    Normalised time values are the numbers of microseconds: the arithmetic macros are addition
    and subtraction of those numbers, and the comparison macro is their order. */
module Timeval {
  import opened ByteValue
  import opened CTypes

  const MILLION: int := 1000000

  /** The size in bytes of a field of struct timeval. */
  type FieldSize = n: nat | n == 4 || n == 8 witness 4

  /** The sizes of the two fields differ between platforms, also from each other. */
  datatype Layout = Layout(sec: FieldSize, usec: FieldSize)

  /** The largest number of a signed field. */
  function Largest(n: FieldSize): (r: int) {
    if n == 4 then 0x7FFF_FFFF else 0x7FFF_FFFF_FFFF_FFFF
  }

  predicate InRange(n: FieldSize, x: int) { -Largest(n) - 1 <= x <= Largest(n) }

  /** The range is that of the signed type of the size: the numbers that conversion to it keeps. */
  lemma InRangeExactly(n: FieldSize, x: int)
    ensures InRange(n, x) <==> Signed(n, x) == x
  {
    SignedUnique(n, x, x);
    Pow256Table();
  }

  /** The value of a struct timeval. */
  datatype Tv = Tv(sec: int, usec: int)

  predicate Fits(l: Layout, v: Tv) { InRange(l.sec, v.sec) && InRange(l.usec, v.usec) }

  function Micros(v: Tv): (r: int) { v.sec * MILLION + v.usec }

  predicate Normal(v: Tv) { 0 <= v.usec < MILLION }

  /** The normalised time value of a number of microseconds. */
  function FromMicros(n: int): (v: Tv)
    ensures 0 <= v.usec < 1000000 && v.sec * 1000000 + v.usec == n
  {
    Tv(n / MILLION, n % MILLION)
  }

  class Timeval {
    const layout: Layout
    var tv_sec: int
    var tv_usec: int

    constructor (layout: Layout, v: Tv)
      requires Fits(layout, v)
      ensures this.layout == layout && Value() == v
    {
      this.layout := layout;
      tv_sec, tv_usec := v.sec, v.usec;
    }

    function Value(): (r: Tv)
      reads this
    {
      Tv(tv_sec, tv_usec)
    }

    method SetSec(x: int)
      requires InRange(layout.sec, x)
      modifies this`tv_sec
      ensures tv_sec == x
    {
      tv_sec := x;
    }

    method SetUsec(x: int)
      requires InRange(layout.usec, x)
      modifies this`tv_usec
      ensures tv_usec == x
    {
      tv_usec := x;
    }
  }

  /** What evutil_timeradd leaves in its result for any two time values, normalised or not. */
  function Sum(t: Tv, u: Tv): (r: Tv) {
    if t.usec + u.usec >= MILLION then Tv(t.sec + u.sec + 1, t.usec + u.usec - MILLION)
    else Tv(t.sec + u.sec, t.usec + u.usec)
  }

  function Difference(t: Tv, u: Tv): (r: Tv) {
    if t.usec - u.usec < 0 then Tv(t.sec - u.sec - 1, t.usec - u.usec + MILLION)
    else Tv(t.sec - u.sec, t.usec - u.usec)
  }

  /** No step of the addition overflows; signed overflow is undefined in C. */
  predicate AddFits(l: Layout, t: Tv, u: Tv) {
    InRange(l.sec, t.sec + u.sec) && InRange(l.usec, t.usec + u.usec) && InRange(l.sec, Sum(t, u).sec)
  }

  predicate SubFits(l: Layout, t: Tv, u: Tv) {
    InRange(l.sec, t.sec - u.sec) && InRange(l.usec, t.usec - u.usec) && InRange(l.sec, Difference(t, u).sec)
  }

  /** On normalised values an addition is defined exactly when the result is below the end of the range, in
      microseconds, and the seconds alone, before any carry, are not below its beginning; a subtraction
      the other way round. */
  lemma FitsExactly(l: Layout, t: Tv, u: Tv)
    requires Normal(t) && Normal(u) && Fits(l, t) && Fits(l, u)
    ensures AddFits(l, t, u) <==>
            -Largest(l.sec) - 1 <= t.sec + u.sec && Micros(t) + Micros(u) < (Largest(l.sec) + 1) * 1000000
    ensures SubFits(l, t, u) <==>
            t.sec - u.sec <= Largest(l.sec) && Micros(t) - Micros(u) >= (-Largest(l.sec) - 1) * 1000000
  {
  }

  /** The three time values may be the same object. Each assignment is checked to stay in the range of the
      field. */
  method TimerAdd(tvp: Timeval, uvp: Timeval, vvp: Timeval)
    requires tvp.layout == uvp.layout == vvp.layout
    requires AddFits(vvp.layout, tvp.Value(), uvp.Value())
    modifies vvp
    ensures vvp.tv_sec * 1000000 + vvp.tv_usec ==
            old(tvp.tv_sec * 1000000 + tvp.tv_usec) + old(uvp.tv_sec * 1000000 + uvp.tv_usec)
    ensures 0 <= vvp.tv_usec < 1000000 <==> 0 <= old(tvp.tv_usec) + old(uvp.tv_usec) < 2000000
    ensures vvp.Value() == Sum(old(tvp.Value()), old(uvp.Value())) && Fits(vvp.layout, vvp.Value())
  {
    vvp.SetSec(tvp.tv_sec + uvp.tv_sec);
    vvp.SetUsec(tvp.tv_usec + uvp.tv_usec);
    if vvp.tv_usec >= 1000000 {
      vvp.SetSec(vvp.tv_sec + 1);
      vvp.SetUsec(vvp.tv_usec - 1000000);
    }
  }

  method TimerSub(tvp: Timeval, uvp: Timeval, vvp: Timeval)
    requires tvp.layout == uvp.layout == vvp.layout
    requires SubFits(vvp.layout, tvp.Value(), uvp.Value())
    modifies vvp
    ensures vvp.tv_sec * 1000000 + vvp.tv_usec ==
            old(tvp.tv_sec * 1000000 + tvp.tv_usec) - old(uvp.tv_sec * 1000000 + uvp.tv_usec)
    ensures 0 <= vvp.tv_usec < 1000000 <==> -1000000 <= old(tvp.tv_usec) - old(uvp.tv_usec) < 1000000
    ensures vvp.Value() == Difference(old(tvp.Value()), old(uvp.Value())) && Fits(vvp.layout, vvp.Value())
  {
    vvp.SetSec(tvp.tv_sec - uvp.tv_sec);
    vvp.SetUsec(tvp.tv_usec - uvp.tv_usec);
    if vvp.tv_usec < 0 {
      vvp.SetSec(vvp.tv_sec - 1);
      vvp.SetUsec(vvp.tv_usec + 1000000);
    }
  }

  /** On normalised values the macros are + and - of microseconds. */
  lemma SumIsAddition(t: Tv, u: Tv)
    requires Normal(t) && Normal(u)
    ensures Sum(t, u) == FromMicros(Micros(t) + Micros(u)) && Micros(Sum(t, u)) == Micros(t) + Micros(u)
    ensures Difference(t, u) == FromMicros(Micros(t) - Micros(u)) && Micros(Difference(t, u)) == Micros(t) - Micros(u)
  {
  }

  /** Subtracting what was added restores the original, and adding what was subtracted. */
  lemma AddThenSub(t: Tv, u: Tv)
    requires Normal(t) && Normal(u)
    ensures Difference(Sum(t, u), u) == t && Sum(Difference(t, u), u) == t
  {
  }

  /** An addition that is defined does not make the subtraction that undoes it defined: that overflows
      exactly when a carry was made on the largest second; and the other way round. */
  lemma UndoFitsExactly(l: Layout, t: Tv, u: Tv)
    requires Normal(t) && Normal(u) && Fits(l, t) && Fits(l, u)
    ensures AddFits(l, t, u) ==> (SubFits(l, Sum(t, u), u) <==> t.sec < Largest(l.sec) || t.usec + u.usec < MILLION)
    ensures SubFits(l, t, u) ==> (AddFits(l, Difference(t, u), u) <==> t.sec > -Largest(l.sec) - 1 || t.usec >= u.usec)
  {
    if t.usec + u.usec >= MILLION {
      assert Difference(Sum(t, u), u) == t && Sum(t, u).sec - u.sec == t.sec + 1;
    }
    if t.usec < u.usec {
      assert Sum(Difference(t, u), u) == t && Difference(t, u).sec + u.sec == t.sec - 1;
    }
  }

  /** evutil_timeradd(tvp, uvp, vvp) and then evutil_timersub(vvp, uvp, vvp), with any of the three the same:
      the first operand is back, unless the addition overwrote the second operand, and then the result is
      zero. */
  method AddThenSubInPlace(tvp: Timeval, uvp: Timeval, vvp: Timeval)
    requires tvp.layout == uvp.layout == vvp.layout
    requires Normal(tvp.Value()) && Normal(uvp.Value())
    requires Fits(vvp.layout, tvp.Value()) && Fits(vvp.layout, uvp.Value())
    requires AddFits(vvp.layout, tvp.Value(), uvp.Value())
    requires vvp == uvp || tvp.tv_sec < Largest(vvp.layout.sec) || tvp.tv_usec + uvp.tv_usec < MILLION
    modifies vvp
    ensures vvp.Value() == if vvp == uvp then Tv(0, 0) else old(tvp.Value())
  {
    UndoFitsExactly(vvp.layout, tvp.Value(), uvp.Value());
    AddThenSub(tvp.Value(), uvp.Value());
    TimerAdd(tvp, uvp, vvp);
    TimerSub(vvp, uvp, vvp);
  }

  // ----- comparison

  datatype Cmp = Eq | Le | Lt | Ge | Gt

  predicate Compare(cmp: Cmp, x: int, y: int) {
    match cmp
    case Eq => x == y
    case Le => x <= y
    case Lt => x < y
    case Ge => x >= y
    case Gt => x > y
  }

  predicate TimerCmp(t: Tv, u: Tv, cmp: Cmp) {
    if t.sec == u.sec then Compare(cmp, t.usec, u.usec) else Compare(cmp, t.sec, u.sec)
  }

  /** On normalised values the five operators are those of the microseconds. */
  lemma TimerCmpIsOrder(t: Tv, u: Tv)
    requires Normal(t) && Normal(u)
    ensures TimerCmp(t, u, Eq) <==> t.sec * 1000000 + t.usec == u.sec * 1000000 + u.usec
    ensures TimerCmp(t, u, Le) <==> t.sec * 1000000 + t.usec <= u.sec * 1000000 + u.usec
    ensures TimerCmp(t, u, Lt) <==> t.sec * 1000000 + t.usec < u.sec * 1000000 + u.usec
    ensures TimerCmp(t, u, Ge) <==> t.sec * 1000000 + t.usec >= u.sec * 1000000 + u.usec
    ensures TimerCmp(t, u, Gt) <==> t.sec * 1000000 + t.usec > u.sec * 1000000 + u.usec
  {
  }

  /** Adding the same time to both sides, or taking it away, does not change the comparison. */
  lemma TimerCmpTranslates(t: Tv, u: Tv, d: Tv, cmp: Cmp)
    requires Normal(t) && Normal(u) && Normal(d)
    ensures TimerCmp(Sum(t, d), Sum(u, d), cmp) <==> TimerCmp(t, u, cmp)
    ensures TimerCmp(Difference(t, d), Difference(u, d), cmp) <==> TimerCmp(t, u, cmp)
  {
  }

  /** Every one of the five operators gives what it gives on the microseconds. */
  ghost predicate ComparedRightly(t: Tv, u: Tv) {
    && (TimerCmp(t, u, Eq) <==> Micros(t) == Micros(u))
    && (TimerCmp(t, u, Le) <==> Micros(t) <= Micros(u))
    && (TimerCmp(t, u, Lt) <==> Micros(t) < Micros(u))
    && (TimerCmp(t, u, Ge) <==> Micros(t) >= Micros(u))
    && (TimerCmp(t, u, Gt) <==> Micros(t) > Micros(u))
  }

  /** A time value is compared rightly with every normalised one exactly when it is normalised itself. */
  lemma TimerCmpNeedsNormal(t: Tv)
    ensures (forall u :: Normal(u) ==> ComparedRightly(t, u)) <==> Normal(t)
  {
    if t.usec >= MILLION {
      var u := Tv(t.sec + 1, 0);
      assert Normal(u) && !ComparedRightly(t, u);
    } else if t.usec < 0 {
      var u := Tv(t.sec - 1, MILLION - 1);
      assert Normal(u) && !ComparedRightly(t, u);
    } else {
      forall u | Normal(u)
        ensures ComparedRightly(t, u)
      {
        TimerCmpIsOrder(t, u);
      }
    }
  }
}
