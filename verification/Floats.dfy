/** The IEEE 754 formats a vector can hold, on bit patterns: exact widening and roundTiesToEven
    narrowing. Values are counted in units of 2^-16494, the smallest binary128 subnormal. */
module Floats {
  import opened Common
  import opened Rounding

  /** numpy's half, single, double and long double (as binary128, which holds every value of the
      80-bit extended format). */
  datatype Format = F16 | F32 | F64 | F128

  /** `dtype.itemsize`. */
  function ItemSize(f: Format): (n: nat)
    ensures 2 <= n <= 16
  {
    match f case F16 => 2 case F32 => 4 case F64 => 8 case F128 => 16
  }

  /** Two to the number of fraction bits: 10, 23, 52 and 112. */
  function HiddenBit(f: Format): (h: nat)
    ensures h >= 2 && h % 2 == 0
  {
    match f
    case F16 => 0x400
    case F32 => 0x80_0000
    case F64 => 0x10_0000_0000_0000
    case F128 => 0x1_0000_0000_0000_0000_0000_0000_0000
  }

  /** The smallest subnormals are 2^-24, 2^-149, 2^-1074 and 2^-16494. */
  function Base(f: Format): nat {
    match f case F16 => 16470 case F32 => 16345 case F64 => 15420 case F128 => 0
  }

  /** The exponent field of infinity and NaN: all ones in 5, 8, 11 and 15 bits. */
  function MaxExponent(f: Format): (e: nat)
    ensures e >= 1
  {
    match f case F16 => 31 case F32 => 255 case F64 => 2047 case F128 => 32767
  }

  /** Magnitude of infinity; smaller ones are finite. */
  function Infinity(f: Format): (m: nat)
    ensures m >= HiddenBit(f)
  {
    MulMonotone(1, MaxExponent(f), HiddenBit(f));
    MaxExponent(f) * HiddenBit(f)
  }

  /** A sign bit, and the exponent field and fraction as one number. */
  datatype Float = Float(neg: bool, mag: nat)

  predicate IsFloat(f: Format, x: Float) {
    x.mag < (MaxExponent(f) + 1) * HiddenBit(f)
  }

  predicate IsFinite(f: Format, x: Float) { x.mag < Infinity(f) }

  predicate IsNaN(f: Format, x: Float) { x.mag > Infinity(f) }

  function Value(f: Format, mag: nat): (v: nat) {
    Units(HiddenBit(f), Base(f), mag)
  }

  /** roundTiesToEven: a result past the largest finite number is infinity. */
  function Round(f: Format, v: nat): (mag: nat)
    ensures mag <= Infinity(f)
  {
    var mag := RoundUnbounded(HiddenBit(f), Base(f), v);
    if mag >= Infinity(f) then Infinity(f) else mag
  }

  function QuietNaN(f: Format): (m: nat)
    ensures m > Infinity(f)
  {
    Infinity(f) + HiddenBit(f) / 2
  }

  /** Conversion of one element: exact when the value is representable, else roundTiesToEven. */
  function Convert(from: Format, to: Format, x: Float): (y: Float)
    ensures y.neg == x.neg
    ensures from != to ==> (IsNaN(to, y) <==> IsNaN(from, x))
  {
    if from == to then x
    else if IsNaN(from, x) then Float(x.neg, QuietNaN(to))
    else if x.mag == Infinity(from) then Float(x.neg, Infinity(to))
    else Float(x.neg, Round(to, Value(from, x.mag)))
  }

  predicate Narrower(a: Format, b: Format) { ItemSize(a) < ItemSize(b) }

  // ---- widening ----

  /** The wider format has a longer significand, a lower base and a higher top. */
  lemma FormatsNest(from: Format, to: Format)
    requires Narrower(from, to)
    ensures HiddenBit(from) < HiddenBit(to) && Base(to) < Base(from)
    ensures Base(from) + MaxExponent(from) <= Base(to) + MaxExponent(to)
  {
  }

  /** The wider format's range covers the narrower one's. */
  lemma RangeGrows(from: Format, to: Format)
    requires Narrower(from, to)
    ensures Value(from, Infinity(from)) <= Value(to, Infinity(to))
  {
    FormatsNest(from, to);
    PowerUnitsGrow(HiddenBit(from), Base(from), MaxExponent(from), HiddenBit(to), Base(to), MaxExponent(to));
  }

  /** Widening is exact (section 5.4.2 of IEEE 754-2019). */
  lemma WidenExact(from: Format, to: Format, mag: nat)
    requires Narrower(from, to) && mag < Infinity(from)
    ensures Round(to, Value(from, mag)) < Infinity(to)
    ensures Value(to, Round(to, Value(from, mag))) == Value(from, mag)
  {
    FormatsNest(from, to);
    var wide := HeldExactly(HiddenBit(from), Base(from), mag, HiddenBit(to), Base(to));
    UnitsIncrease(HiddenBit(from), Base(from), mag, Infinity(from));
    RangeGrows(from, to);
    UnitsReflect(HiddenBit(to), Base(to), wide, Infinity(to));
  }

  /** Widening is injective on finite bit patterns, signed zeros and subnormals included. */
  lemma WidenInjective(from: Format, to: Format, x: Float, y: Float)
    requires from == to || Narrower(from, to)
    requires IsFinite(from, x) && IsFinite(from, y) && Convert(from, to, x) == Convert(from, to, y)
    ensures x == y
  {
    if from != to {
      WidenExact(from, to, x.mag);
      WidenExact(from, to, y.mag);
      UnitsInjective(HiddenBit(from), Base(from), x.mag, y.mag);
    }
  }

  // ---- narrowing ----

  /** A finite number whose nearest narrow number is finite converts to that number; section 4.3.1
      of IEEE 754-2019. */
  lemma NarrowIsNearest(from: Format, to: Format, x: Float, k: nat)
    requires from != to && IsFinite(from, x) && IsFinite(to, Convert(from, to, x))
    ensures var v, r := Value(from, x.mag), Convert(from, to, x).mag;
            && Distance(Value(to, r), v) <= Distance(Value(to, k), v)
            && (k != r && Distance(Value(to, r), v) == Distance(Value(to, k), v) ==> r % 2 == 0)
  {
    RoundIsNearest(HiddenBit(to), Base(to), Value(from, x.mag), k);
  }

  /** Below the middle between the largest finite number and the next power of two, which is where infinity starts
      (section 4.3.1 of IEEE 754-2019). */
  predicate IsBelowInfinity(f: Format, v: nat) {
    2 * v < Value(f, Infinity(f) - 1) + Value(f, Infinity(f))
  }

  lemma RoundStaysFinite(f: Format, v: nat)
    ensures Round(f, v) < Infinity(f) <==> IsBelowInfinity(f, v)
  {
    TopIsOdd(f);
    RoundsBelow(HiddenBit(f), Base(f), Infinity(f) - 1, v);
  }

  lemma TopIsOdd(f: Format)
    ensures (Infinity(f) - 1) % 2 == 1
  {
    var half := HiddenBit(f) / 2;
    Assoc3(MaxExponent(f), 2, half);
    assert Infinity(f) == MaxExponent(f) * (2 * half);
    assert MaxExponent(f) * (2 * half) == 2 * (MaxExponent(f) * half);
  }

  /** Conversion keeps the sign, NaN and infinity, and a finite number stays finite exactly below that middle; the
      number it becomes then is a nearest one (`NarrowIsNearest`). */
  lemma ConvertMeans(from: Format, to: Format, x: Float)
    requires from != to
    ensures var y := Convert(from, to, x);
            && y.neg == x.neg && (IsNaN(to, y) <==> IsNaN(from, x))
            && (x.mag == Infinity(from) ==> y.mag == Infinity(to))
            && (IsFinite(from, x) ==>
                  (IsFinite(to, y) <==> IsBelowInfinity(to, Value(from, x.mag)))
                  && (!IsFinite(to, y) ==> y.mag == Infinity(to)))
  {
    if IsFinite(from, x) {
      RoundStaysFinite(to, Value(from, x.mag));
    }
  }

  /** narrow(widen(x)) = x for every finite pattern, and for the infinities. */
  lemma NarrowWiden(narrow: Format, wide: Format, x: Float)
    requires Narrower(narrow, wide) && x.mag <= Infinity(narrow)
    ensures Convert(wide, narrow, Convert(narrow, wide, x)) == x
  {
    if x.mag < Infinity(narrow) {
      ConvertFinite(narrow, wide, x);
      NarrowWidened(narrow, wide, x.mag);
      ConvertFinite(wide, narrow, Convert(narrow, wide, x));
    }
  }

  lemma ConvertFinite(from: Format, to: Format, x: Float)
    requires from != to && IsFinite(from, x)
    ensures Convert(from, to, x) == Float(x.neg, Round(to, Value(from, x.mag)))
  {
  }

  lemma NarrowWidened(narrow: Format, wide: Format, mag: nat)
    requires Narrower(narrow, wide) && mag < Infinity(narrow)
    ensures Round(wide, Value(narrow, mag)) < Infinity(wide)
    ensures Round(narrow, Value(wide, Round(wide, Value(narrow, mag)))) == mag
  {
    WidenExact(narrow, wide, mag);
    RoundExact(HiddenBit(narrow), Base(narrow), mag);
  }

  /** numpy's `==` on two elements: by value, so zeros of either sign are equal and a NaN equals
      nothing. */
  predicate NumericEqual(f: Format, x: Float, y: Float) {
    && !IsNaN(f, x) && !IsNaN(f, y)
    && x.mag == y.mag && (x.mag == 0 || x.neg == y.neg)
  }

  predicate RoundTrips(wide: Format, narrow: Format, x: Float) {
    NumericEqual(wide, Convert(narrow, wide, Convert(wide, narrow, x)), x)
  }

  /** The round trip through the narrower format compares equal exactly for the patterns that are
      the widening of some narrower number, and then it gives the very same bits. */
  lemma RoundTripsIffRepresentable(wide: Format, narrow: Format, x: Float)
    requires Narrower(narrow, wide)
    ensures RoundTrips(wide, narrow, x)
            <==> exists y: Float :: y.mag <= Infinity(narrow) && Convert(narrow, wide, y) == x
    ensures RoundTrips(wide, narrow, x) ==> Convert(narrow, wide, Convert(wide, narrow, x)) == x
  {
    var y := Convert(wide, narrow, x);
    if RoundTrips(wide, narrow, x) {
      assert Convert(narrow, wide, y) == x;
      assert y.mag <= Infinity(narrow);
    }
    forall z: Float | z.mag <= Infinity(narrow) && Convert(narrow, wide, z) == x
      ensures RoundTrips(wide, narrow, x)
    {
      NarrowWiden(narrow, wide, z);
    }
  }

  // ---- how much narrowing loses ----

  predicate IsNormal(f: Format, x: Float) { HiddenBit(f) <= x.mag < Infinity(f) }

  /** 2^29 doubles' steps make one single-precision step. */
  const STEPS: nat := 0x2000_0000

  lemma StepsIs()
    ensures Pow2(29) == STEPS && HiddenBit(F64) == STEPS * HiddenBit(F32)
  {
    assert Pow2(10) == 1024;
    assert Pow2(20) == 0x10_0000;
  }

  /** Without the exactness check at least 2^28 doubles narrow to each normal single. */
  lemma ManyDoublesNarrowAlike(x: Float, j: nat)
    requires IsNormal(F32, x) && 2 * j < STEPS
    ensures var w := Convert(F32, F64, x);
            IsFinite(F64, Float(w.neg, w.mag + j)) && Convert(F64, F32, Float(w.neg, w.mag + j)) == x
  {
    var w, v := Convert(F32, F64, x).mag, Value(F32, x.mag);
    StepsIs();
    WidenExact(F32, F64, x.mag);
    ConvertFinite(F32, F64, x);
    var wide, d := FinerNeighbours(HiddenBit(F32), Base(F32), x.mag, HiddenBit(F64), Base(F64), 29, j);
    UnitsInjective(HiddenBit(F64), Base(F64), w, wide);
    StaysFinite(x.mag, w + j, d);
    ConvertFinite(F64, F32, Float(x.neg, w + j));
  }

  lemma StaysFinite(mag: nat, wide: nat, d: nat)
    requires mag < Infinity(F32) && d < Ulp(Base(F32), Shift(HiddenBit(F32), mag))
    requires Value(F64, wide) == Value(F32, mag) + d
    ensures wide < Infinity(F64)
  {
    NextUnits(HiddenBit(F32), Base(F32), mag);
    if mag + 1 < Infinity(F32) {
      UnitsIncrease(HiddenBit(F32), Base(F32), mag + 1, Infinity(F32));
    }
    RangeGrows(F32, F64);
    UnitsReflect(HiddenBit(F64), Base(F64), wide, Infinity(F64));
  }
}
