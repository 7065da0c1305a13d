/** Binary floating-point magnitudes and roundTiesToEven, for any format. A format is given by its
    hidden bit `h` (two to the number of fraction bits) and by `b`, where its smallest subnormal is
    2^b units of a common scale. A magnitude is the exponent field and the fraction read as one
    number; its value is counted in units, so no fractions are needed. */
module Rounding {
  import opened Common

  // ---- powers of two ----

  lemma {:induction false} Pow2Add(a: nat, b: nat)
    ensures Pow2(a + b) == Pow2(a) * Pow2(b)
  {
    if a > 0 {
      Pow2Add(a - 1, b);
      Assoc3(2, Pow2(a - 1), Pow2(b));
    }
  }

  lemma {:induction false} Pow2Monotone(a: nat, b: nat)
    requires a <= b
    ensures Pow2(a) <= Pow2(b)
  {
    if a < b {
      Pow2Monotone(a, b - 1);
    }
  }

  lemma ScaledMonotone(h: nat, a: nat, k: nat, b: nat)
    requires h <= k && a <= b
    ensures h * Pow2(a) <= k * Pow2(b)
  {
    Pow2Monotone(a, b);
    MulMonotone(Pow2(a), Pow2(b), h);
    MulMonotone(h, k, Pow2(b));
  }

  // ---- small multiplication facts ----

  lemma Assoc3(a: int, b: int, c: int)
    ensures a * b * c == a * (b * c)
  {
  }

  lemma MulNext(n: int, u: int)
    ensures (n + 1) * u == n * u + u
  {
  }

  lemma MulMonotone(a: nat, b: nat, c: nat)
    requires a <= b
    ensures a * c <= b * c && c * a <= c * b
  {
  }

  lemma MulStrict(a: nat, b: nat, c: nat)
    requires a < b && c >= 1
    ensures a * c + c <= b * c
  {
    MulMonotone(a + 1, b, c);
    MulNext(a, c);
  }

  lemma MulCancels(a: nat, b: nat, c: nat)
    requires a * c < b * c
    ensures a < b
  {
    if b <= a {
      MulMonotone(b, a, c);
    }
  }

  lemma Split(v: nat, u: nat)
    requires u >= 1
    ensures v == v / u * u + v % u && 0 <= v % u < u && v / u >= 0
  {
    assert v == u * (v / u) + v % u;
  }

  lemma QuotientBelow(v: nat, u: nat, k: nat)
    requires u >= 1 && v < k * u
    ensures v / u < k
  {
    Split(v, u);
    MulCancels(v / u, k, u);
  }

  lemma QuotientAtLeast(v: nat, u: nat, k: nat)
    requires u >= 1 && v >= k * u
    ensures v / u >= k
  {
    Split(v, u);
    MulNext(v / u, u);
    MulCancels(k, v / u + 1, u);
  }

  // ---- the value of a magnitude ----

  /** Exponent of the last fraction bit over the lowest one, which subnormals share. */
  function Shift(h: nat, mag: nat): (q: nat)
    requires h >= 1
  {
    if mag < h then 0 else ShiftOfNormal(h, mag)
  }

  function ShiftOfNormal(h: nat, mag: nat): (q: nat)
    requires 1 <= h <= mag
  {
    QuotientAtLeast(mag, h, 1);
    mag / h - 1
  }

  /** The fraction, with the hidden bit unless the exponent field is zero. */
  function Significand(h: nat, mag: nat): (n: nat)
    requires h >= 1
  {
    if mag < h then mag else h + mag % h
  }

  /** The unit of the last place in the binade `q`. */
  function Ulp(b: nat, q: nat): (u: nat)
    ensures u >= 1
  {
    Pow2(b + q)
  }

  function Units(h: nat, b: nat, mag: nat): (v: nat)
    requires h >= 1
  {
    Significand(h, mag) * Ulp(b, Shift(h, mag))
  }

  predicate IsSignificand(h: nat, q: nat, n: nat) {
    n < 2 * h && (q > 0 ==> n >= h)
  }

  lemma MagnitudeParts(h: nat, mag: nat)
    requires h >= 1
    ensures IsSignificand(h, Shift(h, mag), Significand(h, mag))
    ensures mag == Shift(h, mag) * h + Significand(h, mag)
  {
    if mag >= h {
      Split(mag, h);
      assert (mag / h - 1) * h == mag / h * h - h;
    }
  }

  lemma PartsAt(h: nat, q: nat, n: nat)
    requires h >= 1 && IsSignificand(h, q, n)
    ensures Shift(h, q * h + n) == q && Significand(h, q * h + n) == n
  {
    if n >= h {
      assert q * h + n == h * (q + 1) + (n - h);
      DivUnique(q * h + n, h, q + 1, n - h);
    }
  }

  lemma UlpDoubles(b: nat, q: nat)
    ensures Ulp(b, q + 1) == 2 * Ulp(b, q)
  {
  }

  /** A carry out of the significand lands on the next exponent with the same value. */
  lemma UnitsAt(h: nat, b: nat, q: nat, n: nat)
    requires h >= 1 && n <= 2 * h && (q > 0 ==> n >= h)
    ensures Units(h, b, q * h + n) == n * Ulp(b, q)
  {
    if n < 2 * h {
      PartsAt(h, q, n);
    } else {
      assert (q + 1) * h + h == q * h + n;
      PartsAt(h, q + 1, h);
      UlpDoubles(b, q);
      Assoc3(h, 2, Ulp(b, q));
    }
  }

  lemma NextUnits(h: nat, b: nat, mag: nat)
    requires h >= 1
    ensures Units(h, b, mag + 1) == Units(h, b, mag) + Ulp(b, Shift(h, mag))
  {
    var q, n := Shift(h, mag), Significand(h, mag);
    MagnitudeParts(h, mag);
    NextUnitsAt(h, b, q, n);
  }

  lemma NextUnitsAt(h: nat, b: nat, q: nat, n: nat)
    requires h >= 1 && IsSignificand(h, q, n)
    ensures Units(h, b, q * h + n + 1) == n * Ulp(b, q) + Ulp(b, q)
  {
    UnitsAt(h, b, q, n + 1);
    MulNext(n, Ulp(b, q));
  }

  /** The value is strictly increasing in the bit pattern. */
  lemma {:induction false} UnitsIncrease(h: nat, b: nat, x: nat, y: nat)
    requires h >= 1 && x < y
    ensures Units(h, b, x) < Units(h, b, y)
    decreases y
  {
    NextUnits(h, b, y - 1);
    if x < y - 1 {
      UnitsIncrease(h, b, x, y - 1);
    }
  }

  lemma UnitsReflect(h: nat, b: nat, x: nat, y: nat)
    requires h >= 1 && Units(h, b, x) < Units(h, b, y)
    ensures x < y
  {
    if y < x {
      UnitsIncrease(h, b, y, x);
    }
  }

  /** Different bit patterns have different values. */
  lemma UnitsInjective(h: nat, b: nat, x: nat, y: nat)
    requires h >= 1 && Units(h, b, x) == Units(h, b, y)
    ensures x == y
  {
    if x < y {
      UnitsIncrease(h, b, x, y);
    } else if y < x {
      UnitsIncrease(h, b, y, x);
    }
  }

  /** What the magnitude with exponent field `e` and no fraction is worth. */
  lemma PowerUnits(h: nat, b: nat, e: nat)
    requires h >= 1 && e >= 1
    ensures Units(h, b, e * h) == h * Pow2(b + (e - 1))
  {
    MulNext(e - 1, h);
    UnitsAt(h, b, e - 1, h);
  }

  lemma PowerUnitsGrow(h: nat, b: nat, e: nat, wideH: nat, wideB: nat, wideE: nat)
    requires 1 <= h <= wideH && e >= 1 && wideE >= 1 && b + e <= wideB + wideE
    ensures Units(h, b, e * h) <= Units(wideH, wideB, wideE * wideH)
  {
    PowerUnits(h, b, e);
    PowerUnits(wideH, wideB, wideE);
    ScaledMonotone(h, b + (e - 1), wideH, wideB + (wideE - 1));
  }

  // ---- rounding (section 4.3.1 of IEEE 754-2019) ----

  /** The least `q` with `v < limit * 2^q`. */
  function Binade(v: nat, limit: nat): (q: nat)
    requires limit >= 1
    decreases v - limit
  {
    if v < limit then 0 else 1 + Binade(v, 2 * limit)
  }

  lemma {:induction false} BinadeBounds(v: nat, limit: nat)
    requires limit >= 1
    ensures v < limit * Pow2(Binade(v, limit))
    ensures Binade(v, limit) > 0 ==> v >= limit * Pow2(Binade(v, limit) - 1)
    decreases v - limit
  {
    if v >= limit {
      BinadeBounds(v, 2 * limit);
      var q := Binade(v, 2 * limit);
      LimitDoubles(limit, q);
      if q > 0 {
        LimitDoubles(limit, q - 1);
      }
    }
  }

  lemma LimitDoubles(limit: nat, q: nat)
    ensures limit * Pow2(q + 1) == 2 * limit * Pow2(q)
  {
    Assoc3(limit, 2, Pow2(q));
  }

  /** `v / u` to the nearest integer, ties to even. */
  function NearestEven(v: nat, u: nat): (n: nat)
    requires u >= 1
  {
    Split(v, u);
    var n, r := v / u, v % u;
    if 2 * r < u || (2 * r == u && n % 2 == 0) then n else n + 1
  }

  /** The binade whose unit `v` is rounded to. */
  function RoundShift(h: nat, b: nat, v: nat): (q: nat)
    requires h >= 1
  {
    MulMonotone(1, 2 * h, Ulp(b, 0));
    Binade(v, 2 * h * Ulp(b, 0))
  }

  /** roundTiesToEven with an unbounded exponent. */
  function RoundUnbounded(h: nat, b: nat, v: nat): (mag: nat)
    requires h >= 1
  {
    var q := RoundShift(h, b, v);
    q * h + NearestEven(v, Ulp(b, q))
  }

  lemma LimitIs(h: nat, b: nat, q: nat)
    ensures 2 * h * Ulp(b, 0) * Pow2(q) == 2 * h * Ulp(b, q)
  {
    Pow2Add(b, q);
    Assoc3(2 * h, Ulp(b, 0), Pow2(q));
  }

  lemma RoundShiftBounds(h: nat, b: nat, v: nat)
    requires h >= 1
    ensures var q := RoundShift(h, b, v);
            v < 2 * h * Ulp(b, q) && (q > 0 ==> v >= h * Ulp(b, q))
  {
    var q := RoundShift(h, b, v);
    MulMonotone(1, 2 * h, Ulp(b, 0));
    BinadeBounds(v, 2 * h * Ulp(b, 0));
    LimitIs(h, b, q);
    if q > 0 {
      LimitIs(h, b, q - 1);
      UlpDoubles(b, q - 1);
      Assoc3(h, 2, Ulp(b, q - 1));
    }
  }

  /** The quotient of a value by the unit of its binade is a significand. */
  lemma QuotientIsSignificand(h: nat, b: nat, v: nat)
    requires h >= 1
    ensures var q := RoundShift(h, b, v); v / Ulp(b, q) >= 0 && IsSignificand(h, q, v / Ulp(b, q))
  {
    var q := RoundShift(h, b, v);
    RoundShiftBounds(h, b, v);
    QuotientBelow(v, Ulp(b, q), 2 * h);
    Split(v, Ulp(b, q));
    if q > 0 {
      QuotientAtLeast(v, Ulp(b, q), h);
    }
  }

  lemma EvenShift(q: nat, h: nat, n: nat)
    requires h % 2 == 0
    ensures (q * h + n) % 2 == n % 2
  {
    var k := h / 2;
    Assoc3(q, 2, k);
    assert q * h == 2 * (q * k);
    DivUnique(2 * (q * k) + n, 2, q * k + n / 2, n % 2);
  }

  /** The result is one of the two neighbours of `v`: the nearer one, the even one on a tie. */
  lemma Bracket(h: nat, b: nat, v: nat) returns (lo: nat, gap: nat, r: nat)
    requires h >= 1 && h % 2 == 0
    ensures v == Units(h, b, lo) + r && r < gap && Units(h, b, lo + 1) == Units(h, b, lo) + gap
    ensures RoundUnbounded(h, b, v) == if 2 * r < gap || (2 * r == gap && lo % 2 == 0) then lo else lo + 1
  {
    var q := RoundShift(h, b, v);
    gap := Ulp(b, q);
    Split(v, gap);
    var n := v / gap;
    r := v % gap;
    QuotientIsSignificand(h, b, v);
    lo := q * h + n;
    EvenShift(q, h, n);
    UnitsAt(h, b, q, n);
    NextUnitsAt(h, b, q, n);
  }

  function Distance(x: nat, y: nat): nat {
    if x <= y then y - x else x - y
  }

  /** No magnitude is nearer than the result, and one just as near loses only to an even result. */
  lemma RoundIsNearest(h: nat, b: nat, v: nat, k: nat)
    requires h >= 1 && h % 2 == 0
    ensures var x := RoundUnbounded(h, b, v);
            && Distance(Units(h, b, x), v) <= Distance(Units(h, b, k), v)
            && (k != x && Distance(Units(h, b, x), v) == Distance(Units(h, b, k), v) ==> x % 2 == 0)
  {
    var lo, gap, r := Bracket(h, b, v);
    if k < lo {
      UnitsIncrease(h, b, k, lo);
    } else if k > lo + 1 {
      UnitsIncrease(h, b, lo + 1, k);
    }
    NearestOfTwo(lo, Units(h, b, lo), gap, r, RoundUnbounded(h, b, v), k, Units(h, b, k));
  }

  /** The choice between the neighbours `lo` at `u` and `lo + 1` at `u + gap`, against any magnitude
      `k` at `w`. */
  lemma NearestOfTwo(lo: nat, u: nat, gap: nat, r: nat, x: nat, k: nat, w: nat)
    requires r < gap && x == if 2 * r < gap || (2 * r == gap && lo % 2 == 0) then lo else lo + 1
    requires k < lo ==> w < u
    requires k == lo ==> w == u
    requires k == lo + 1 ==> w == u + gap
    requires k > lo + 1 ==> w > u + gap
    ensures var at := if x == lo then u else u + gap;
            && Distance(at, u + r) <= Distance(w, u + r)
            && (k != x && Distance(at, u + r) == Distance(w, u + r) ==> x % 2 == 0)
  {
  }

  /** What rounds to an odd magnitude or a smaller one is below the middle between it and the next. */
  lemma RoundsBelow(h: nat, b: nat, top: nat, v: nat)
    requires h >= 1 && h % 2 == 0 && top % 2 == 1
    ensures RoundUnbounded(h, b, v) <= top <==> 2 * v < Units(h, b, top) + Units(h, b, top + 1)
  {
    var lo, gap, r := Bracket(h, b, v);
    UnitsIncrease(h, b, top, top + 1);
    if lo < top {
      AtMost(h, b, lo + 1, top);
    } else if lo > top {
      AtMost(h, b, top + 1, lo);
    }
  }

  lemma AtMost(h: nat, b: nat, x: nat, y: nat)
    requires h >= 1 && x <= y
    ensures Units(h, b, x) <= Units(h, b, y)
  {
    if x < y {
      UnitsIncrease(h, b, x, y);
    }
  }

  /** A value that some magnitude has rounds to that magnitude. */
  lemma RoundExact(h: nat, b: nat, mag: nat)
    requires h >= 1 && h % 2 == 0
    ensures RoundUnbounded(h, b, Units(h, b, mag)) == mag
  {
    var v := Units(h, b, mag);
    RoundIsNearest(h, b, v, mag);
    UnitsInjective(h, b, RoundUnbounded(h, b, v), mag);
  }

  // ---- exact conversion ----

  /** `n * 2^t` with `n` no longer than the significand and `t` no lower than the base is held
      exactly. */
  lemma Representable(h: nat, b: nat, n: nat, t: nat) returns (mag: nat)
    requires h >= 1 && n < 2 * h && t >= b
    ensures Units(h, b, mag) == n * Pow2(t)
    decreases t
  {
    if n >= h || t == b {
      mag := (t - b) * h + n;
      UnitsAt(h, b, t - b, n);
    } else {
      Assoc3(n, 2, Pow2(t - 1));
      mag := Representable(h, b, 2 * n, t - 1);
    }
  }

  /** Every value of one format is a value of another with at least as many fraction bits and at
      least as low a base. */
  lemma HeldExactly(h: nat, b: nat, mag: nat, wideH: nat, wideB: nat) returns (wide: nat)
    requires 1 <= h <= wideH && wideB <= b && wideH % 2 == 0
    ensures Units(wideH, wideB, wide) == Units(h, b, mag)
    ensures RoundUnbounded(wideH, wideB, Units(h, b, mag)) == wide
  {
    MagnitudeParts(h, mag);
    wide := Representable(wideH, wideB, Significand(h, mag), b + Shift(h, mag));
    RoundExact(wideH, wideB, wide);
  }

  // ---- how much rounding loses ----

  /** A value less than half a unit above a magnitude rounds to it. */
  lemma RoundsBack(h: nat, b: nat, mag: nat, d: nat)
    requires h >= 1 && h % 2 == 0 && 2 * d < Ulp(b, Shift(h, mag))
    ensures RoundUnbounded(h, b, Units(h, b, mag) + d) == mag
  {
    var v := Units(h, b, mag) + d;
    var lo, gap, r := Bracket(h, b, v);
    NextUnits(h, b, mag);
    if lo < mag {
      if lo + 1 < mag {
        UnitsIncrease(h, b, lo + 1, mag);
      }
      assert false;
    } else if mag < lo {
      if mag + 1 < lo {
        UnitsIncrease(h, b, mag + 1, lo);
      }
      assert false;
    }
  }

  /** A normal magnitude held in a format with `k` more fraction bits: the patterns less than half a
      narrow step above it all round back to it. */
  lemma FinerNeighbours(h: nat, b: nat, mag: nat, wideH: nat, wideB: nat, k: nat, j: nat)
    returns (wide: nat, d: nat)
    requires 1 <= h <= mag && h % 2 == 0 && wideH == Pow2(k) * h && wideB + k <= b
    requires 2 * j < Pow2(k)
    ensures Units(wideH, wideB, wide) == Units(h, b, mag)
    ensures Units(wideH, wideB, wide + j) == Units(h, b, mag) + d && d < Ulp(b, Shift(h, mag))
    ensures RoundUnbounded(h, b, Units(wideH, wideB, wide + j)) == mag
  {
    var g, q, n := Pow2(k), Shift(h, mag), Significand(h, mag);
    MagnitudeParts(h, mag);
    var wideQ := b + q - wideB - k;
    Pow2Add(k, wideB + wideQ);
    var u := Ulp(wideB, wideQ);
    FinerSignificand(h, g, n);
    wide := wideQ * wideH + g * n;
    d := j * u;
    UnitsAt(wideH, wideB, wideQ, g * n);
    UnitsAt(wideH, wideB, wideQ, g * n + j);
    FinerUnits(g, n, j, u);
    RoundsBack(h, b, mag, d);
  }

  lemma FinerSignificand(h: nat, g: nat, n: nat)
    requires h <= n < 2 * h && g >= 1
    ensures g * h <= g * n && g * n + g <= 2 * (g * h)
  {
    MulMonotone(h, n, g);
    MulStrict(n, 2 * h, g);
  }

  lemma FinerUnits(g: nat, n: nat, j: nat, u: nat)
    requires u >= 1 && 2 * j < g
    ensures g * n * u == n * (g * u) && (g * n + j) * u == n * (g * u) + j * u
    ensures 2 * (j * u) < g * u
  {
    MulStrict(2 * j, g, u);
    assert (g * n + j) * u == g * n * u + j * u;
    assert g * n * u == n * (g * u);
  }
}
