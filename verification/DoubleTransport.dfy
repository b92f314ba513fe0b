/**
  The number path of execForNumber: a 64-bit SQL integer is read as a double (round to nearest, ties
  to even, section 4.3.1 of IEEE 754) and read back with the saturating Double.longValue().  Doubles
  are real numbers here; their exponents are not bounded, as no 64-bit integer comes near the bounds.
 */
module DoubleTransport {
  import opened JavaTypes
  import opened Options

  const TWO_TO_52: int := 0x10_0000_0000_0000
  const TWO_TO_53: int := 0x20_0000_0000_0000

  function Abs(n: int): nat {
    if n < 0 then -n else n
  }

  function Pow2(e: nat): nat {
    if e == 0 then 1 else 2 * Pow2(e - 1)
  }

  // ---------------------------------------------------------------- integer-valued doubles

  /** `d` is the double with significand `q` (at most 53 bits) and exponent `e`. */
  ghost predicate HasForm(d: int, q: nat, e: nat) {
    q < TWO_TO_53 && Abs(d) == q * Pow2(e)
  }

  ghost predicate Representable(d: int) {
    exists q: nat, e: nat :: HasForm(d, q, e)
  }

  /** `d` is the double with significand `q` and exponent `-e`. */
  ghost predicate HasFraction(d: real, q: int, e: nat) {
    Abs(q) < TWO_TO_53 && e >= 1 && d * Pow2(e) as real == q as real
  }

  ghost predicate IsDouble(d: real) {
    || (exists n: int :: Representable(n) && d == n as real)
    || (exists q: int, e: nat :: HasFraction(d, q, e))
  }

  /** A double holds `n`: no bit of it is below the last of 53. */
  predicate FitsDouble(n: int) {
    Pow2Positive(Exponent(Abs(n)));
    Abs(n) % Pow2(Exponent(Abs(n))) == 0
  }

  function AbsReal(x: real): real {
    if x < 0.0 then -x else x
  }

  /** `d` is a double whose full 53-bit significand ends in a zero bit. */
  ghost predicate EvenSignificand(d: int) {
    exists q: nat, e: nat :: HasForm(d, q, e) && TWO_TO_52 <= q && q % 2 == 0
  }

  // ---------------------------------------------------------------- conversion

  /** The exponent that leaves a significand of at most 53 bits. */
  function Exponent(m: nat): nat {
    if m < TWO_TO_53 then 0 else 1 + Exponent(m / 2)
  }

  function RoundMagnitude(m: nat): nat {
    var unit := Pow2(Exponent(m));
    Pow2Positive(Exponent(m));
    var q, r := m / unit, m % unit;
    if 2 * r < unit || (2 * r == unit && q % 2 == 0) then q * unit else (q + 1) * unit
  }

  function ToDouble(n: int): int {
    if n < 0 then -(RoundMagnitude(-n) as int) else RoundMagnitude(n)
  }

  /** Double.longValue() of an integer-valued double. */
  function LongValue(d: int): Long {
    if d < MIN_LONG then MIN_LONG else if d > MAX_LONG then MAX_LONG else d
  }

  /** Double.longValue(): the fraction is dropped, and what is too large saturates. */
  function LongOf(d: real): (n: Long)
    ensures MIN_LONG as real <= d <= MAX_LONG as real ==> AbsReal(n as real) <= AbsReal(d) < AbsReal(n as real) + 1.0
    ensures (d >= 0.0 ==> n >= 0) && (d <= 0.0 ==> n <= 0)
    ensures (d > MAX_LONG as real ==> n == MAX_LONG) && (d < MIN_LONG as real ==> n == MIN_LONG)
  {
    LongValue(if d < 0.0 then -((-d).Floor) else d.Floor)
  }

  /** The first column of a row: an INTEGER, or anything else with the double the library makes of it. */
  datatype Column = IntegerColumn(n: Long) | OtherColumn(asDouble: real)

  /** A column read as double through nativeExecForDouble; the value is 0 when no row comes. */
  method NativeExecForDouble(prepared: bool, hasSql: bool, firstRow: Option<Column>) returns (thrown: bool, value: real)
    ensures thrown <==> !prepared
    ensures !(prepared && hasSql && firstRow.Some?) ==> value == 0.0
    ensures prepared && hasSql && firstRow.Some? ==>
              match firstRow.value
              case IntegerColumn(n) =>
                && IsDouble(value)
                && (forall d :: IsDouble(d) ==> AbsReal(value - n as real) <= AbsReal(d - n as real))
                && (forall d :: IsDouble(d) && d != value && AbsReal(value - n as real) == AbsReal(d - n as real) ==>
                      EvenSignificand(value.Floor))
                && Abs(LongOf(value) - n) <= 512
                && (LongOf(value) == n <==> FitsDouble(n) || n == MAX_LONG)
              case OtherColumn(d) => value == d
  {
    thrown := false;
    var stmtIsNull := !prepared || !hasSql;
    if !prepared {
      thrown := true;
    }
    value := 0.0;
    if !stmtIsNull && firstRow.Some? {
      match firstRow.value {
        case IntegerColumn(n) =>
          value := ToDouble(n) as real;
          NumberErrorBound(n);
          NumberExact(n);
          forall d | IsDouble(d) {
            ToDoubleIsNearestEven(n, d);
          }
          assert HasForm(0, 0, 0) && Representable(0) && IsDouble(0 as real);
          ToDoubleIsNearestEven(n, 0 as real);
        case OtherColumn(d) => value := d;
      }
    }
  }

  // ---------------------------------------------------------------- powers of two

  lemma Pow2Positive(e: nat)
    ensures Pow2(e) >= 1
  {
  }

  lemma {:induction false} Pow2Split(a: nat, b: nat)
    requires a <= b
    ensures Pow2(b) == Pow2(b - a) * Pow2(a)
  {
    if a == b {
    } else {
      Pow2Split(a, b - 1);
    }
  }

  lemma {:induction false} ExponentBounds(m: nat)
    ensures m < TWO_TO_53 * Pow2(Exponent(m))
    ensures m >= TWO_TO_53 ==> TWO_TO_52 * Pow2(Exponent(m)) <= m
  {
    if m < TWO_TO_53 {
    } else {
      ExponentBounds(m / 2);
    }
  }

  /** 64-bit magnitudes lose at most eleven bits, and only 2^63 itself needs all eleven. */
  lemma ExponentOfLong(m: nat)
    requires m <= 0x8000_0000_0000_0000
    ensures Pow2(Exponent(m)) <= 0x400 || m == 0x8000_0000_0000_0000
    ensures m == 0x8000_0000_0000_0000 ==> RoundMagnitude(m) == m
  {
    ExponentBounds(m);
    var e := Exponent(m);
    assert Pow2(11) == 0x800 by { Pow2Split(6, 11); }
    if e >= 11 {
      Pow2Split(11, e);
      Pow2Positive(e - 11);
      MulAtLeast(Pow2(e - 11), 0x800);
      assert m >= TWO_TO_52 * 0x800;
      assert Pow2(e) < 0x1000;
      assert Pow2(e - 11) == 1;
      assert Pow2(e) == 0x800;
    } else {
      Pow2Split(e, 10);
      Pow2Positive(10 - e);
      MulAtLeast(Pow2(10 - e), Pow2(e));
      assert Pow2(10) == 0x400;
    }
  }

  lemma MulAtLeast(a: nat, b: nat)
    requires a >= 1
    ensures a * b >= b
  {
  }

  // ---------------------------------------------------------------- rounding is to nearest

  /** No double lies strictly between consecutive multiples of a unit once the significand is full. */
  lemma NoDoubleBetween(q: nat, k: nat, d: nat)
    requires TWO_TO_52 <= q && Representable(d)
    ensures d <= q * Pow2(k) || d >= (q + 1) * Pow2(k)
  {
    var j: nat, e: nat :| HasForm(d, j, e);
    if e >= k {
      Pow2Split(k, e);
      var t := j * Pow2(e - k);
      assert d == t * Pow2(k) by { MulAssociative(j, Pow2(e - k), Pow2(k)); }
      if t <= q { MulMonotone(t, q, Pow2(k)); } else { MulMonotone(q + 1, t, Pow2(k)); }
    } else {
      Pow2Split(e + 1, k);
      Pow2Positive(k - e - 1);
      MulAtLeast(Pow2(k - e - 1), Pow2(e + 1));
      assert 2 * Pow2(e) <= Pow2(k);
      MulMonotone(j, TWO_TO_53, Pow2(e));
      MulMonotone(TWO_TO_52, q, Pow2(k));
    }
  }

  lemma QuotientAtLeast(m: nat, unit: nat, k: nat)
    requires unit >= 1 && k * unit <= m
    ensures k <= m / unit && m == m / unit * unit + m % unit
  {
    if m / unit < k {
      MulMonotone(m / unit + 1, k, unit);
      assert false;
    }
  }

  lemma MulMonotone(a: nat, b: nat, c: nat)
    requires a <= b
    ensures a * c <= b * c
  {
  }

  lemma MulAssociative(a: nat, b: nat, c: nat)
    ensures a * (b * c) == a * b * c
  {
  }

  lemma SmallIsExact(m: nat)
    requires m < TWO_TO_53
    ensures RoundMagnitude(m) == m && HasForm(m, m, 0)
  {
  }

  lemma FormOf(q: nat, e: nat)
    requires q < TWO_TO_53
    ensures Representable(q * Pow2(e))
    ensures TWO_TO_52 <= q && q % 2 == 0 ==> EvenSignificand(q * Pow2(e))
  {
    MulMonotone(0, q, Pow2(e));
    assert HasForm(q * Pow2(e), q, e);
  }

  lemma CarriedForm(k: nat)
    ensures Representable(TWO_TO_53 * Pow2(k)) && EvenSignificand(TWO_TO_53 * Pow2(k))
  {
    FormOf(TWO_TO_52, k + 1);
    assert TWO_TO_53 * Pow2(k) == TWO_TO_52 * Pow2(k + 1);
  }

  /** Multiples of a power of two with a full significand, or one above it, are doubles. */
  lemma MultipleForm(q: nat, k: nat)
    requires TWO_TO_52 <= q <= TWO_TO_53
    ensures Representable(q * Pow2(k))
    ensures q % 2 == 0 ==> EvenSignificand(q * Pow2(k))
  {
    if q == TWO_TO_53 {
      CarriedForm(k);
    } else {
      FormOf(q, k);
    }
  }

  /** A large `m` as significand and rest, and which of its two neighbours it is rounded to. */
  lemma Significand(m: nat) returns (q: nat, r: nat, lo: nat)
    requires m >= TWO_TO_53
    ensures var unit := Pow2(Exponent(m));
            && TWO_TO_52 <= q < TWO_TO_53
            && lo == q * unit && m == lo + r && r < unit && r == m % unit
            && RoundMagnitude(m) == if 2 * r < unit || (2 * r == unit && q % 2 == 0) then lo else lo + unit
  {
    var unit := Pow2(Exponent(m));
    Pow2Positive(Exponent(m));
    ExponentBounds(m);
    QuotientAtLeast(m, unit, TWO_TO_52);
    QuotientBelow(m, unit, TWO_TO_53);
    q, r := m / unit, m % unit;
    MulMonotone(0, q, unit);
    lo := q * unit;
    NextMultiple(q, unit);
  }

  lemma QuotientBelow(m: nat, unit: nat, k: nat)
    requires unit >= 1 && m < k * unit
    ensures m / unit < k
  {
    if m / unit >= k {
      MulMonotone(k, m / unit, unit);
    }
  }

  /** Between `lo` and the next double `hi`, going to the nearer one beats every double. */
  lemma NearerOfTwo(lo: nat, hi: nat, r: nat, toLo: bool, d: nat)
    requires r < hi - lo && (d <= lo || d >= hi)
    requires toLo ==> 2 * r <= hi - lo
    requires !toLo ==> 2 * r >= hi - lo
    ensures var m, x := lo + r, if toLo then lo else hi;
            && Abs(x - m) <= Abs(d - m)
            && 2 * Abs(x - m) <= hi - lo
            && (d != x && Abs(x - m) == Abs(d - m) ==> 2 * r == hi - lo)
  {
  }

  lemma NextMultiple(q: nat, unit: nat)
    ensures (q + 1) * unit == q * unit + unit
  {
  }

  lemma UpperNeighbour(q: nat, k: nat, lo: nat)
    requires TWO_TO_52 <= q < TWO_TO_53 && lo == q * Pow2(k)
    ensures Representable(lo + Pow2(k))
    ensures q % 2 == 1 ==> EvenSignificand(lo + Pow2(k))
  {
    var next := q + 1;
    assert lo + Pow2(k) == next * Pow2(k) by { NextMultiple(q, Pow2(k)); }
    assert next % 2 == 1 - q % 2;
    MultipleForm(next, k);
  }

  lemma GapAbove(q: nat, k: nat, lo: nat, d: nat)
    requires TWO_TO_52 <= q && lo == q * Pow2(k) && Representable(d)
    ensures d <= lo || d >= lo + Pow2(k)
  {
    NextMultiple(q, Pow2(k));
    NoDoubleBetween(q, k, d);
  }

  /** The multiples around: doubles, one of them even, and no double `d` strictly between. */
  lemma Neighbours(q: nat, k: nat, lo: nat, d: nat)
    requires TWO_TO_52 <= q < TWO_TO_53 && lo == q * Pow2(k) && Representable(d)
    ensures Representable(lo) && Representable(lo + Pow2(k))
    ensures q % 2 == 0 ==> EvenSignificand(lo)
    ensures q % 2 == 1 ==> EvenSignificand(lo + Pow2(k))
    ensures d <= lo || d >= lo + Pow2(k)
  {
    MultipleForm(q, k);
    UpperNeighbour(q, k, lo);
    GapAbove(q, k, lo, d);
  }

  lemma RoundMagnitudeLarge(m: nat, d: nat)
    requires m >= TWO_TO_53 && Representable(d)
    ensures Representable(RoundMagnitude(m))
    ensures Abs(RoundMagnitude(m) - m) <= Abs(d - m)
    ensures d != RoundMagnitude(m) && Abs(RoundMagnitude(m) - m) == Abs(d - m) ==> EvenSignificand(RoundMagnitude(m))
    ensures 2 * Abs(RoundMagnitude(m) - m) <= Pow2(Exponent(m))
  {
    var unit := Pow2(Exponent(m));
    var q, r, lo := Significand(m);
    Neighbours(q, Exponent(m), lo, d);
    NearerOfTwo(lo, lo + unit, r, 2 * r < unit || (2 * r == unit && q % 2 == 0), d);
  }

  lemma RoundMagnitudeNearest(m: nat, d: nat)
    requires Representable(d)
    ensures Representable(RoundMagnitude(m))
    ensures Abs(RoundMagnitude(m) - m) <= Abs(d - m)
    ensures d != RoundMagnitude(m) && Abs(RoundMagnitude(m) - m) == Abs(d - m) ==> EvenSignificand(RoundMagnitude(m))
    ensures 2 * Abs(RoundMagnitude(m) - m) <= Pow2(Exponent(m))
  {
    if m < TWO_TO_53 {
      SmallIsExact(m);
    } else {
      RoundMagnitudeLarge(m, d);
    }
  }

  /** Among integers: the nearest double, and on a tie the one with an even significand. */
  lemma NearestInteger(n: int, d: int)
    requires Representable(d)
    ensures Representable(ToDouble(n))
    ensures Abs(ToDouble(n) - n) <= Abs(d - n)
    ensures d != ToDouble(n) && Abs(ToDouble(n) - n) == Abs(d - n) ==> EvenSignificand(ToDouble(n))
  {
    var m := Abs(n);
    var x := RoundMagnitude(m);
    var s := if n < 0 then -d else d;
    var q: nat, e: nat :| HasForm(d, q, e);
    assert HasForm(Abs(d), q, e);
    RoundMagnitudeNearest(m, Abs(d));
    Negatable(x);
    if s < 0 {
      assert HasForm(0, 0, 0);
      RoundMagnitudeNearest(m, 0);
    }
  }

  lemma ExactTo53Bits(n: int)
    requires Abs(n) <= TWO_TO_53
    ensures ToDouble(n) == n
  {
    var m := Abs(n);
    if m < TWO_TO_53 {
      SmallIsExact(m);
    } else {
      assert HasForm(m, TWO_TO_52, 1);
      RoundMagnitudeNearest(m, m);
    }
  }

  /** A double with a negative exponent is below 2^52 in magnitude. */
  lemma FractionIsSmall(d: real, q: int, e: nat)
    requires HasFraction(d, q, e)
    ensures AbsReal(d) < TWO_TO_52 as real
  {
    Pow2Positive(e - 1);
    ScaledIsSmaller(AbsReal(d), Pow2(e) as real);
    if d < 0.0 { NegatedProduct(d, Pow2(e) as real); }
  }

  lemma NegatedProduct(d: real, p: real)
    ensures -d * p == -(d * p)
  {
  }

  lemma ScaledIsSmaller(d: real, p: real)
    requires d >= 0.0 && p >= 2.0
    ensures 2.0 * d <= d * p
  {
  }

  /** Beyond 2^53 every fraction is farther away than 2^52, which is no nearer than the rounded value. */
  lemma FractionIsFarther(n: int, d: real)
    requires Abs(n) > TWO_TO_53 && AbsReal(d) < TWO_TO_52 as real
    ensures AbsReal((ToDouble(n) - n) as real) < AbsReal(d - n as real)
  {
    var bound := if n < 0 then -TWO_TO_52 else TWO_TO_52;
    assert HasForm(bound, TWO_TO_52, 0);
    NearestInteger(n, bound);
  }

  lemma NearestFraction(n: int, d: real)
    requires AbsReal(d) < TWO_TO_52 as real
    ensures AbsReal((ToDouble(n) - n) as real) <= AbsReal(d - n as real)
    ensures AbsReal((ToDouble(n) - n) as real) == AbsReal(d - n as real) ==> d == ToDouble(n) as real
  {
    if Abs(n) <= TWO_TO_53 {
      ExactTo53Bits(n);
    } else {
      FractionIsFarther(n, d);
    }
  }

  /** ToDouble is the IEEE conversion: no double, integer or not, is nearer, and on a tie the significand is even. */
  lemma ToDoubleIsNearestEven(n: int, d: real)
    requires IsDouble(d)
    ensures Representable(ToDouble(n))
    ensures AbsReal((ToDouble(n) - n) as real) <= AbsReal(d - n as real)
    ensures d != ToDouble(n) as real && AbsReal((ToDouble(n) - n) as real) == AbsReal(d - n as real) ==>
              EvenSignificand(ToDouble(n))
  {
    assert HasForm(0, 0, 0);
    NearestInteger(n, 0);
    if k: int :| Representable(k) && d == k as real {
      NearestInteger(n, k);
    } else {
      var q: int, e: nat :| HasFraction(d, q, e);
      FractionIsSmall(d, q, e);
      NearestFraction(n, d);
    }
  }

  lemma Negatable(d: int)
    ensures Representable(d) <==> Representable(-d)
    ensures EvenSignificand(d) ==> EvenSignificand(-d)
  {
    var negated := -d;
    assert forall q: nat, e: nat :: HasForm(d, q, e) <==> HasForm(negated, q, e);
  }

  // ---------------------------------------------------------------- what execForNumber delivers

  /** Exact up to 2^53 in magnitude, off by at most 512 everywhere else. */
  lemma NumberErrorBound(n: Long)
    ensures Abs(n) <= TWO_TO_53 ==> LongValue(ToDouble(n)) == n
    ensures Abs(LongValue(ToDouble(n)) - n) <= 512
  {
    var m := Abs(n);
    assert HasForm(0, 0, 0);
    RoundMagnitudeNearest(m, 0);
    ExponentOfLong(m);
    if m <= TWO_TO_53 {
      ExactTo53Bits(n);
    }
  }

  /** The integers among the doubles are those whose bits below the last of 53 are zero. */
  lemma FitsDoubleIsRepresentable(n: int)
    ensures FitsDouble(n) <==> Representable(n)
  {
    var m := Abs(n);
    if m < TWO_TO_53 {
      assert HasForm(n, m, 0);
    } else {
      var q, r, lo := Significand(m);
      var unit := Pow2(Exponent(m));
      if Representable(n) {
        var j: nat, e: nat :| HasForm(n, j, e);
        assert HasForm(m, j, e);
        GapAbove(q, Exponent(m), lo, m);
      } else if r == 0 {
        assert HasForm(n, q, Exponent(m));
      }
    }
  }

  /** Exactly which integers survive: those a double can hold, and Long.MAX_VALUE by saturation. */
  lemma NumberExact(n: Long)
    ensures LongValue(ToDouble(n)) == n <==> FitsDouble(n) || n == MAX_LONG
  {
    FitsDoubleIsRepresentable(n);
    assert HasForm(0, 0, 0);
    NearestInteger(n, 0);
    if Representable(n) {
      NearestInteger(n, n);
    }
    if n == MAX_LONG {
      MaxLongRoundsUp();
    }
    if ToDouble(n) < MIN_LONG {
      assert Pow2(11) == 0x800 by { Pow2Split(6, 11); }
      assert HasForm(MIN_LONG, TWO_TO_52, 11);
      NearestInteger(n, MIN_LONG);
    }
  }

  lemma MaxLongRoundsUp()
    ensures ToDouble(MAX_LONG) > MAX_LONG
  {
    var top := 0x8000_0000_0000_0000;
    assert Pow2(11) == 0x800 by { Pow2Split(6, 11); }
    assert HasForm(top, TWO_TO_52, 11);
    NearestInteger(MAX_LONG, top);
    if ToDouble(MAX_LONG) < top {
      NoDoubleJustBelowTop(ToDouble(MAX_LONG));
    }
  }

  lemma NoDoubleJustBelowTop(d: int)
    requires Representable(d) && d < 0x8000_0000_0000_0000
    ensures d <= 0x7FFF_FFFF_FFFF_FC00
  {
    if d > 0 {
      assert Pow2(10) == 0x400 by { Pow2Split(5, 10); }
      NoDoubleBetween(TWO_TO_53 - 1, 10, d);
    }
  }

  /** The conversion never reverses the order of two integers. */
  lemma NumberOrderKept(a: Long, b: Long)
    requires a <= b
    ensures LongValue(ToDouble(a)) <= LongValue(ToDouble(b))
  {
    assert HasForm(0, 0, 0);
    NearestInteger(a, 0);
    NearestInteger(b, 0);
    NearestInteger(a, ToDouble(b));
    NearestInteger(b, ToDouble(a));
  }
}
