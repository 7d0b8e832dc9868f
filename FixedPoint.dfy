/** The 8.8 fixed-point numbers of src/fixed-point.hpp: a signed 16-bit
    `value` whose high byte is the signed whole part and whose low byte is
    the unsigned fraction (in 256ths). */
module FixedPoint {
  import opened Common

  datatype Fixed = Fixed(value: s16)

  const Zero := Fixed(0)

  /** The high byte, read as int8_t: the floor of value / 256. */
  function Whole(x: Fixed): (w: s8)
    ensures w * 256 <= x.value < w * 256 + 256
  {
    x.value / 256
  }

  /** The low byte, read as uint8_t. */
  function Frac(x: Fixed): (f: u8)
    ensures x.value == Whole(x) * 256 + f
  {
    x.value % 256
  }

  /** fixed_point(w, f): the two bytes written separately
      (fixed-point.hpp:16). */
  function FromParts(w: s8, f: u8): (x: Fixed)
    ensures Whole(x) == w && Frac(x) == f
  {
    Fixed(w * 256 + f)
  }

  /** A number is determined by its two bytes. */
  lemma PartsRoundTrip(x: Fixed)
    ensures FromParts(Whole(x), Frac(x)) == x
  {
  }

  /** operator+ and operator-: int arithmetic on the values, truncated back
      to int16_t (fixed-point.hpp:18-23). */
  function Add(a: Fixed, b: Fixed): (r: Fixed)
    ensures (r.value - (a.value + b.value)) % 0x1_0000 == 0
  {
    Fixed(ToS16(a.value + b.value))
  }

  function Sub(a: Fixed, b: Fixed): (r: Fixed)
    ensures (r.value - (a.value - b.value)) % 0x1_0000 == 0
  {
    Fixed(ToS16(a.value - b.value))
  }

  /** Unary minus is 0 - x (fixed-point.hpp:24). */
  function Neg(x: Fixed): (r: Fixed)
    ensures (r.value + x.value) % 0x1_0000 == 0
  {
    Sub(Zero, x)
  }

  /** Two int16_t values congruent modulo 2^16 are equal. */
  lemma Congruent(a: s16, b: s16)
    requires (a - b) % 0x1_0000 == 0
    ensures a == b
  {
  }

  lemma SubSelf(x: Fixed)
    ensures Sub(x, x) == Zero
  {
  }

  lemma AddCommutes(a: Fixed, b: Fixed)
    ensures Add(a, b) == Add(b, a)
  {
  }

  /** Subtracting what was added gives back the original, wrap-around
      included. */
  lemma SubAdd(a: Fixed, b: Fixed)
    ensures Sub(Add(a, b), b) == a
  {
    var s := Add(a, b);
    var r := Sub(s, b);
    assert (r.value - a.value) % 0x1_0000 == 0 by {
      assert (s.value - (a.value + b.value)) % 0x1_0000 == 0;
      assert (r.value - (s.value - b.value)) % 0x1_0000 == 0;
      ModSum(r.value - (s.value - b.value), s.value - (a.value + b.value));
    }
    Congruent(r.value, a.value);
  }

  lemma AddAssociates(a: Fixed, b: Fixed, c: Fixed)
    ensures Add(Add(a, b), c) == Add(a, Add(b, c))
  {
    AddLeft(a, b, c);
    AddRight(a, b, c);
  }

  lemma AddLeft(a: Fixed, b: Fixed, c: Fixed)
    ensures Add(Add(a, b), c).value == ToS16(a.value + b.value + c.value)
  {
    ToS16Inner(a.value + b.value, c.value);
  }

  lemma AddRight(a: Fixed, b: Fixed, c: Fixed)
    ensures Add(a, Add(b, c)).value == ToS16(a.value + b.value + c.value)
  {
    ToS16Inner(b.value + c.value, a.value);
    assert ToS16(b.value + c.value) + a.value == a.value + ToS16(b.value + c.value);
  }

  /** Truncating an intermediate sum to 16 bits does not change the
      truncated total. */
  lemma ToS16Inner(x: int, y: int)
    ensures ToS16(ToS16(x) + y) == ToS16(x + y)
  {
    ToS16Canon(ToS16(x) + y, x + y);
  }

  lemma ToS16Canon(x: int, y: int)
    requires (x - y) % 0x1_0000 == 0
    ensures ToS16(x) == ToS16(y)
  {
    var k := (x - y) / 0x1_0000;
    assert x == y + k * 0x1_0000;
    ModShift(y, k);
  }

  lemma ModShift(y: int, k: int)
    ensures (y + k * 0x1_0000) % 0x1_0000 == y % 0x1_0000
  {
  }

  lemma NegNeg(x: Fixed)
    ensures Neg(Neg(x)) == x
  {
    var n := Neg(x);
    var nn := Neg(n);
    assert (nn.value - x.value) % 0x1_0000 == 0 by {
      ModDiff(nn.value + n.value, n.value + x.value);
    }
    Congruent(nn.value, x.value);
  }

  lemma ModSum(a: int, b: int)
    requires a % 0x1_0000 == 0 && b % 0x1_0000 == 0
    ensures (a + b) % 0x1_0000 == 0
  {
  }

  lemma ModDiff(a: int, b: int)
    requires a % 0x1_0000 == 0 && b % 0x1_0000 == 0
    ensures (a - b) % 0x1_0000 == 0
  {
  }

  /** operator* by a uint8_t: the int product truncated to int16_t
      (fixed-point.hpp:25-27). */
  function MulU8(x: Fixed, rhs: u8): (r: Fixed)
    ensures (r.value - x.value * rhs) % 0x1_0000 == 0
  {
    Fixed(ToS16(x.value * rhs))
  }

  /** C's int division, which truncates toward zero. */
  function CDiv(a: int, b: int): int
    requires b > 0
  {
    if a >= 0 then a / b else -((-a) / b)
  }

  /** operator/ by a uint8_t: C division of the value, rounding toward zero
      (fixed-point.hpp:28-30). Division by zero is undefined in C. */
  function DivU8(x: Fixed, rhs: u8): (r: Fixed)
    requires rhs > 0
    ensures x.value >= 0 ==> 0 <= r.value * rhs <= x.value < r.value * rhs + rhs
    ensures x.value < 0 ==> r.value * rhs - rhs < x.value <= r.value * rhs <= 0
  {
    var q := CDiv(x.value, rhs);
    DivBounds(x.value, rhs);
    Fixed(q)
  }

  lemma DivBounds(a: s16, b: u8)
    requires b > 0
    ensures -0x8000 <= CDiv(a, b) < 0x8000
    ensures a >= 0 ==> 0 <= CDiv(a, b) * b <= a < CDiv(a, b) * b + b
    ensures a < 0 ==> CDiv(a, b) * b - b < a <= CDiv(a, b) * b <= 0
  {
    if a < 0 {
      DivNonNegative(-(a as int), b);
      var q := (-(a as int)) / b;
      assert CDiv(a, b) * b == -(q * b) by { NegMul(q, b); }
    } else {
      DivNonNegative(a, b);
    }
  }

  lemma DivNonNegative(a: int, b: int)
    requires a >= 0 && b > 0
    ensures 0 <= a / b <= a
    ensures 0 <= (a / b) * b <= a < (a / b) * b + b
  {
    var q := a / b;
    var r := a % b;
    assert a == q * b + r;
    assert q >= 0;
    assert q <= q * b by { MulAtLeast(q, b); }
  }

  lemma MulAtLeast(q: nat, b: int)
    requires b >= 1
    ensures q <= q * b
  {
  }

  lemma NegMul(q: int, b: int)
    ensures (-q) * b == -(q * b)
  {
  }

  /** The comparisons (fixed-point.hpp:39-55): == and < on the values;
      >, <= and >= are derived from <. */
  predicate Eq(a: Fixed, b: Fixed) { a.value == b.value }
  predicate NotEq(a: Fixed, b: Fixed) { !Eq(a, b) }
  predicate Less(a: Fixed, b: Fixed) { a.value < b.value }
  predicate Greater(a: Fixed, b: Fixed) { Less(b, a) }
  predicate LessEq(a: Fixed, b: Fixed) { !Greater(a, b) }
  predicate GreaterEq(a: Fixed, b: Fixed) { !Less(a, b) }

  /** The derived comparisons are the integer order on the values, so they
      agree with each other: exactly one of <, ==, > holds. */
  lemma ComparisonsAreIntegerOrder(a: Fixed, b: Fixed)
    ensures Greater(a, b) <==> a.value > b.value
    ensures LessEq(a, b) <==> a.value <= b.value
    ensures GreaterEq(a, b) <==> a.value >= b.value
    ensures NotEq(a, b) <==> a != b
    ensures (Less(a, b) && !Eq(a, b) && !Greater(a, b))
         || (!Less(a, b) && Eq(a, b) && !Greater(a, b))
         || (!Less(a, b) && !Eq(a, b) && Greater(a, b))
  {
  }

  /** round() (fixed-point.hpp:57-71). The result of whole +/- 1 is
      converted back to int8_t. */
  function Round(x: Fixed): (r: s8)
    ensures Frac(x) < 0x80 ==> r == Whole(x)
    ensures 0 <= Whole(x) < 0x7f && Frac(x) >= 0x80 ==> r == Whole(x) + 1
    ensures -0x80 < Whole(x) < 0 && Frac(x) >= 0x80 ==> r == Whole(x) - 1
  {
    var w := Whole(x);
    var f := Frac(x);
    if w >= 0 then (if f >= 0x80 then ToS8(w + 1) else w)
    else (if f >= 0x80 then ToS8(w - 1) else w)
  }

  /** For a non-negative whole part below 127, round() is rounding half up:
      the floor of value/256 + 1/2. */
  lemma RoundNonNegative(x: Fixed)
    requires 0 <= Whole(x) < 0x7f
    ensures Round(x) == (x.value + 128) / 256
  {
    var w: int := Whole(x);
    var f: int := Frac(x);
    assert x.value + 128 == w * 256 + (f + 128);
    SplitDiv(w, f + 128);
  }

  lemma SplitDiv(w: int, g: int)
    requires 0 <= g < 512
    ensures (w * 256 + g) / 256 == w + (if g >= 256 then 1 else 0)
  {
  }

  /** Rounding to the nearest integer, halves rounded up: the value lies
      within half a unit below or less than half a unit above the result.
      The result is an int, since 127.5 and above round to 128. */
  function RoundNearest(x: Fixed): (r: int)
    ensures r * 256 - 128 <= x.value < r * 256 + 128
    ensures -0x80 <= r <= 0x80
  {
    if Frac(x) >= 0x80 then Whole(x) + 1 else Whole(x)
  }

  /** round() is the nearest integer wherever the fraction is below one
      half, and wherever the whole part is non-negative and the result
      fits; on a negative number whose fraction is one half or more it
      lands two units below the nearest integer. */
  lemma RoundAgainstNearest(x: Fixed)
    ensures Frac(x) < 0x80 ==> Round(x) == RoundNearest(x)
    ensures 0 <= Whole(x) < 0x7f ==> Round(x) == RoundNearest(x)
    ensures -0x80 < Whole(x) < 0 && Frac(x) >= 0x80 ==> Round(x) == RoundNearest(x) - 2
  {
  }

  /** For a negative whole part, round() moves away from zero on the high
      half of the fraction, which is the wrong way: -0.25 (whole -1,
      fraction 0xc0) rounds to -2, where the nearest integer is 0. */
  lemma RoundNegativeQuarter()
    ensures Whole(Fixed(-64)) == -1 && Frac(Fixed(-64)) == 0xc0
    ensures Round(Fixed(-64)) == -2 && RoundNearest(Fixed(-64)) == 0
  {
  }
}
