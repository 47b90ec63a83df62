/**
 Conversion between 24.8 fixed point and the bit patterns of IEEE 754 binary64 and binary32,
 done with integer operations only. Both widths run the same code with different constants.
 */
module FixedPoint {
  import opened Words

  const FBITS: nat := 8

  // frac: stored significand bits; word: width of the working integer; bias and the exponent at
  // which the first loop gives up.
  datatype Format = Format(frac: nat, word: nat, bias: nat, limit: nat)

  const DOUBLE := Format(52, 64, 1023, 2047)
  const FLOAT := Format(23, 32, 127, 256)

  // The relations between the constants that the conversions rest on.
  ghost predicate Sound(f: Format) {
    && FBITS < f.frac && f.frac + 1 < f.word && f.word <= 2 * f.frac + 1 - FBITS
    && f.frac < f.bias && f.bias + f.frac < f.limit
    && 32 <= f.word && f.word + FBITS <= f.frac + 31
  }

  // Fixed-point magnitudes below 2^Room survive the initial shift into the working integer.
  function Room(f: Format): nat
    requires Sound(f)
  {
    f.word - (f.frac - FBITS)
  }

  // A bit pattern: sign, biased exponent, stored significand.
  datatype Pattern = Pattern(sign: bool, exp: nat, sig: nat)

  // ---------- what a pattern denotes (section 3.4 of IEEE 754-2019) ----------

  // 2^e
  ghost function Scale(e: int): real
    ensures Scale(e) > 0.0
    decreases if e >= 0 then e else -e
  {
    if e == 0 then 1.0 else if e > 0 then 2.0 * Scale(e - 1) else Scale(e + 1) / 2.0
  }

  // For exponents other than all ones, which are infinities and NaN.
  ghost function Magnitude(f: Format, p: Pattern): real {
    if p.exp == 0 then p.sig as real * Scale(1 - f.bias - f.frac)
    else (Pow2(f.frac) + p.sig) as real * Scale(p.exp - f.bias - f.frac)
  }

  ghost function Denotes(f: Format, p: Pattern): real {
    if p.sign then -Magnitude(f, p) else Magnitude(f, p)
  }

  // A well-formed pattern of a finite number.
  ghost predicate Finite(f: Format, p: Pattern) {
    p.sig < Pow2(f.frac) && p.exp < 2 * f.bias + 1
  }

  // ---------- lemmas on scaling ----------

  // n * s by repeated addition, which keeps the proofs linear.
  ghost function Times(n: nat, s: real): real {
    if n == 0 then 0.0 else Times(n - 1, s) + s
  }

  lemma {:induction false} TimesIsProduct(n: nat, s: real)
    ensures Times(n, s) == n as real * s
  {
    if n > 0 {
      TimesIsProduct(n - 1, s);
      OneMore((n - 1) as real, s);
    }
  }

  lemma OneMore(a: real, s: real)
    ensures (a + 1.0) * s == a * s + s
  {}

  lemma {:induction false} TimesDouble(n: nat, s: real)
    ensures Times(2 * n, s) == Times(n, 2.0 * s)
  {
    if n > 0 {
      TimesDouble(n - 1, s);
      assert Times(2 * n, s) == Times(2 * n - 1, s) + s && Times(2 * n - 1, s) == Times(2 * n - 2, s) + s;
    }
  }

  lemma {:induction false} TimesMonotone(m: nat, n: nat, s: real)
    requires m <= n && s > 0.0
    ensures Times(m, s) <= Times(n, s) && (m < n ==> Times(m, s) < Times(n, s))
    decreases n
  {
    if m < n { TimesMonotone(m, n - 1, s); }
  }

  lemma ScaleNext(e: int)
    ensures Scale(e + 1) == 2.0 * Scale(e)
  {}

  // (y * 2^n) * 2^e = y * 2^(e + n)
  lemma {:induction false} TimesPow(y: nat, n: nat, e: int)
    ensures Times(y * Pow2(n), Scale(e)) == Times(y, Scale(e + n))
    decreases n
  {
    if n > 0 {
      MulDouble(y, Pow2(n - 1));
      TimesDouble(y * Pow2(n - 1), Scale(e));
      ScaleNext(e);
      TimesPow(y, n - 1, e + 1);
      assert e + 1 + (n - 1) == e + n;
    }
  }

  lemma {:induction false} TimesUnits(y: nat)
    ensures Times(y, Scale(0)) == y as real
    ensures Times(y, Scale(-8)) == y as real / 256.0
  {
    assert Scale(-4) == 1.0 / 16.0;
    if y > 0 { TimesUnits(y - 1); }
  }

  // ---------- fixed point to floating point ----------

  // What is left of a magnitude after the initial shift in the working integer.
  function Kept(x: int, f: Format): nat
    requires Sound(f)
  {
    (if x < 0 then -x else x) % Pow2(Room(f))
  }

  // Shifting left by s = 2^j in an unsigned integer of width w keeps the low part.
  lemma ShiftMod(abs: nat, r: nat, s: nat, w: nat)
    requires r > 0 && s > 0 && w == r * s
    ensures w > 0 && (abs * s) % w == (abs % r) * s
  {
    var q, y := abs / r, abs % r;
    assert abs == r * q + y;
    MulDistr(r * q, y, s);
    MulShuffle(r, q, s);
    ProductBelow(y, r, s);
    DivisionUnique(abs * s, w, q, y * s);
  }

  // (abs << (frac - 8)) in the working integer
  lemma ShiftKeeps(abs: nat, f: Format)
    requires Sound(f)
    ensures (abs * Pow2(f.frac - FBITS)) % Pow2(f.word) == (abs % Pow2(Room(f))) * Pow2(f.frac - FBITS)
  {
    Pow2Add(Room(f), f.frac - FBITS);
    ShiftMod(abs, Pow2(Room(f)), Pow2(f.frac - FBITS), Pow2(f.word));
  }

  lemma MulDistr(a: int, b: int, c: int)
    ensures (a + b) * c == a * c + b * c
  {}

  lemma MulShuffle(r: int, q: int, s: int)
    ensures (r * q) * s == (r * s) * q
  {}

  lemma ProductBelow(y: nat, r: nat, s: nat)
    requires y < r && s > 0
    ensures y * s < r * s
  {
    MulDistr(r, 0 - y, s);
    assert (0 - y) * s == 0 - y * s;
    assert (r - y) * s >= s by { MulAtLeast(r - y, s); }
  }

  lemma MulAtLeast(k: int, s: int)
    requires k >= 1 && s >= 0
    ensures k * s >= s
  {
    MulDistr(k - 1, 1, s);
  }

  // The significand and exponent during normalisation: y * 2^n, with the exponent to match.
  ghost predicate Tracks(f: Format, y: nat, n: nat, mantissa: nat, exponent: int) {
    mantissa == y * Pow2(n) && exponent == f.bias + f.frac - FBITS - n
  }

  // The shift-right loop.
  method ShrinkMantissa(f: Format, ghost y: nat, mantissa0: nat) returns (mantissa: nat, exponent: int, ghost n: nat)
    requires Sound(f) && y < Pow2(Room(f)) && mantissa0 == y * Pow2(f.frac - FBITS)
    ensures Tracks(f, y, n, mantissa, exponent) && n <= f.frac - FBITS && mantissa < Pow2(f.frac + 1)
  {
    mantissa, exponent, n := mantissa0, f.bias, f.frac - FBITS;
    while mantissa >= Pow2(f.frac + 1) && exponent < f.limit
      invariant Tracks(f, y, n, mantissa, exponent) && n <= f.frac - FBITS
      decreases n
    {
      Pow2Monotone(Room(f), f.frac + 1);
      MulDouble(y, Pow2(n - 1));
      mantissa := mantissa / 2;
      exponent := exponent + 1;
      n := n - 1;
    }
  }

  // The shift-left loop.
  method GrowMantissa(f: Format, ghost y: nat, mantissa0: nat, exponent0: int, ghost n0: nat)
    returns (mantissa: nat, exponent: nat, ghost n: nat)
    requires Sound(f) && Tracks(f, y, n0, mantissa0, exponent0) && n0 <= f.frac - FBITS && mantissa0 < Pow2(f.frac + 1)
    ensures Tracks(f, y, n, mantissa, exponent) && exponent <= f.bias + f.frac - FBITS
    ensures y > 0 ==> Pow2(f.frac) <= mantissa < Pow2(f.frac + 1) && 0 < exponent && n <= f.frac
    ensures y == 0 ==> mantissa == 0 && exponent == 0
  {
    mantissa, n := mantissa0, n0;
    var e := exponent0;
    while mantissa < Pow2(f.frac) && e > 0
      invariant Tracks(f, y, n, mantissa, e) && e >= 0 && mantissa < Pow2(f.frac + 1)
      invariant y > 0 ==> n <= f.frac
      decreases e
    {
      MulDouble(y, Pow2(n));
      if y > 0 && n >= f.frac { Pow2Monotone(f.frac, n); AtLeastPower(y, n); }
      mantissa := mantissa * 2;
      e := e - 1;
      n := n + 1;
    }
    exponent := e;
  }

  lemma AtLeastPower(y: nat, n: nat)
    requires y > 0
    ensures y * Pow2(n) >= Pow2(n)
  {
    MulAtLeast(y, Pow2(n));
  }

  // How far the significand was shifted left from the fixed-point magnitude.
  function Shift(f: Format, p: Pattern): int {
    f.bias + f.frac - FBITS - p.exp
  }

  // The pattern that stands for +-y/256.
  ghost predicate PatternOf(f: Format, p: Pattern, negative: bool, y: nat) {
    && Finite(f, p) && p.sign == negative
    && (y == 0 ==> p.exp == 0 && p.sig == 0)
    && (y > 0 ==> p.exp > 0 && 0 <= Shift(f, p) <= f.frac && Pow2(f.frac) + p.sig == y * Pow2(Shift(f, p)))
  }

  // |x| in the unsigned working integer. Negating the least int32 wraps to itself, and is then extended with its sign.
  function Unsigned(x: int, f: Format): int {
    if x >= 0 then x
    else if Wrap32(-x) >= 0 then Wrap32(-x) else Pow2(f.word) + Wrap32(-x)
  }

  lemma {:induction false} PowerRemainder(j: nat, k: nat)
    requires j <= k
    ensures Pow2(k) % Pow2(j) == 0
  {
    Pow2Add(j, k - j);
    DivisionUnique(Pow2(k), Pow2(j), Pow2(k - j), 0);
  }

  lemma UnsignedKept(x: int, f: Format)
    requires Sound(f) && -0x8000_0000 <= x < 0x8000_0000
    ensures Unsigned(x, f) >= 0 && Unsigned(x, f) % Pow2(Room(f)) == Kept(x, f)
  {
    if x == -0x8000_0000 {
      Pow2Of32();
      PowerRemainder(Room(f), 31);
      DifferenceRemainder(Room(f), 31, f.word);
      assert Unsigned(x, f) == Pow2(f.word) - Pow2(31);
    } else {
      Unwrapped(-x);
    }
  }

  lemma {:induction false} DifferenceRemainder(j: nat, k: nat, n: nat)
    requires j <= k <= n
    ensures Pow2(n) - Pow2(k) >= 0 && (Pow2(n) - Pow2(k)) % Pow2(j) == 0
  {
    Pow2Monotone(k, n);
    Pow2Monotone(k - j, n - j);
    Pow2Add(j, n - j);
    Pow2Add(j, k - j);
    MultipleRemainder(Pow2(j), Pow2(n - j), Pow2(k - j), Pow2(n), Pow2(k));
  }

  lemma MultipleRemainder(p: nat, q: nat, r: nat, a: nat, b: nat)
    requires p > 0 && a == p * q && b == p * r && q >= r && a >= b
    ensures (a - b) % p == 0
  {
    MulDistr(q, 0 - r, p);
    DivisionUnique(a - b, p, q - r, 0);
  }

  /** fixed_to_double and fixed_to_float */
  method FixedToPattern(x: int, f: Format) returns (p: Pattern)
    requires Sound(f) && -0x8000_0000 <= x < 0x8000_0000
    ensures x == 0 ==> p == Pattern(false, 0, 0)
    ensures PatternOf(f, p, x < 0, Kept(x, f))
  {
    if x == 0 {
      return Pattern(false, 0, 0);
    }
    UnsignedKept(x, f);
    ghost var y := Kept(x, f);
    ShiftKeeps(Unsigned(x, f), f);
    var mantissa := (Unsigned(x, f) * Pow2(f.frac - FBITS)) % Pow2(f.word);
    p := Normalise(f, y, x < 0, mantissa);
  }

  method Normalise(f: Format, ghost y: nat, sign: bool, mantissa: nat) returns (p: Pattern)
    requires Sound(f) && y < Pow2(Room(f)) && mantissa == y * Pow2(f.frac - FBITS)
    ensures PatternOf(f, p, sign, y)
  {
    var m1, e1, n1 := ShrinkMantissa(f, y, mantissa);
    var m2, e2, n2 := GrowMantissa(f, y, m1, e1, n1);
    TopBitOff(m2, Pow2(f.frac));
    p := Pattern(sign, e2, m2 % Pow2(f.frac));
  }

  // Masking off the implicit leading bit.
  lemma TopBitOff(m: nat, p: nat)
    requires p > 0 && m < 2 * p
    ensures m % p == if m < p then m else m - p
  {
    DivisionUnique(m, p, if m < p then 0 else 1, if m < p then m else m - p);
  }

  // ---------- the value of the result ----------

  lemma MagnitudeIsTimes(f: Format, p: Pattern)
    requires p.exp != 0
    ensures Magnitude(f, p) == Times(Pow2(f.frac) + p.sig, Scale(p.exp - f.bias - f.frac))
  {
    TimesIsProduct(Pow2(f.frac) + p.sig, Scale(p.exp - f.bias - f.frac));
  }

  lemma ShiftedValue(y: nat, n: nat, m: nat, e: int)
    requires m == y * Pow2(n) && e + n == -8
    ensures Times(m, Scale(e)) == y as real / 256.0
  {
    TimesPow(y, n, e);
    TimesUnits(y);
  }

  lemma PatternValue(f: Format, p: Pattern, negative: bool, y: nat)
    requires Sound(f) && PatternOf(f, p, negative, y)
    ensures Magnitude(f, p) == y as real / 256.0
  {
    if y > 0 {
      MagnitudeIsTimes(f, p);
      ShiftedValue(y, Shift(f, p), Pow2(f.frac) + p.sig, p.exp - f.bias - f.frac);
    }
  }

  /** The bit pattern denotes exactly x/256 if and only if |x| < 2^20 (double) or |x| < 2^17
      (float); beyond that the high bits of |x| are lost. */
  lemma ExactExactlyInRange(f: Format, p: Pattern, x: int)
    requires Sound(f) && PatternOf(f, p, x < 0, Kept(x, f))
    ensures Denotes(f, p) == x as real / 256.0 <==> 0 - Pow2(Room(f)) < x < Pow2(Room(f))
  {
    PatternValue(f, p, x < 0, Kept(x, f));
    var abs := if x < 0 then -x else x;
    assert abs % Pow2(Room(f)) == abs <==> abs < Pow2(Room(f)) by {
      if abs < Pow2(Room(f)) { DivisionUnique(abs, Pow2(Room(f)), 0, abs); }
    }
  }

  lemma DoubleAndFloat()
    ensures Sound(DOUBLE) && Pow2(Room(DOUBLE)) == 0x10_0000
    ensures Sound(FLOAT) && Pow2(Room(FLOAT)) == 0x2_0000
  {
    assert Pow2(10) == 1024;
    Pow2Add(10, 10);
    Pow2Add(10, 7);
  }

  /** fixed_to_double is exact for |x| < 2^20 and for no other x. */
  lemma DoubleIsExact(p: Pattern, x: int)
    requires Sound(DOUBLE) && PatternOf(DOUBLE, p, x < 0, Kept(x, DOUBLE))
    ensures Denotes(DOUBLE, p) == x as real / 256.0 <==> -0x10_0000 < x < 0x10_0000
  {
    DoubleAndFloat();
    ExactExactlyInRange(DOUBLE, p, x);
  }

  /** fixed_to_float is exact for |x| < 2^17 and for no other x. */
  lemma FloatIsExact(p: Pattern, x: int)
    requires Sound(FLOAT) && PatternOf(FLOAT, p, x < 0, Kept(x, FLOAT))
    ensures Denotes(FLOAT, p) == x as real / 256.0 <==> -0x2_0000 < x < 0x2_0000
  {
    DoubleAndFloat();
    ExactExactlyInRange(FLOAT, p, x);
  }

  // ---------- floating point to fixed point ----------

  function Significand(f: Format, p: Pattern): nat {
    if p.exp != 0 then Pow2(f.frac) + p.sig else p.sig
  }

  // C defines a shift by less than the width of the working integer only.
  predicate Defined(f: Format, p: Pattern) {
    0 - f.word < Shift(f, p) < f.word
  }

  // The shifted significand: to the left by -n if n is negative.
  function Shifted(f: Format, m: nat, n: int): nat {
    if n < 0 then (m * Pow2(-n)) % Pow2(f.word) else Shr(m, n)
  }

  // double_to_fixed and float_to_fixed.
  function PatternToFixed(f: Format, p: Pattern): int
    requires Defined(f, p)
  {
    Wrap32(Signed(p.sign, Shifted(f, Significand(f, p), Shift(f, p))))
  }

  function Signed(negative: bool, v: nat): int {
    if negative then 0 - v else v
  }

  /** Converting a fixed-point number to floating point and back yields the number itself. */
  lemma RoundTrip(f: Format, p: Pattern, x: int)
    requires Sound(f) && x != 0 && PatternOf(f, p, x < 0, Kept(x, f))
    requires 0 - Pow2(Room(f)) < x < Pow2(Room(f)) && -0x8000_0000 < x < 0x8000_0000
    ensures Defined(f, p) && PatternToFixed(f, p) == x
  {
    var y := if x < 0 then -x else x;
    DivisionUnique(y, Pow2(Room(f)), 0, y);
    assert Kept(x, f) == y;
    ExactQuotient(y, Shift(f, p));
    SmallUnwrapped(y);
  }

  lemma {:induction false} ExactQuotient(y: nat, n: nat)
    ensures Shr(y * Pow2(n), n) == y
    decreases n
  {
    if n > 0 {
      MulDouble(y, Pow2(n - 1));
      ExactQuotient(y, n - 1);
    }
  }

  // The magnitude times 256 is the significand over 2^Shift.
  lemma MagnitudeBySignificand(f: Format, p: Pattern)
    requires p.exp != 0
    ensures Magnitude(f, p) * 256.0 == Times(Significand(f, p), Scale(0 - Shift(f, p)))
  {
    var m, e := Significand(f, p), p.exp - f.bias - f.frac;
    MagnitudeIsTimes(f, p);
    Times256(m, e);
    assert e + 8 == 0 - Shift(f, p);
  }

  lemma {:induction false} Times256(m: nat, e: int)
    ensures Times(m, Scale(e)) * 256.0 == Times(m, Scale(e + 8))
  {
    ScaleNext8(e);
    if m > 0 { Times256(m - 1, e); }
  }

  lemma ScaleNext8(e: int)
    ensures Scale(e + 8) == 256.0 * Scale(e)
  {
    ScaleNext(e);
    ScaleNext(e + 1);
    ScaleNext(e + 2);
    ScaleNext(e + 3);
    ScaleNext(e + 4);
    ScaleNext(e + 5);
    ScaleNext(e + 6);
    ScaleNext(e + 7);
  }

  lemma {:induction false} ShrBounds(m: nat, n: nat)
    ensures Shr(m, n) * Pow2(n) <= m < (Shr(m, n) + 1) * Pow2(n)
    decreases n
  {
    if n > 0 {
      ShrBounds(m / 2, n - 1);
      MulDouble(Shr(m, n), Pow2(n - 1));
      MulDouble(Shr(m, n) + 1, Pow2(n - 1));
    }
  }

  // (q * 2^n) * 2^-n = q
  lemma UnitsBack(q: nat, n: nat, a: nat)
    requires a == q * Pow2(n)
    ensures Times(a, Scale(0 - n)) == q as real
  {
    TimesPow(q, n, 0 - n);
    TimesUnits(q);
  }

  lemma Bracket(m: nat, a: nat, b: nat, s: real, x: real)
    requires a <= m < b && s > 0.0 && Times(a, s) == x && Times(b, s) == x + 1.0
    ensures x <= Times(m, s) < x + 1.0
  {
    TimesMonotone(a, m, s);
    TimesMonotone(m, b, s);
  }

  // A quotient by 2^n brackets m * 2^-n.
  lemma QuotientBrackets(m: nat, n: nat, q: nat, a: nat, b: nat)
    requires a == q * Pow2(n) && b == (q + 1) * Pow2(n) && a <= m < b
    ensures q as real <= Times(m, Scale(0 - n)) < q as real + 1.0
  {
    UnitsBack(q, n, a);
    UnitsBack(q + 1, n, b);
    Bracket(m, a, b, Scale(0 - n), q as real);
  }

  // Truncation to int32 does not change a small number.
  lemma SmallUnwrapped(q: nat)
    requires q as real < 2147483648.0 || q < 0x8000_0000
    ensures Wrap32(q) == q && Wrap32(0 - q) == 0 - q
  {}

  lemma ShiftTruncates(m: nat, n: nat)
    ensures Shr(m, n) as real <= Times(m, Scale(0 - n)) < Shr(m, n) as real + 1.0
  {
    ShrBounds(m, n);
    QuotientBrackets(m, n, Shr(m, n), Shr(m, n) * Pow2(n), (Shr(m, n) + 1) * Pow2(n));
  }

  // The 256ths of the number, truncated toward zero.
  function Truncated(f: Format, p: Pattern): nat {
    var m, n := Significand(f, p), Shift(f, p);
    if n < 0 then m * Pow2(0 - n) else Shr(m, n)
  }

  lemma TruncatedMeans(f: Format, p: Pattern)
    requires p.exp != 0
    ensures Truncated(f, p) as real <= Magnitude(f, p) * 256.0 < Truncated(f, p) as real + 1.0
    ensures Shift(f, p) <= 0 ==> Magnitude(f, p) * 256.0 == Truncated(f, p) as real
  {
    var m, n := Significand(f, p), Shift(f, p);
    MagnitudeBySignificand(f, p);
    if n <= 0 {
      TimesPow(m, 0 - n, 0);
      TimesUnits(m * Pow2(0 - n));
    } else {
      ShiftTruncates(m, n);
    }
  }

  lemma WrapAgain(a: int, b: int, k: int)
    requires a == b + WORD * k
    ensures Wrap32(a) == Wrap32(b)
  {}

  // Wrapping at a wider word first makes no difference.
  lemma WrapTwice(t: nat, f: Format)
    requires Sound(f)
    ensures Wrap32(t % Pow2(f.word)) == Wrap32(t) && Wrap32(0 - t % Pow2(f.word)) == Wrap32(0 - t)
  {
    var w, q := Pow2(f.word), t / Pow2(f.word);
    Pow2Of32();
    Pow2Add(32, f.word - 32);
    assert t == w * q + t % w;
    var k := Pow2(f.word - 32) * q;
    MulAssoc(WORD, Pow2(f.word - 32), q);
    WrapAgain(t, t % w, k);
    WrapAgain(0 - t % w, 0 - t, k);
  }

  lemma MulAssoc(a: int, b: int, c: int)
    ensures (a * b) * c == a * (b * c)
  {}

  lemma Unwrapped(x: int)
    ensures Wrap32(x) == x <==> -0x8000_0000 <= x < 0x8000_0000
  {}

  lemma DefinedIsNormal(f: Format, p: Pattern)
    requires Sound(f) && Defined(f, p)
    ensures p.exp != 0
  {}

  /** Where the shift is defined, the result is the 256ths of the number, truncated toward zero, exactly when these fit
      an int32, and their low 32 bits otherwise; from 2^(frac - 8) on nothing is cut off. */
  lemma Converts(f: Format, p: Pattern)
    requires Sound(f) && Defined(f, p)
    ensures Truncated(f, p) as real <= Magnitude(f, p) * 256.0 < Truncated(f, p) as real + 1.0
    ensures Shift(f, p) <= 0 ==> Magnitude(f, p) * 256.0 == Truncated(f, p) as real
    ensures var q := if p.sign then 0 - Truncated(f, p) else Truncated(f, p);
            PatternToFixed(f, p) == Wrap32(q) && (PatternToFixed(f, p) == q <==> -0x8000_0000 <= q < 0x8000_0000)
  {
    DefinedIsNormal(f, p);
    TruncatedMeans(f, p);
    WrapTwice(Truncated(f, p), f);
    Unwrapped(if p.sign then 0 - Truncated(f, p) else Truncated(f, p));
  }

  /** Every number below 2^23 whose conversion is defined is converted right. */
  lemma Truncates(f: Format, p: Pattern)
    requires Sound(f) && Defined(f, p) && Magnitude(f, p) < 8388608.0
    ensures var q := if p.sign then -PatternToFixed(f, p) else PatternToFixed(f, p);
            q as real <= Magnitude(f, p) * 256.0 < q as real + 1.0
  {
    Converts(f, p);
    SmallUnwrapped(Truncated(f, p));
  }

  // ---------- which numbers that covers ----------

  lemma {:induction false} ScaleMonotone(d: int, e: int)
    requires d <= e
    ensures Scale(d) <= Scale(e)
    decreases e - d
  {
    if d < e {
      ScaleNext(e - 1);
      ScaleMonotone(d, e - 1);
    }
  }

  // The numbers with one exponent lie between two powers of two.
  lemma Binade(f: Format, m: nat, e: int)
    requires m < Pow2(f.frac)
    ensures Times(m, Scale(e - f.frac)) < Scale(e)
    ensures Scale(e) <= Times(Pow2(f.frac) + m, Scale(e - f.frac)) < Scale(e + 1)
  {
    var s := Scale(e - f.frac);
    TimesPow(1, f.frac, e - f.frac);
    assert Times(1, Scale(e)) == Scale(e) && e - f.frac + f.frac == e;
    TimesPow(1, f.frac + 1, e - f.frac);
    assert Times(1, Scale(e + 1)) == Scale(e + 1) && e - f.frac + (f.frac + 1) == e + 1;
    TimesMonotone(m, Pow2(f.frac), s);
    TimesMonotone(Pow2(f.frac), Pow2(f.frac) + m, s);
    TimesMonotone(Pow2(f.frac) + m, Pow2(f.frac + 1), s);
  }

  lemma SubnormalBounds(f: Format, p: Pattern)
    requires p.sig < Pow2(f.frac) && p.exp == 0
    ensures Magnitude(f, p) < Scale(1 - f.bias)
  {
    TimesIsProduct(p.sig, Scale(1 - f.bias - f.frac));
    Binade(f, p.sig, 1 - f.bias);
  }

  lemma NormalBounds(f: Format, p: Pattern, e: int)
    requires p.sig < Pow2(f.frac) && p.exp != 0 && e == p.exp - f.bias
    ensures Scale(e) <= Magnitude(f, p) < Scale(e + 1)
  {
    MagnitudeIsTimes(f, p);
    Binade(f, p.sig, e);
  }

  /** The exponent field is at least e exactly when the magnitude is at least 2^(e - bias). */
  lemma ExponentIff(f: Format, p: Pattern, e: nat)
    requires p.sig < Pow2(f.frac) && e > 0
    ensures p.exp >= e <==> Magnitude(f, p) >= Scale(e - f.bias)
  {
    if p.exp == 0 {
      SubnormalBounds(f, p);
      ScaleMonotone(1 - f.bias, e - f.bias);
    } else {
      NormalBounds(f, p, p.exp - f.bias);
      if p.exp >= e {
        ScaleMonotone(e - f.bias, p.exp - f.bias);
      } else {
        ScaleMonotone(p.exp - f.bias + 1, e - f.bias);
      }
    }
  }

  /** The shift is defined exactly for magnitudes from 2^(frac - 7 - word) up to 2^(frac - 8 + word). */
  lemma DefinedIff(f: Format, p: Pattern)
    requires Sound(f) && Finite(f, p)
    ensures Defined(f, p) <==> Scale(f.frac - 7 - f.word) <= Magnitude(f, p) < Scale(f.frac - 8 + f.word)
  {
    ExponentIff(f, p, f.bias + f.frac - 7 - f.word);
    ExponentIff(f, p, f.bias + f.frac - 8 + f.word);
    assert f.bias + f.frac - 7 - f.word - f.bias == f.frac - 7 - f.word;
    assert f.bias + f.frac - 8 + f.word - f.bias == f.frac - 8 + f.word;
  }

  lemma SmallScales()
    ensures Scale(-16) == 1.0 / 65536.0 && Scale(-19) == 1.0 / 524288.0 && Scale(-17) == 1.0 / 131072.0
  {
    assert Scale(-8) == 1.0 / 256.0 by { assert Scale(-4) == 1.0 / 16.0; }
    assert Scale(-12) == 1.0 / 4096.0;
    assert Scale(-16) == 1.0 / 65536.0;
  }

  /** float_to_fixed is defined for no magnitude below 2^-16, zero and subnormal numbers included, and for all others
      up to 2^47. */
  lemma FloatDefinedIff(p: Pattern)
    requires Finite(FLOAT, p)
    ensures Defined(FLOAT, p) <==> 111 <= p.exp <= 173
    ensures Defined(FLOAT, p) <==> 1.0 / 65536.0 <= Magnitude(FLOAT, p) < Scale(47)
  {
    SmallScales();
    DoubleAndFloat();
    DefinedIff(FLOAT, p);
  }

  /** double_to_fixed is defined for no magnitude below 2^-19 and for all others up to 2^108. */
  lemma DoubleDefinedIff(p: Pattern)
    requires Finite(DOUBLE, p)
    ensures Defined(DOUBLE, p) <==> 1004 <= p.exp <= 1130
    ensures Defined(DOUBLE, p) <==> 1.0 / 524288.0 <= Magnitude(DOUBLE, p) < Scale(108)
  {
    SmallScales();
    DoubleAndFloat();
    DefinedIff(DOUBLE, p);
  }

  // The conversion on processors that take shift amounts modulo the width.
  function MaskedToFixed(f: Format, p: Pattern): int
    requires f.word > 0
  {
    Wrap32(Signed(p.sign, Shifted(f, Significand(f, p), Masked(Shift(f, p), f.word))))
  }

  function Masked(n: int, w: nat): int
    requires w > 0
  {
    if n < 0 then 0 - (0 - n) % w else n % w
  }

  /** It is the same conversion where the shift is defined. */
  lemma MaskedAgrees(f: Format, p: Pattern)
    requires f.word > 0 && Defined(f, p)
    ensures MaskedToFixed(f, p) == PatternToFixed(f, p)
  {
    InRange(Shift(f, p), f.word);
  }

  lemma InRange(n: int, w: nat)
    requires 0 - w < n < w
    ensures Masked(n, w) == n
  {
    DivisionUnique(if n < 0 then -n else n, w, 0, if n < 0 then -n else n);
  }

  /** The float 2^-17 is not converted to 0 there but to 32768, and the conversion of the number 0 to floating point and
      back is not defined in C. */
  lemma TinyFloat(p: Pattern, zero: Pattern)
    requires p == Pattern(false, 110, 0) && zero == Pattern(false, 0, 0)
    ensures Denotes(FLOAT, p) == 1.0 / 131072.0 && !Defined(FLOAT, p) && MaskedToFixed(FLOAT, p) == 32768 * 256
    ensures PatternOf(FLOAT, zero, false, Kept(0, FLOAT)) && !Defined(FLOAT, zero) && MaskedToFixed(FLOAT, zero) == 0
    ensures PatternOf(DOUBLE, zero, false, Kept(0, DOUBLE)) && !Defined(DOUBLE, zero)
            && MaskedToFixed(DOUBLE, zero) == 0
  {
    SmallScales();
    DoubleAndFloat();
    MagnitudeIsTimes(FLOAT, p);
    TimesPow(1, 23, -40);
    assert Times(1, Scale(-17)) == Scale(-17) && -40 + 23 == -17;
    assert Pow2(23) == 0x80_0000 by { assert Pow2(8) == 0x100; assert Pow2(16) == 0x1_0000; }
    assert Shr(Pow2(23), 0) == Pow2(23);
    ShrZero(142 % 32);
    ShrZero(1067 % 64);
  }

  lemma {:induction false} ShrZero(n: nat)
    ensures Shr(0, n) == 0
  {
    if n > 0 { ShrZero(n - 1); }
  }
}
