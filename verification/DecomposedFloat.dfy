/** Comparing a floating point number with an integer, exactly. */
module DecomposedFloats {
  import opened Powers
  import opened Bits

  /** An IEEE-754 layout: a sign bit, then the exponent, then the mantissa. */
  datatype Format = Format(exponentBits: nat, mantissaBits: nat) {
    predicate Valid() { 2 <= exponentBits <= 14 }

    function Bits(): nat { 1 + exponentBits + mantissaBits }

    function Bias(): (r: nat)
      requires Valid()
      ensures r >= 1
    {
      SmallPowers();
      Pow2Mono(1, exponentBits - 1);
      Pow2(exponentBits - 1) - 1
    }
  }

  const FLOAT32 := Format(8, 23)
  const FLOAT64 := Format(11, 52)

  /** An integer type: its width, and whether it is signed. */
  datatype IntType = IntType(width: nat, signed: bool) {
    predicate Valid() { 1 <= width <= 0x7FFF }

    /** The bits of a magnitude. */
    function ValueBits(): nat
      requires Valid()
    {
      width - (if signed then 1 else 0)
    }

    function Lowest(): int
      requires Valid()
    {
      if signed then -(Pow2(width - 1) as int) else 0
    }

    predicate Holds(v: int)
      requires Valid()
    {
      Lowest() <= v < Pow2(ValueBits())
    }
  }

  function Sign(x: int): int {
    if x < 0 then -1 else if x > 0 then 1 else 0
  }

  function Abs(x: int): nat { if x < 0 then -x else x }

  /** The values of a type: two's complement, or all the naturals of its width. */
  lemma IntegerRange(t: IntType, v: int)
    requires t.Valid()
    ensures t.signed ==> (t.Holds(v) <==> -(Pow2(t.width - 1) as int) <= v < Pow2(t.width - 1))
    ensures !t.signed ==> (t.Holds(v) <==> 0 <= v < Pow2(t.width))
  {
  }

  // ---- The fields ----

  predicate IsNegative(f: Format, x: nat) {
    Shr(x, f.Bits() - 1) != 0
  }

  function Exponent(f: Format, x: nat): nat {
    And(Shr(x, f.mantissaBits), Pow2(f.exponentBits) - 1)
  }

  function NormalizedExponent(f: Format, x: nat): int
    requires f.Valid()
  {
    Exponent(f, x) - f.Bias()
  }

  function Mantissa(f: Format, x: nat): nat {
    And(x, Pow2(f.mantissaBits) - 1)
  }

  /** Zero for both zeros. */
  function SignOf(f: Format, x: nat): int {
    if Exponent(f, x) == 0 && Mantissa(f, x) == 0 then 0 else if IsNegative(f, x) then -1 else 1
  }

  // ---- The exact value ----

  /** The magnitude in units of the smallest subnormal number. */
  function Magnitude(f: Format, x: nat): nat {
    if Exponent(f, x) == 0 then Mantissa(f, x)
    else (Pow2(f.mantissaBits) + Mantissa(f, x)) * Pow2(Exponent(f, x) - 1)
  }

  /** The number one in the same units. */
  function Unit(f: Format): (r: nat)
    requires f.Valid()
    ensures r >= 1
  {
    Pow2(f.Bias() - 1 + f.mantissaBits)
  }

  /** The exact number that the bits stand for, scaled by Unit. */
  function Scaled(f: Format, x: nat): int {
    if IsNegative(f, x) then -(Magnitude(f, x) as int) else Magnitude(f, x)
  }

  // ---- The comparison ----

  /** `x << n` in an unsigned type of `w` bits. */
  function ShiftLeft(x: nat, n: nat, w: nat): nat {
    (x * Pow2(n)) % Pow2(w)
  }

  function Compare(f: Format, x: nat, t: IntType, rhs: int): int
    requires f.Valid() && x < Pow2(f.Bits()) && t.Valid() && t.Holds(rhs)
  {
    var negative, e, m := IsNegative(f, x), NormalizedExponent(f, x), Mantissa(f, x);
    var greater := if negative then -1 else 1;
    var limit := t.ValueBits();
    if rhs == 0 then SignOf(f, x)
    else if negative && rhs > 0 then -1
    else if !negative && rhs < 0 then 1
    else if e < 0 then (if !negative then (if rhs > 0 then -1 else 1) else if rhs >= 0 then -1 else 1)
    else if t.signed && rhs == t.Lowest() then
      (if e < limit then 1 else if e > limit then -1 else if m == 0 then 0 else -1)
    else if e >= limit then greater
    else CompareMagnitudes(f, m, e, t, Abs(rhs), greater)
  }

  /** The end of the comparison, where the integer may share the binade of the float. */
  function CompareMagnitudes(f: Format, m: nat, e: nat, t: IntType, rhs: nat, greater: int): int
    requires t.Valid() && e < t.ValueBits()
  {
    var uintBits := if t.width > f.Bits() then t.width else f.Bits();
    var one := ShiftLeft(1, e, uintBits);
    if rhs < one then greater
    else if e + 1 < t.ValueBits() && rhs >= ShiftLeft(1, e + 1, uintBits) then -greater
    else
      SameBinade(f, m, e, uintBits, rhs - one, greater)
  }

  function SameBinade(f: Format, m: nat, e: nat, uintBits: nat, b: int, greater: int): int {
    var large := e >= f.mantissaBits;
    var a := if large then ShiftLeft(m, e - f.mantissaBits, uintBits) else Shr(m, f.mantissaBits - e);
    if a < b then -greater
    else if a > b then greater
    else if large || And(m, Pow2(f.mantissaBits - e) - 1) == 0 then 0
    else greater
  }

  // ---- What it computes ----

  /** How far the float (p + m) * q / p is above r, in units of 1 / p. */
  function Excess(p: int, m: int, q: int, r: int): int {
    (p + m) * q - r * p
  }

  lemma FieldBounds(f: Format, x: nat)
    ensures Mantissa(f, x) < Pow2(f.mantissaBits) && Exponent(f, x) < Pow2(f.exponentBits)
  {
    hide And, Pow2, Shr;
    AndMask(x, f.mantissaBits);
    AndMask(Shr(x, f.mantissaBits), f.exponentBits);
  }

  /** Below exponent zero the magnitude is less than one. */
  lemma Fraction(f: Format, x: nat)
    requires f.Valid() && NormalizedExponent(f, x) < 0
    ensures Magnitude(f, x) < Unit(f)
  {
    hide Pow2, And, Shr, IsNegative, Mantissa, Exponent;
    FieldBounds(f, x);
    var e, m, mb := Exponent(f, x), Mantissa(f, x), f.mantissaBits;
    Pow2Add(f.Bias() - 1, mb);
    if e == 0 {
      MulMono(Pow2(mb), 1, Pow2(f.Bias() - 1));
    } else {
      Pow2StrictMono(e - 1, f.Bias() - 1);
      FractionBound(Pow2(mb), m, Pow2(e - 1), Pow2(f.Bias() - 1));
    }
  }

  lemma FractionBound(p: int, m: int, u: int, k: int)
    requires 0 <= m < p && 1 <= u && 2 * u <= k
    ensures (p + m) * u < k * p
  {
    MulMono(u, p + m, 2 * p - 1);
    MulMono(p, 2 * u, k);
  }

  /** From exponent zero on, the magnitude over Unit is (1 + m / 2^mb) * 2^e. */
  lemma Normal(f: Format, x: nat)
    requires f.Valid() && NormalizedExponent(f, x) >= 0
    ensures var p, k := Pow2(f.mantissaBits), Pow2(f.Bias() - 1);
            && Magnitude(f, x) == ((p + Mantissa(f, x)) * Pow2(NormalizedExponent(f, x))) * k && Unit(f) == p * k
  {
    hide Pow2, And, Shr, IsNegative, Mantissa, Exponent;
    var p, k := Pow2(f.mantissaBits), Pow2(f.Bias() - 1);
    Pow2Add(f.mantissaBits, f.Bias() - 1);
    Pow2Add(NormalizedExponent(f, x), f.Bias() - 1);
    MulAssoc(p + Mantissa(f, x), Pow2(NormalizedExponent(f, x)), k);
  }

  lemma NoOverflow(x: nat, n: nat, w: nat, j: nat)
    requires x < Pow2(j) && j + n <= w
    ensures ShiftLeft(x, n, w) == x * Pow2(n)
  {
    hide Pow2;
    Pow2Add(j, n);
    Pow2Mono(j + n, w);
    ScaledBelow(x, Pow2(j), Pow2(n));
    SmallMod(x * Pow2(n), Pow2(w));
  }

  lemma ScaledBelow(x: int, y: int, p: int)
    requires 0 <= x < y && p > 0
    ensures 0 <= x * p < y * p
  {
    MulMono(p, x + 1, y);
    MulMono(p, 0, x);
  }

  // Below, p is 2^mantissa_bits and q is 2^exponent: the float is (p + m) * q / p.

  lemma SmallerBinade(p: int, m: int, q: int, r: int)
    requires 0 <= m && 0 < p && 0 < q && r < q
    ensures Excess(p, m, q, r) > 0
  {
    MulMono(q, p, p + m);
    MulMono(p, r + 1, q);
  }

  lemma LargerBinade(p: int, m: int, q: int, r: int)
    requires 0 <= m < p && 0 < q && r >= 2 * q
    ensures Excess(p, m, q, r) < 0
  {
    MulMono(q, p + m, 2 * p - 1);
    MulMono(p, 2 * q, r);
  }

  lemma SameBinadeLarge(p: int, m: int, q: int, r: int, s: int)
    requires 0 < p && q == p * s
    ensures Sign(Excess(p, m, q, r)) == Sign(m * s - (r - q))
  {
    var d := m * s - (r - q);
    assert (p + m) * q - r * p == p * d by {
      assert m * q == p * (m * s) by { MulRotate(m, p, s); MulAssoc(p, m, s); }
      assert p * d == p * (m * s) - p * (r - q);
    }
    SignOfProduct(p, d);
  }

  lemma SignOfProduct(p: int, d: int)
    requires p > 0
    ensures Sign(p * d) == Sign(d)
  {
    if d > 0 { MulMono(p, 1, d); } else if d < 0 { MulMono(p, d, -1); }
  }

  lemma SameBinadeSmall(p: int, m: int, q: int, r: int, s: int, a: int, c: int)
    requires 0 < q && p == q * s && m == a * s + c && 0 <= c < s
    ensures var b := r - q;
            Sign(Excess(p, m, q, r)) == if a < b then -1 else if a > b then 1 else Sign(c)
  {
    var b := r - q;
    var d := a - b;
    assert (p + m) * q - r * p == d * p + c * q by {
      assert m * q == a * p + c * q by { assert (a * s) * q == a * p; }
      assert r * p == b * p + q * p;
      assert d * p == a * p - b * p;
    }
    ScaledBelow(c, s, q);
    if d < 0 { MulMono(p, d, -1); } else if d > 0 { MulMono(p, 1, d); }
    SignOfProduct(q, c);
  }

  lemma SameBinadeCompared(f: Format, m: nat, e: nat, uintBits: nat, rhs: int, greater: int)
    requires m < Pow2(f.mantissaBits) && e < uintBits && (greater == 1 || greater == -1)
    ensures SameBinade(f, m, e, uintBits, rhs - Pow2(e), greater)
         == greater * Sign(Excess(Pow2(f.mantissaBits), m, Pow2(e), rhs))
  {
    hide Pow2, And, ShiftLeft, Excess;
    var mb := f.mantissaBits;
    if e >= mb {
      Pow2Add(mb, e - mb);
      NoOverflow(m, e - mb, uintBits, mb);
      SameBinadeLarge(Pow2(mb), m, Pow2(e), rhs, Pow2(e - mb));
    } else {
      var s := Pow2(mb - e);
      Pow2Add(e, mb - e);
      AndMask(m, mb - e);
      DivModIdentity(m, s);
      SameBinadeSmall(Pow2(mb), m, Pow2(e), rhs, s, m / s, m % s);
    }
  }

  lemma MagnitudesCompared(f: Format, m: nat, e: nat, t: IntType, rhs: nat, greater: int)
    requires t.Valid() && e < t.ValueBits() && rhs < Pow2(t.ValueBits()) && m < Pow2(f.mantissaBits)
    requires greater == 1 || greater == -1
    ensures CompareMagnitudes(f, m, e, t, rhs, greater) == greater * Sign(Excess(Pow2(f.mantissaBits), m, Pow2(e), rhs))
  {
    hide Pow2, And, ShiftLeft, Excess, SameBinade;
    var uintBits := if t.width > f.Bits() then t.width else f.Bits();
    var p, q := Pow2(f.mantissaBits), Pow2(e);
    SmallPowers();
    NoOverflow(1, e, uintBits, 1);
    Pow2Next(e);
    if e + 1 < t.ValueBits() { NoOverflow(1, e + 1, uintBits, 1); }
    if rhs < q {
      SmallerBinade(p, m, q, rhs);
    } else if rhs >= 2 * q {
      LargerBinade(p, m, q, rhs);
    } else {
      SameBinadeCompared(f, m, e, uintBits, rhs, greater);
    }
  }

  /** The comparison of magnitudes, when both signs agree. */
  lemma SameSign(f: Format, x: nat, rhs: int)
    requires f.Valid()
    ensures NormalizedExponent(f, x) >= 0 ==>
              Sign(Magnitude(f, x) - rhs * Unit(f))
              == Sign(Excess(Pow2(f.mantissaBits), Mantissa(f, x), Pow2(NormalizedExponent(f, x)), rhs))
    ensures NormalizedExponent(f, x) < 0 && rhs > 0 ==> Sign(Magnitude(f, x) - rhs * Unit(f)) == -1
  {
    hide Pow2, Magnitude, Unit, Mantissa, Exponent;
    var p, k, m := Pow2(f.mantissaBits), Pow2(f.Bias() - 1), Mantissa(f, x);
    if NormalizedExponent(f, x) >= 0 {
      Normal(f, x);
      var q := Pow2(NormalizedExponent(f, x));
      assert ((p + m) * q) * k - rhs * (p * k) == k * ((p + m) * q - rhs * p) by { MulAssoc(rhs, p, k); }
      SignOfProduct(k, (p + m) * q - rhs * p);
    } else if rhs > 0 {
      Fraction(f, x);
      MulMono(Unit(f), 1, rhs);
    }
  }

  /** A magnitude of a whole power of two, for the lowest signed integer. */
  lemma AtPower(f: Format, m: nat, e: nat, w: nat)
    requires m < Pow2(f.mantissaBits)
    ensures Sign(Excess(Pow2(f.mantissaBits), m, Pow2(e), Pow2(w)))
            == if e < w then -1 else if e > w then 1 else Sign(m)
  {
    hide Pow2;
    var p, q := Pow2(f.mantissaBits), Pow2(e);
    if e < w {
      Pow2StrictMono(e, w);
      LargerBinade(p, m, q, Pow2(w));
    } else if e > w {
      Pow2StrictMono(w, e);
      SmallerBinade(p, m, q, Pow2(w));
    } else {
      assert (p + m) * q - q * p == q * m;
      SignOfProduct(q, m);
    }
  }

  /** The result is the sign of the exact difference, for every float and every integer of every type. */
  lemma CompareIsExact(f: Format, x: nat, t: IntType, rhs: int)
    requires f.Valid() && x < Pow2(f.Bits()) && t.Valid() && t.Holds(rhs)
    ensures Compare(f, x, t, rhs) == Sign(Scaled(f, x) - rhs * Unit(f))
  {
    hide Pow2, Magnitude, Unit, Mantissa, Exponent, IsNegative, CompareMagnitudes, Excess;
    var e, m, r := NormalizedExponent(f, x), Mantissa(f, x), Abs(rhs);
    ZeroMagnitude(f, x);
    FieldBounds(f, x);
    SameSign(f, x, r);
    SignedUnits(rhs, Unit(f));
    if rhs != 0 && (IsNegative(f, x) <==> rhs < 0) && e >= 0 {
      AtPower(f, m, e, t.ValueBits());
      if !(t.signed && rhs == t.Lowest()) {
        if e >= t.ValueBits() {
          Pow2Mono(t.ValueBits(), e);
          SmallerBinade(Pow2(f.mantissaBits), m, Pow2(e), r);
        } else {
          MagnitudesCompared(f, m, e, t, r, if IsNegative(f, x) then -1 else 1);
        }
      }
    }
  }

  lemma ZeroMagnitude(f: Format, x: nat)
    ensures SignOf(f, x) == Sign(Scaled(f, x))
  {
    hide Mantissa, Exponent, IsNegative, Pow2;
    if Exponent(f, x) != 0 {
      ScaledBelow(0, Pow2(f.mantissaBits) + Mantissa(f, x), Pow2(Exponent(f, x) - 1));
    }
  }

  lemma SignedUnits(rhs: int, u: nat)
    requires u >= 1
    ensures rhs == 0 ==> rhs * u == 0
    ensures rhs > 0 ==> rhs * u == Abs(rhs) * u > 0
    ensures rhs < 0 ==> rhs * u == -(Abs(rhs) * u) < 0
  {
  }

  /** Larger integers never compare smaller, and only one compares equal. */
  lemma Monotone(f: Format, x: nat, t: IntType, u: IntType, r1: int, r2: int)
    requires f.Valid() && x < Pow2(f.Bits()) && t.Valid() && t.Holds(r1) && u.Valid() && u.Holds(r2) && r1 < r2
    ensures Compare(f, x, t, r1) >= Compare(f, x, u, r2)
    ensures Compare(f, x, t, r1) == 0 ==> Compare(f, x, u, r2) == -1
    ensures Compare(f, x, u, r2) == 0 ==> Compare(f, x, t, r1) == 1
  {
    hide *;
    CompareIsExact(f, x, t, r1);
    CompareIsExact(f, x, u, r2);
    ScaledOrder(r1, r2, Unit(f));
    SignOrder(Scaled(f, x) - r2 * Unit(f), Scaled(f, x) - r1 * Unit(f));
  }

  lemma ScaledOrder(x: int, y: int, p: int)
    requires x < y && p >= 1
    ensures x * p < y * p
  {
    MulMono(p, x + 1, y);
  }

  lemma SignOrder(x: int, y: int)
    requires x < y
    ensures Sign(x) <= Sign(y) && (Sign(x) == 0 ==> Sign(y) == 1) && (Sign(y) == 0 ==> Sign(x) == -1)
  {
  }

  // ---- Integers among the floats ----

  predicate IsIntegerInRepresentableRange(f: Format, x: nat)
    requires f.Valid()
  {
    var e, mb := NormalizedExponent(f, x), f.mantissaBits;
    x == 0 || (0 <= e <= mb && And(Mantissa(f, x), Pow2(mb - e) - 1) == 0)
  }

  /** Zero, or a whole number of ones with at most one bit more than the mantissa. Not minus zero. */
  lemma RepresentableIntegers(f: Format, x: nat)
    requires f.Valid()
    ensures IsIntegerInRepresentableRange(f, x) <==>
            || x == 0
            || (Magnitude(f, x) % Unit(f) == 0 && Unit(f) <= Magnitude(f, x) < Pow2(f.mantissaBits + 1) * Unit(f))
  {
    hide Pow2, Magnitude, Unit, Mantissa, Exponent;
    var e, mb, m, p := NormalizedExponent(f, x), f.mantissaBits, Mantissa(f, x), Pow2(f.mantissaBits);
    FieldBounds(f, x);
    Pow2Next(mb);
    if e < 0 {
      Fraction(f, x);
    } else {
      Normal(f, x);
      var q, k := Pow2(e), Pow2(f.Bias() - 1);
      if e <= mb {
        var s := Pow2(mb - e);
        Pow2Add(mb - e, e);
        AndMask(m, mb - e);
        WholeNumber(p, m, q, s, k);
        MulMono(q, 1, s);
        WithinRange(p, m, q, k);
      } else {
        Pow2StrictMono(mb, e);
        BeyondRange(p, m, q, k);
      }
    }
  }

  lemma WholeNumber(p: int, m: int, q: int, s: int, k: int)
    requires q > 0 && s > 0 && k > 0 && p == s * q && p > 0
    ensures p * k > 0 && ((((p + m) * q) * k) % (p * k) == 0 <==> m % s == 0)
  {
    var v := (p + m) * q;
    ShiftModulo(v, p, k);
    ZeroProduct(v % p, k);
    WholeMantissa(p, m, q, s, v);
  }

  lemma WholeMantissa(p: int, m: int, q: int, s: int, v: int)
    requires q > 0 && s > 0 && p == s * q && p > 0 && v == (p + m) * q
    ensures v % p == 0 <==> m % s == 0
  {
    var u := m * q;
    assert v == u + q * p;
    ModSelfMultiple(u, q, p);
    ShiftModulo(m, s, q);
    ZeroProduct(m % s, q);
  }

  lemma WithinRange(p: int, m: int, q: int, k: int)
    requires 1 <= q <= p && k > 0 && 0 <= m < p
    ensures p * k <= ((p + m) * q) * k < (2 * p) * (p * k)
  {
    BinadeBounds(p, m, q);
    ScaledBounds(p, (p + m) * q, (2 * p) * p, k);
    MulAssoc(2 * p, p, k);
  }

  lemma BinadeBounds(p: int, m: int, q: int)
    requires 1 <= q <= p && 0 <= m < p
    ensures p <= (p + m) * q < (2 * p) * p
  {
    MulMono(p + m, 1, q);
    ScaledBelow(p + m, 2 * p, q);
    MulMono(2 * p, q, p);
  }

  lemma ScaledBounds(x: int, y: int, z: int, k: int)
    requires 0 <= x <= y < z && k > 0
    ensures x * k <= y * k < z * k
  {
    MulMono(k, x, y);
    ScaledBelow(y, z, k);
  }

  lemma ZeroProduct(x: int, y: int)
    requires x >= 0 && y > 0
    ensures x * y == 0 <==> x == 0
  {
    if x > 0 { MulMono(x, 1, y); }
  }

  lemma BeyondRange(p: int, m: int, q: int, k: int)
    requires p > 0 && k > 0 && 0 <= m && q >= 2 * p
    ensures ((p + m) * q) * k >= (2 * p) * (p * k)
  {
    MulMono(q, p, p + m);
    MulMono(p, 2 * p, q);
    MulMono(k, (2 * p) * p, (p + m) * q);
    MulAssoc(2 * p, p, k);
  }

  // ---- Infinities and NaNs ----

  /** Every exponent bit set: an infinity with mantissa zero, a NaN otherwise. */
  predicate FullExponent(f: Format, x: nat) {
    Exponent(f, x) == Pow2(f.exponentBits) - 1
  }

  /** The side of the integers on which an infinity lies. */
  function Side(f: Format, x: nat): int {
    if IsNegative(f, x) then -1 else 1
  }

  /**
   * A pattern with a full exponent compares like the number that one more binade would hold. So it lies beyond an
   * integer, as documented, exactly while that integer is nearer than (1 + mantissa / 2^mantissa_bits) * 2^(bias + 1).
   */
  lemma FullExponentCompared(f: Format, x: nat, t: IntType, rhs: int)
    requires f.Valid() && x < Pow2(f.Bits()) && FullExponent(f, x) && t.Valid() && t.Holds(rhs)
    ensures var p := Pow2(f.mantissaBits);
            Compare(f, x, t, rhs) == Side(f, x) <==>
            (Side(f, x) * rhs) * p < (p + Mantissa(f, x)) * Pow2(f.Bias() + 1)
  {
    hide Pow2, Magnitude, Unit, Mantissa, Exponent, IsNegative, Compare;
    var d := Side(f, x) * rhs;
    CompareIsExact(f, x, t, rhs);
    TopExponent(f);
    SameSign(f, x, d);
    SignedUnits(rhs, Unit(f));
    SignedUnits(d, Unit(f));
  }

  /** The full exponent, normalised. */
  lemma TopExponent(f: Format)
    requires f.Valid()
    ensures Pow2(f.exponentBits) - 1 - f.Bias() == f.Bias() + 1
  {
    hide Pow2;
    Pow2Next(f.exponentBits - 1);
  }

  function Join(high: nat, low: nat, k: nat): nat {
    high * Pow2(k) + low
  }

  /** The bit pattern with the given fields. */
  function Pattern(f: Format, negative: bool, exponent: nat, mantissa: nat): nat {
    Join(Join(if negative then 1 else 0, exponent, f.exponentBits), mantissa, f.mantissaBits)
  }

  lemma Joined(high: nat, low: nat, i: nat, k: nat)
    requires high < Pow2(i) && low < Pow2(k)
    ensures Join(high, low, k) < Pow2(i + k)
    ensures Shr(Join(high, low, k), k) == high && And(Join(high, low, k), Pow2(k) - 1) == low
  {
    hide Pow2, And, Shr;
    Pow2Add(i, k);
    DigitBound(low, high, Pow2(k), Pow2(i));
    JoinParts(high, low, k);
    AndMask(Join(high, low, k), k);
  }

  lemma PatternFields(f: Format, negative: bool, exponent: nat, mantissa: nat)
    requires exponent < Pow2(f.exponentBits) && mantissa < Pow2(f.mantissaBits)
    ensures var x := Pattern(f, negative, exponent, mantissa);
            x < Pow2(f.Bits()) && Exponent(f, x) == exponent && Mantissa(f, x) == mantissa
  {
    hide Pow2, And, Shr, Join;
    var sign, eb, mb := if negative then 1 else 0, f.exponentBits, f.mantissaBits;
    SmallPowers();
    Joined(sign, exponent, 1, eb);
    Joined(Join(sign, exponent, eb), mantissa, 1 + eb, mb);
  }

  lemma PatternSign(f: Format, negative: bool, exponent: nat, mantissa: nat)
    requires exponent < Pow2(f.exponentBits) && mantissa < Pow2(f.mantissaBits)
    ensures negative ==> IsNegative(f, Pattern(f, negative, exponent, mantissa))
    ensures !negative ==> !IsNegative(f, Pattern(f, negative, exponent, mantissa))
  {
    hide Pow2, And, Shr, Join;
    var sign, eb, mb := if negative then 1 else 0, f.exponentBits, f.mantissaBits;
    SmallPowers();
    Joined(sign, exponent, 1, eb);
    Joined(Join(sign, exponent, eb), mantissa, 1 + eb, mb);
    ShrShr(Pattern(f, negative, exponent, mantissa), mb, eb);
  }

  function Infinity(f: Format, negative: bool): nat {
    Pattern(f, negative, Pow2(f.exponentBits) - 1, 0)
  }

  lemma InfinityFields(f: Format, negative: bool)
    ensures Infinity(f, negative) < Pow2(f.Bits()) && FullExponent(f, Infinity(f, negative))
    ensures Mantissa(f, Infinity(f, negative)) == 0 && (IsNegative(f, Infinity(f, negative)) <==> negative)
  {
    hide Pow2, Pattern, IsNegative, Exponent, Mantissa;
    PatternFields(f, negative, Pow2(f.exponentBits) - 1, 0);
    PatternSign(f, negative, Pow2(f.exponentBits) - 1, 0);
  }

  /** Either infinity lies beyond an integer exactly while that integer is nearer than 2^(bias + 1). */
  lemma InfinityCompared(f: Format, negative: bool, t: IntType, rhs: int)
    requires f.Valid() && t.Valid() && t.Holds(rhs)
    ensures Infinity(f, negative) < Pow2(f.Bits())
    ensures !negative ==> (Compare(f, Infinity(f, negative), t, rhs) == 1 <==> rhs < Pow2(f.Bias() + 1))
    ensures negative ==> (Compare(f, Infinity(f, negative), t, rhs) == -1 <==> -(Pow2(f.Bias() + 1) as int) < rhs)
  {
    hide Pow2, Infinity, Compare, Mantissa, FullExponent, IsNegative;
    var x, p, m := Infinity(f, negative), Pow2(f.mantissaBits), Pow2(f.Bias() + 1);
    InfinityFields(f, negative);
    FullExponentCompared(f, x, t, rhs);
    SameFactor(Side(f, x) * rhs, m, p);
  }

  lemma SameFactor(x: int, y: int, p: int)
    requires p >= 1
    ensures x * p < p * y <==> x < y
  {
    if x < y { MulMono(p, x + 1, y); } else { MulMono(p, y, x); }
  }

  /** NaNs compare like the infinity of their sign with every integer nearer than 2^(bias + 1). */
  lemma NaNLikeInfinity(f: Format, x: nat, t: IntType, rhs: int)
    requires f.Valid() && x < Pow2(f.Bits()) && FullExponent(f, x) && t.Valid() && t.Holds(rhs)
    requires -(Pow2(f.Bias() + 1) as int) < rhs < Pow2(f.Bias() + 1)
    ensures Compare(f, x, t, rhs) == Side(f, x)
  {
    hide Pow2, Compare, Mantissa, FullExponent, IsNegative;
    var p, q := Pow2(f.mantissaBits), Pow2(f.Bias() + 1);
    FullExponentCompared(f, x, t, rhs);
    SameFactor(Side(f, x) * rhs, q, p);
    MulMono(q, p, p + Mantissa(f, x));
  }

  /** 256-bit integers equal to the infinities of the single format. */
  lemma InfinityEqualsAnInteger()
    ensures FLOAT32.Valid() && IntType(256, false).Holds(Pow2(128)) && IntType(256, true).Holds(-(Pow2(128) as int))
    ensures Infinity(FLOAT32, false) < Pow2(FLOAT32.Bits()) && Infinity(FLOAT32, true) < Pow2(FLOAT32.Bits())
    ensures Compare(FLOAT32, Infinity(FLOAT32, false), IntType(256, false), Pow2(128)) == 0
    ensures Compare(FLOAT32, Infinity(FLOAT32, true), IntType(256, true), -(Pow2(128) as int)) == 0
  {
    hide Pow2, Infinity, Compare, Scaled, Unit;
    WordSizes();
    assert Pow2(7) == 128 by { SmallPowers(); Pow2Add(3, 3); Pow2Next(6); }
    Pow2StrictMono(128, 255);
    Pow2StrictMono(128, 256);
    InfinityAsNumber(FLOAT32, false);
    InfinityAsNumber(FLOAT32, true);
    CompareIsExact(FLOAT32, Infinity(FLOAT32, false), IntType(256, false), Pow2(128));
    CompareIsExact(FLOAT32, Infinity(FLOAT32, true), IntType(256, true), -(Pow2(128) as int));
  }

  /** 2^(bias + 1) is what an infinity compares as. */
  lemma InfinityAsNumber(f: Format, negative: bool)
    requires f.Valid()
    ensures Infinity(f, negative) < Pow2(f.Bits())
    ensures var m := Pow2(f.Bias() + 1) * Unit(f);
            Scaled(f, Infinity(f, negative)) == if negative then -m else m
  {
    hide Pow2, Infinity, Mantissa, Exponent, IsNegative;
    var x := Infinity(f, negative);
    InfinityFields(f, negative);
    TopExponent(f);
    Normal(f, x);
    MulRotate(Pow2(f.mantissaBits), Pow2(f.Bias() + 1), Pow2(f.Bias() - 1));
    MulAssoc(Pow2(f.Bias() + 1), Pow2(f.mantissaBits), Pow2(f.Bias() - 1));
    MulAssoc(Pow2(f.mantissaBits), Pow2(f.Bias() + 1), Pow2(f.Bias() - 1));
  }

  /** The widths of the two formats of the source. */
  lemma StandardFormats()
    ensures FLOAT32.Valid() && FLOAT32.Bits() == 32 && FLOAT32.Bias() == 127
    ensures FLOAT64.Valid() && FLOAT64.Bits() == 64 && FLOAT64.Bias() == 1023
  {
    SmallPowers();
    Pow2Add(3, 3);
    Pow2Next(6);
    Pow2Add(7, 3);
  }

  /** `float` and `double` against an integer of any type: the sign of the exact difference. */
  lemma FloatsCompared(x: nat, y: nat, t: IntType, rhs: int)
    requires x < Pow2(32) && y < Pow2(64) && t.Valid() && t.Holds(rhs)
    ensures FLOAT32.Valid() && Compare(FLOAT32, x, t, rhs) == Sign(Scaled(FLOAT32, x) - rhs * Unit(FLOAT32))
    ensures FLOAT64.Valid() && Compare(FLOAT64, y, t, rhs) == Sign(Scaled(FLOAT64, y) - rhs * Unit(FLOAT64))
  {
    hide Pow2, Compare, Scaled, Unit;
    StandardFormats();
    CompareIsExact(FLOAT32, x, t, rhs);
    CompareIsExact(FLOAT64, y, t, rhs);
  }

  // ---- Known patterns ----

  /** The fields by arithmetic: from the top, the sign, the exponent and the mantissa. */
  lemma FieldsAre(f: Format, x: nat)
    ensures Mantissa(f, x) == x % Pow2(f.mantissaBits)
    ensures Exponent(f, x) == (x / Pow2(f.mantissaBits)) % Pow2(f.exponentBits)
    ensures IsNegative(f, x) <==> x >= Pow2(f.exponentBits + f.mantissaBits)
  {
    hide And, Pow2;
    AndMask(x, f.mantissaBits);
    AndMask(Shr(x, f.mantissaBits), f.exponentBits);
    NonZeroQuotient(x, Pow2(f.exponentBits + f.mantissaBits));
  }

  lemma NonZeroQuotient(x: nat, p: nat)
    requires p >= 1
    ensures x / p != 0 <==> x >= p
  {
    DivModIdentity(x, p);
    if x < p { DivModUnique(x, p, 0, x); }
  }

  lemma PowerMagnitude(f: Format, x: nat, k: nat)
    requires f.Valid() && NormalizedExponent(f, x) == k && Mantissa(f, x) == 0
    ensures Magnitude(f, x) == Pow2(k) * Unit(f)
  {
    hide *;
    Normal(f, x);
    SwappedFactors(Pow2(f.mantissaBits), Pow2(k), Pow2(f.Bias() - 1));
  }

  lemma SwappedFactors(p: int, q: int, k: int)
    ensures ((p + 0) * q) * k == q * (p * k)
  {
    MulAssoc(q, p, k);
  }

  function PowerOf(negative: bool, k: nat): int {
    if negative then -(Pow2(k) as int) else Pow2(k)
  }

  /** With exponent bias + k and mantissa zero, the pattern equals 2^k or -2^k. */
  lemma PowersCompared(f: Format, negative: bool, k: nat, t: IntType)
    requires f.Valid() && k <= f.Bias() && t.Valid() && t.Holds(PowerOf(negative, k))
    ensures var x := Pattern(f, negative, f.Bias() + k, 0);
            x < Pow2(f.Bits()) && Compare(f, x, t, PowerOf(negative, k)) == 0
  {
    hide Pow2, Compare, Mantissa, Exponent, IsNegative, Pattern, Magnitude, Unit;
    var x := Pattern(f, negative, f.Bias() + k, 0);
    TopExponent(f);
    PatternFields(f, negative, f.Bias() + k, 0);
    PatternSign(f, negative, f.Bias() + k, 0);
    PowerMagnitude(f, x, k);
    SignedUnits(PowerOf(negative, k), Unit(f));
    CompareIsExact(f, x, t, PowerOf(negative, k));
  }

  /** 1 and -2 as a float, 1 as a double. */
  lemma KnownPatterns()
    ensures Pattern(FLOAT32, false, 127, 0) == 0x3F80_0000 && Pattern(FLOAT32, true, 128, 0) == 0xC000_0000
    ensures Pattern(FLOAT64, false, 1023, 0) == 0x3FF0_0000_0000_0000
  {
    hide Pow2;
    SmallPowers();
    WordSizes();
    Pow2Add(8, 3);
    Pow2Next(3);
    Pow2Add(4, 3);
    Pow2Add(16, 7);
    Pow2Add(32, 16);
    Pow2Add(48, 4);
  }
}
