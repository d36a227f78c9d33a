/** Powers and Euclidean division: the arithmetic every other module leans on. */
module Powers {

  function Pow(b: int, e: nat): int {
    if e == 0 then 1 else b * Pow(b, e - 1)
  }

  function Pow2(e: nat): (r: nat)
    ensures r >= 1
  {
    if e == 0 then 1 else 2 * Pow2(e - 1)
  }

  lemma {:induction false} PowAdd(b: int, e: nat, f: nat)
    ensures Pow(b, e + f) == Pow(b, e) * Pow(b, f)
  {
    if e == 0 {
    } else {
      PowAdd(b, e - 1, f);
      MulAssoc(b, Pow(b, e - 1), Pow(b, f));
    }
  }

  lemma {:induction false} PowPositive(b: nat, e: nat)
    requires b >= 1
    ensures Pow(b, e) >= 1
  {
    if e == 0 {
    } else {
      PowPositive(b, e - 1);
      MulMono(Pow(b, e - 1), 1, b);
    }
  }

  lemma {:induction false} PowMono(b: nat, e: nat, f: nat)
    requires b >= 1 && e <= f
    ensures 1 <= Pow(b, e) <= Pow(b, f)
  {
    PowPositive(b, e);
    PowPositive(b, f - e);
    PowAdd(b, e, f - e);
    MulMono(Pow(b, e), 1, Pow(b, f - e));
  }

  lemma {:induction false} Pow2Add(e: nat, f: nat)
    ensures Pow2(e + f) == Pow2(e) * Pow2(f)
  {
    if e == 0 {
    } else {
      Pow2Add(e - 1, f);
      MulAssoc(2, Pow2(e - 1), Pow2(f));
    }
  }

  lemma SmallPowers()
    ensures Pow2(0) == 1 && Pow2(1) == 2 && Pow2(2) == 4 && Pow2(3) == 8
  {
    assert Pow2(1) == 2;
    assert Pow2(2) == 4;
  }

  lemma Pow2Next(e: nat)
    ensures Pow2(e + 1) == 2 * Pow2(e)
  {
  }

  lemma {:induction false} Pow2Mono(e: nat, f: nat)
    requires e <= f
    ensures Pow2(e) <= Pow2(f)
  {
    if e == f {
    } else {
      Pow2Mono(e, f - 1);
    }
  }

  lemma Pow2StrictMono(e: nat, f: nat)
    requires e < f
    ensures 2 * Pow2(e) <= Pow2(f)
  {
    Pow2Mono(e + 1, f);
  }

  lemma AtLeastTwoBits(v: nat, len: nat)
    requires 2 <= v < Pow2(len)
    ensures len >= 2
  {
    SmallPowers();
  }

  predicate IsWordWidth(w: nat) { w == 8 || w == 16 || w == 32 || w == 64 || w == 128 }

  lemma WordSizes()
    ensures Pow2(8) == 0x100 && Pow2(16) == 0x1_0000 && Pow2(32) == 0x1_0000_0000
    ensures Pow2(64) == 0x1_0000_0000_0000_0000
    ensures Pow2(128) == 0x1_0000_0000_0000_0000_0000_0000_0000_0000
  {
    hide Pow2;
    SmallPowers();
    Pow2Next(3);
    Pow2Add(4, 4);
    Pow2Add(8, 8);
    Pow2Add(16, 16);
    Pow2Add(32, 32);
    Pow2Add(64, 64);
  }

  // ---- Products ----

  lemma MulAssoc(x: int, y: int, z: int)
    ensures (x * y) * z == x * (y * z)
  {
  }

  lemma MulSwapTwo(x: int, p: int)
    ensures 2 * (x * p) == x * (2 * p)
  {
  }

  lemma MulMono(x: int, y: int, z: int)
    requires 0 <= x && y <= z
    ensures x * y <= x * z
  {
  }

  lemma MulDistrib(x: int, y: int, z: int)
    ensures x * (y + z) == x * y + x * z
  {
  }

  /** A digit placed above a smaller part stays below the next power. */
  lemma DigitBound(low: int, digit: int, p: int, base: int)
    requires 0 <= low < p && 0 <= digit < base
    ensures low + digit * p < base * p
  {
    MulMono(p, digit + 1, base);
    MulDistrib(p, digit, 1);
  }

  /** Moving a common factor out of a digit's weight. */
  lemma DigitScale(x: int, d: int, p: int, q: int)
    ensures q * (x + d * p) == q * x + d * (q * p)
  {
    MulDistrib(q, x, d * p);
    assert q * (d * p) == d * (q * p);
  }

  lemma ProductBound(x: int, y: int, p: int, q: int)
    requires 0 <= x < p && 0 <= y < q
    ensures x * y < p * q
  {
    MulMono(x, y, q);
    MulMono(q, x + 1, p);
    MulDistrib(q, x, 1);
  }

  lemma ProductMono(x: int, y: int, p: int, q: int)
    requires 0 <= x <= p && 0 <= y <= q
    ensures x * y <= p * q
  {
    MulMono(x, y, q);
    MulMono(q, x, p);
  }

  // ---- Division ----

  /** Quotient and remainder are determined by the division equation. */
  lemma DivModUnique(x: int, d: int, q: int, r: int)
    requires 0 <= r < d && x == d * q + r
    ensures x / d == q && x % d == r
  {
    var q', r' := x / d, x % d;
    assert x == d * q' + r';
    assert d * (q - q') == r' - r;
    if q > q' {
      MulMono(d, 1, q - q');
      assert false;
    } else if q < q' {
      MulMono(d, q - q', -1);
      assert false;
    }
  }

  lemma DivNonneg(x: nat, d: nat)
    requires d > 0
    ensures x / d >= 0
  {
    if x / d < 0 { MulMono(d, x / d, -1); }
  }

  lemma DivModIdentity(x: nat, d: nat)
    requires d > 0
    ensures x == d * (x / d) + x % d && x / d >= 0 && 0 <= x % d < d
  {
  }

  lemma DivShrinks(x: nat, d: nat)
    requires d > 0
    ensures 0 <= x / d <= x
  {
    DivModIdentity(x, d);
    MulMono(x / d, 1, d);
  }

  lemma ModAtMost(x: nat, d: nat)
    requires d > 0
    ensures 0 <= x % d <= x && x % d < d
  {
    DivModIdentity(x, d);
    MulMono(d, 0, x / d);
  }

  lemma ModSelfMultiple(x: int, k: int, m: int)
    requires m > 0
    ensures (x + k * m) % m == x % m
    ensures (x + k * m) / m == x / m + k
  {
    assert x + k * m == m * (x / m + k) + x % m;
    DivModUnique(x + k * m, m, x / m + k, x % m);
  }

  lemma SmallMod(x: int, m: int)
    requires 0 <= x < m
    ensures x % m == x && x / m == 0
  {
    DivModUnique(x, m, 0, x);
  }

  /** Reducing a summand first does not change the residue of a sum. */
  lemma ModAdd(x: int, y: int, m: int)
    requires m > 0
    ensures (x % m + y) % m == (x + y) % m
  {
    assert x % m + y == x + y + (-(x / m)) * m;
    ModSelfMultiple(x + y, -(x / m), m);
  }

  /** Reducing a factor first does not change the residue of a product. */
  lemma ModMul(x: int, y: int, m: int)
    requires m > 0
    ensures ((x % m) * y) % m == (x * y) % m
  {
    var k := -((x / m) * y);
    calc {
      (x % m) * y;
      (x - m * (x / m)) * y;
      x * y - (m * (x / m)) * y;
      { MulAssoc(m, x / m, y); }
      x * y + k * m;
    }
    ModSelfMultiple(x * y, k, m);
  }

  /** Congruent numbers differ by a multiple of the modulus. */
  lemma ModDifference(x: int, y: int, m: int) returns (k: int)
    requires m > 0 && x % m == y % m
    ensures x == y + k * m
  {
    k := x / m - y / m;
    assert x == m * (x / m) + x % m;
    assert y == m * (y / m) + y % m;
  }

  /** Dividing twice is dividing by the product. */
  lemma DivDiv(x: int, d: int, e: int)
    requires d > 0 && e > 0
    ensures d * e > 0
    ensures x / d / e == x / (d * e)
    ensures x % (d * e) == d * (x / d % e) + x % d
  {
    MulMono(d, 1, e);
    var q := x / d / e;
    var r := x / d % e;
    assert x / d == e * q + r;
    MulMono(d, r, e - 1);
    assert x == d * (e * q + r) + x % d;
    assert d * (e * q) == (d * e) * q;
    DivModUnique(x, d * e, q, d * r + x % d);
  }

  lemma DivLess(x: int, d: int, b: int)
    requires d > 0 && 0 <= x < d * b
    ensures 0 <= x / d < b
  {
    assert x == d * (x / d) + x % d;
    if x / d >= b { MulMono(d, b, x / d); assert false; }
    if x / d < 0 { MulMono(d, x / d, -1); assert false; }
  }

  /** Multiplying by `p` what fits below `d * p`: the part of `x` above `d` overflows `d * p`. */
  lemma ShiftSplit(x: int, d: int, p: int)
    requires d > 0 && p > 0 && 0 <= x < d * p
    ensures 0 <= x / d < p
    ensures x * p == x / d * (d * p) + x % d * p
    ensures 0 <= x % d * p <= d * p - p
    ensures (x * p) % (d * p) == x % d * p
  {
    DivLess(x, d, p);
    ShiftSplitParts(x, d, p, x / d, x % d);
    DivModUnique(x * p, d * p, x / d, x % d * p);
  }

  lemma ShiftSplitParts(x: int, d: int, p: int, q: int, r: int)
    requires x == d * q + r && 0 <= r < d && p > 0
    ensures x * p == q * (d * p) + r * p
    ensures 0 <= r * p <= d * p - p
  {
    MulDistrib(p, d * q, r);
    MulRotate(p, d, q);
    MulMono(p, r, d - 1);
    MulDistrib(p, d, -1);
  }

  lemma MulRotate(x: int, y: int, z: int)
    ensures x * (y * z) == z * (y * x)
  {
  }

  /** A number has only one split into a digit and a part below its weight. */
  lemma DigitUnique(low: int, digit: int, low': int, digit': int, p: int)
    requires 0 <= low < p && 0 <= low' < p && low + digit * p == low' + digit' * p
    ensures low == low' && digit == digit'
  {
    DivModUnique(low + digit * p, p, digit, low);
    DivModUnique(low' + digit' * p, p, digit', low');
  }

  lemma DivCancel(x: int, d: int, p: int)
    requires d > 0 && p > 0
    ensures d * p > 0 && (x * p) / (d * p) == x / d
  {
    ShiftSplitParts(x, d, p, x / d, x % d);
    MulMono(d, 1, p);
    DivModUnique(x * p, d * p, x / d, x % d * p);
  }

  lemma DivMono(x: int, y: int, d: int)
    requires d > 0 && x <= y
    ensures x / d <= y / d
  {
    if x / d > y / d {
      MulMono(d, y / d + 1, x / d);
      MulDistrib(d, y / d, 1);
      assert false;
    }
  }

  // ---- Congruence ----

  lemma ModProduct(x: int, x': int, y: int, y': int, m: int)
    requires m > 0 && x % m == x' % m && y % m == y' % m
    ensures (x * y) % m == (x' * y') % m
  {
    ModMul(x, y, m);
    ModMul(x', y, m);
    ModMul(y, x', m);
    ModMul(y', x', m);
  }

  lemma ModSum(x: int, x': int, y: int, y': int, m: int)
    requires m > 0 && x % m == x' % m && y % m == y' % m
    ensures (x + y) % m == (x' + y') % m
  {
    ModAdd(x, y, m);
    ModAdd(x', y, m);
    ModAdd(y, x', m);
    ModAdd(y', x', m);
  }

  lemma ModTwice(x: int, m: int)
    requires m > 0
    ensures (x % m) % m == x % m
  {
    SmallMod(x % m, m);
  }

  /** Numbers congruent modulo a multiple of `d` are congruent modulo `d`. */
  lemma ModDivisor(x: int, y: int, d: int, e: int)
    requires d > 0 && e > 0 && d * e > 0 && x % (d * e) == y % (d * e)
    ensures x % d == y % d
  {
    var k := ModDifference(x, y, d * e);
    Regroup(k, d, e);
    ModSelfMultiple(y, e * k, d);
  }

  lemma Regroup(k: int, d: int, e: int)
    ensures k * (d * e) == (e * k) * d
  {
  }

  lemma ShiftModulo(v: int, d: int, p: int)
    requires d > 0 && p > 0
    ensures d * p > 0 && (v * p) % (d * p) == v % d * p
  {
    MulMono(d, 1, p);
    var q, r := v / d, v % d;
    assert v == d * q + r;
    ShiftSplitParts(v, d, p, q, r);
    DivModUnique(v * p, d * p, q, r * p);
  }
}
