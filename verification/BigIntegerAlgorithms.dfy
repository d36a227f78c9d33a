/** base/libbiginteger: gcd, extendedEuclidean, modinv, modexp. */
module BigIntegerAlgorithms {
  import opened Powers
  import opened Bits
  import opened Blocks
  import opened BigUnsigneds
  import opened BigIntegers

  // ---- Divisibility ----

  ghost predicate Divides(d: int, x: int) {
    exists k :: x == d * k
  }

  ghost predicate CommonDivisor(d: int, x: int, y: int) {
    Divides(d, x) && Divides(d, y)
  }

  /** `g` is a common divisor that every common divisor divides. */
  ghost predicate IsGcd(g: int, x: int, y: int) {
    CommonDivisor(g, x, y) && forall d :: CommonDivisor(d, x, y) ==> Divides(d, g)
  }

  ghost predicate SameDivisors(x: int, y: int, x': int, y': int) {
    forall d :: CommonDivisor(d, x, y) <==> CommonDivisor(d, x', y')
  }

  lemma DividesCombination(d: int, x: int, y: int, u: int, v: int)
    requires CommonDivisor(d, x, y)
    ensures Divides(d, u * x + v * y)
  {
    var i :| x == d * i;
    var j :| y == d * j;
    CombinationInts(d, i, j, u, v);
    assert u * x + v * y == d * (u * i + v * j);
  }

  lemma CombinationInts(d: int, i: int, j: int, u: int, v: int)
    ensures u * (d * i) + v * (d * j) == d * (u * i + v * j)
  {
  }

  /** A division step keeps the common divisors. */
  lemma DivisionKeepsDivisors(x: int, y: int, q: int, r: int)
    requires x == y * q + r
    ensures SameDivisors(x, y, r, y)
  {
    hide Divides;
    forall d ensures CommonDivisor(d, x, y) <==> CommonDivisor(d, r, y) {
      if CommonDivisor(d, x, y) {
        DividesCombination(d, x, y, 1, -q);
        assert 1 * x + -q * y == r;
      }
      if CommonDivisor(d, r, y) {
        DividesCombination(d, r, y, 1, q);
        assert 1 * r + q * y == x;
      }
    }
  }

  lemma GcdWithZero(x: int)
    ensures IsGcd(x, x, 0) && IsGcd(x, 0, x)
  {
    assert x == x * 1 && 0 == x * 0;
  }

  lemma GcdTransfers(g: int, x: int, y: int, x': int, y': int)
    requires IsGcd(g, x', y') && SameDivisors(x, y, x', y')
    ensures IsGcd(g, x, y)
  {
  }

  // ---- gcd ----

  method Gcd(a0: BigUnsigned, b0: BigUnsigned) returns (g: BigUnsigned)
    requires a0.Valid() && b0.Valid()
    ensures g.Valid() && IsGcd(g.Value(), a0.Value(), b0.Value())
  {
    hide Val, Canonical, IsGcd, SameDivisors, CommonDivisor;
    ghost var x, y := a0.Value(), b0.Value();
    var a := new BigUnsigned.Copy(a0);
    var b := new BigUnsigned.Copy(b0);
    var trash := new BigUnsigned();
    SameDivisorsRefl(x, y);
    while true
      invariant fresh(a) && fresh(b) && fresh(trash) && fresh(a.blk) && fresh(b.blk) && fresh(trash.blk)
      invariant a != b && b != trash && a != trash && a.blk != b.blk && b.blk != trash.blk && a.blk != trash.blk
      invariant a.Valid() && b.Valid()
      invariant SameDivisors(x, y, a.Value(), b.Value())
      decreases b.Value()
    {
      ZeroLength(b);
      if b.len == 0 {
        GcdWithZero(a.Value());
        GcdTransfers(a.Value(), x, y, a.Value(), 0);
        return a;
      }
      EuclidStepUnsigned(a, b, trash, x, y);
      ZeroLength(a);
      if a.len == 0 {
        GcdWithZero(b.Value());
        GcdTransfers(b.Value(), x, y, 0, b.Value());
        return b;
      }
      SameDivisorsSwap(x, y, a.Value(), b.Value());
      EuclidStepUnsigned(b, a, trash, x, y);
      SameDivisorsSwap(x, y, b.Value(), a.Value());
    }
  }

  lemma SameDivisorsRefl(x: int, y: int)
    ensures SameDivisors(x, y, x, y)
  {
  }

  lemma SameDivisorsSwap(x: int, y: int, x': int, y': int)
    ensures SameDivisors(x, y, x', y') <==> SameDivisors(x, y, y', x')
  {
  }

  lemma SameDivisorsStep(x: int, y: int, a: int, b: int, q: int, r: int)
    requires SameDivisors(x, y, a, b) && a == b * q + r
    ensures SameDivisors(x, y, r, b)
  {
    DivisionKeepsDivisors(a, b, q, r);
  }

  method EuclidStepUnsigned(a: BigUnsigned, b: BigUnsigned, trash: BigUnsigned, ghost x: int, ghost y: int)
    requires a.Valid() && b.Valid() && b.Value() > 0 && SameDivisors(x, y, a.Value(), b.Value())
    requires a != b && b != trash && a != trash && a.blk != b.blk && b.blk != trash.blk && a.blk != trash.blk
    modifies a, a.blk, trash, trash.blk
    ensures a.Valid() && a.Value() < b.Value() && SameDivisors(x, y, a.Value(), b.Value())
    ensures a.blk == old(a.blk) || fresh(a.blk)
    ensures trash.blk == old(trash.blk) || fresh(trash.blk)
    ensures a.blk != trash.blk
  {
    hide Val, Canonical, SameDivisors;
    ghost var v := a.Value();
    var _ := a.DivideWithRemainder(b, trash);
    SameDivisorsStep(x, y, v, b.Value(), v / b.Value(), v % b.Value());
  }

  // ---- extendedEuclidean ----

  twostate predicate FreshNumber(new x: BigInteger)
    reads x, x.mag
  {
    fresh(x) && fresh(x.mag) && fresh(x.mag.blk)
  }

  /** The effect of `x -= q * y` on a local. */
  method MinusProduct(x: BigInteger, q: BigInteger, y: BigInteger) returns (z: BigInteger)
    requires x.Valid() && q.Valid() && y.Valid()
    ensures fresh(z) && FreshNumber(z) && z.Valid()
    ensures z.Value() == x.Value() - q.Value() * y.Value()
  {
    hide Val, Canonical;
    var t := new BigInteger();
    z := new BigInteger();
    t.Multiply(q, y);
    z.Subtract(x, t);
  }

  /** The effect of `x.divideWithRemainder(y, q)` on locals. */
  method FlooredDivide(x: BigInteger, y: BigInteger) returns (q: BigInteger, r: BigInteger)
    requires x.Valid() && y.Valid()
    ensures fresh(q) && FreshNumber(q) && q.Valid()
    ensures fresh(r) && FreshNumber(r) && r.Valid()
    ensures IsFlooredDivision(x.Value(), y.Value(), q.Value(), r.Value())
  {
    hide IsFlooredDivision, Val, Canonical;
    q := new BigInteger();
    r := new BigInteger.Copy(x);
    var _ := r.DivideWithRemainder(y, q);
  }

  /** r * m + s * n == g, and |g| is the greatest common divisor. */
  ghost predicate IsBezout(m: int, n: int, g: int, r: int, s: int) {
    && r * m + s * n == g
    && IsGcd(g, m, n)
    && (n > 0 ==> g > 0)
    && (n < 0 ==> g < 0)
    && (n == 0 ==> g == m)
  }

  /** The state of the loop: two rows that keep the originals' combinations, divisors and sign. */
  ghost predicate EuclidRows(M: int, L: int, m: int, r1: int, s1: int, n: int, r2: int, s2: int) {
    && r1 * M + s1 * L == m
    && r2 * M + s2 * L == n
    && SameDivisors(M, L, m, n)
    && (L > 0 ==> n >= 0 && (n == 0 ==> m > 0))
    && (L < 0 ==> n <= 0 && (n == 0 ==> m < 0))
    && (L == 0 ==> n == 0 && m == M)
  }

  /** After half a round the roles are swapped; zero in the first row ends the loop. */
  ghost predicate EuclidRowsHalf(M: int, L: int, m: int, r1: int, s1: int, n: int, r2: int, s2: int) {
    && r1 * M + s1 * L == m
    && r2 * M + s2 * L == n
    && SameDivisors(M, L, m, n)
    && L != 0
    && (L > 0 ==> 0 <= m < n)
    && (L < 0 ==> n < m <= 0)
  }

  lemma RowStep(M: int, L: int, m: int, r1: int, s1: int, n: int, r2: int, s2: int, q: int, m': int)
    requires r1 * M + s1 * L == m && r2 * M + s2 * L == n && m == n * q + m'
    ensures (r1 - q * r2) * M + (s1 - q * s2) * L == m'
  {
    assert (r1 - q * r2) * M == r1 * M - q * (r2 * M);
    assert (s1 - q * s2) * L == s1 * L - q * (s2 * L);
    MulDistrib(q, r2 * M, s2 * L);
  }

  lemma FirstHalf(M: int, L: int, m: int, r1: int, s1: int, n: int, r2: int, s2: int, q: int, m': int)
    requires EuclidRows(M, L, m, r1, s1, n, r2, s2) && n != 0 && IsFlooredDivision(m, n, q, m')
    ensures EuclidRowsHalf(M, L, m', r1 - q * r2, s1 - q * s2, n, r2, s2)
  {
    hide SameDivisors;
    RowStep(M, L, m, r1, s1, n, r2, s2, q, m');
    SameDivisorsStep(M, L, m, n, q, m');
  }

  lemma SecondHalf(M: int, L: int, m: int, r1: int, s1: int, n: int, r2: int, s2: int, q: int, n': int)
    requires EuclidRowsHalf(M, L, m, r1, s1, n, r2, s2) && m != 0 && IsFlooredDivision(n, m, q, n')
    ensures EuclidRows(M, L, m, r1, s1, n', r2 - q * r1, s2 - q * s1)
    ensures Magnitude(n') < Magnitude(n)
  {
    hide SameDivisors;
    RowStep(M, L, n, r2, s2, m, r1, s1, q, n');
    SameDivisorsSwap(M, L, m, n);
    SameDivisorsStep(M, L, n, m, q, n');
    SameDivisorsSwap(M, L, n', m);
  }

  function Magnitude(x: int): nat { if x < 0 then -x else x }

  lemma RowsStart(M: int, L: int)
    ensures EuclidRows(M, L, M, 1, 0, L, 0, 1)
  {
  }

  lemma RowsDone(M: int, L: int, m: int, r1: int, s1: int, r2: int, s2: int)
    requires EuclidRows(M, L, m, r1, s1, 0, r2, s2)
    ensures IsBezout(M, L, m, r1, s1)
  {
    hide IsGcd, SameDivisors;
    GcdWithZero(m);
    GcdTransfers(m, M, L, m, 0);
  }

  lemma RowsHalfDone(M: int, L: int, r1: int, s1: int, n: int, r2: int, s2: int)
    requires EuclidRowsHalf(M, L, 0, r1, s1, n, r2, s2)
    ensures IsBezout(M, L, n, r2, s2)
  {
    hide IsGcd, SameDivisors;
    GcdWithZero(n);
    GcdTransfers(n, M, L, 0, n);
  }

  lemma ZeroSign(x: BigInteger)
    requires x.Valid()
    ensures x.sign.Zero? <==> x.Value() == 0
  {
  }

  method ExtendedEuclidean(m0: BigInteger, n0: BigInteger, g: BigInteger, r: BigInteger, s: BigInteger)
    returns (ok: bool)
    requires m0.Valid() && n0.Valid() && g.Apart(r) && g.Apart(s) && r.Apart(s)
    modifies g, g.mag, g.mag.blk, r, r.mag, r.mag.blk, s, s.mag, s.mag.blk
    ensures ok <==> g != r && g != s && r != s
    ensures ok ==> g.Valid() && r.Valid() && s.Valid()
    ensures ok ==> IsBezout(old(m0.Value()), old(n0.Value()), g.Value(), r.Value(), s.Value())
    ensures g.mag.blk == old(g.mag.blk) || fresh(g.mag.blk)
    ensures r.mag.blk == old(r.mag.blk) || fresh(r.mag.blk)
    ensures s.mag.blk == old(s.mag.blk) || fresh(s.mag.blk)
  {
    if g == r || g == s || r == s { return false; }
    ok := true;
    hide IsBezout, BigInteger.Valid, BigInteger.Value;
    var g', r', s' := EuclidLoop(m0, n0);
    AssignOutputs(g, g', r, r', s, s');
  }

  ghost predicate NoSharing(x: BigInteger, y: BigInteger)
    reads x, x.mag, y, y.mag
  {
    x != y && x.mag != y.mag && x.mag.blk != y.mag.blk
  }

  method AssignOutputs(g: BigInteger, g': BigInteger, r: BigInteger, r': BigInteger, s: BigInteger, s': BigInteger)
    requires g'.Valid() && r'.Valid() && s'.Valid()
    requires NoSharing(g, r) && NoSharing(g, s) && NoSharing(r, s)
    requires NoSharing(g, g') && NoSharing(g, r') && NoSharing(g, s')
    requires NoSharing(r, g') && NoSharing(r, r') && NoSharing(r, s')
    requires NoSharing(s, g') && NoSharing(s, r') && NoSharing(s, s')
    modifies g, g.mag, g.mag.blk, r, r.mag, r.mag.blk, s, s.mag, s.mag.blk
    ensures g.Valid() && g.Value() == old(g'.Value())
    ensures r.Valid() && r.Value() == old(r'.Value())
    ensures s.Valid() && s.Value() == old(s'.Value())
    ensures g.mag.blk == old(g.mag.blk) || fresh(g.mag.blk)
    ensures r.mag.blk == old(r.mag.blk) || fresh(r.mag.blk)
    ensures s.mag.blk == old(s.mag.blk) || fresh(s.mag.blk)
  {
    hide BigInteger.Valid, BigInteger.Value;
    r.Assign(r');
    s.Assign(s');
    g.Assign(g');
  }

  ghost predicate Row(m: BigInteger, r: BigInteger, s: BigInteger)
    reads m, m.mag, m.mag.blk, r, r.mag, r.mag.blk, s, s.mag, s.mag.blk
  {
    m.Valid() && r.Valid() && s.Valid()
  }

  /** Subtracts `q` times the second row from the first. */
  method HalfStep(m: BigInteger, r1: BigInteger, s1: BigInteger, n: BigInteger, r2: BigInteger, s2: BigInteger)
    returns (m': BigInteger, r1': BigInteger, s1': BigInteger, ghost q: int)
    requires Row(m, r1, s1) && Row(n, r2, s2)
    ensures Row(m', r1', s1') && fresh(m') && FreshNumber(m') && FreshNumber(r1') && FreshNumber(s1')
    ensures IsFlooredDivision(m.Value(), n.Value(), q, m'.Value())
    ensures r1'.Value() == r1.Value() - q * r2.Value()
    ensures s1'.Value() == s1.Value() - q * s2.Value()
  {
    hide IsFlooredDivision, BigInteger.Valid, BigInteger.Value;
    var quotient;
    quotient, m' := FlooredDivide(m, n);
    r1' := MinusProduct(r1, quotient, r2);
    s1' := MinusProduct(s1, quotient, s2);
    q := quotient.Value();
  }

  method FirstHalfStep(m: BigInteger, r1: BigInteger, s1: BigInteger,
                       n: BigInteger, r2: BigInteger, s2: BigInteger, ghost M: int, ghost L: int)
    returns (m': BigInteger, r1': BigInteger, s1': BigInteger)
    requires Row(m, r1, s1) && Row(n, r2, s2) && n.Value() != 0
    requires EuclidRows(M, L, m.Value(), r1.Value(), s1.Value(), n.Value(), r2.Value(), s2.Value())
    ensures Row(m', r1', s1') && fresh(m') && FreshNumber(m') && FreshNumber(r1') && FreshNumber(s1')
    ensures EuclidRowsHalf(M, L, m'.Value(), r1'.Value(), s1'.Value(), n.Value(), r2.Value(), s2.Value())
  {
    hide BigInteger.Valid, BigInteger.Value, EuclidRows, EuclidRowsHalf, IsFlooredDivision;
    ghost var q;
    m', r1', s1', q := HalfStep(m, r1, s1, n, r2, s2);
    FirstHalf(M, L, m.Value(), r1.Value(), s1.Value(), n.Value(), r2.Value(), s2.Value(), q, m'.Value());
  }

  method SecondHalfStep(m: BigInteger, r1: BigInteger, s1: BigInteger,
                        n: BigInteger, r2: BigInteger, s2: BigInteger, ghost M: int, ghost L: int)
    returns (n': BigInteger, r2': BigInteger, s2': BigInteger)
    requires Row(m, r1, s1) && Row(n, r2, s2) && m.Value() != 0
    requires EuclidRowsHalf(M, L, m.Value(), r1.Value(), s1.Value(), n.Value(), r2.Value(), s2.Value())
    ensures Row(n', r2', s2') && fresh(n') && FreshNumber(n') && FreshNumber(r2') && FreshNumber(s2')
    ensures EuclidRows(M, L, m.Value(), r1.Value(), s1.Value(), n'.Value(), r2'.Value(), s2'.Value())
    ensures Magnitude(n'.Value()) < Magnitude(n.Value())
  {
    hide BigInteger.Valid, BigInteger.Value, EuclidRows, EuclidRowsHalf, IsFlooredDivision;
    ghost var q;
    n', r2', s2', q := HalfStep(n, r2, s2, m, r1, s1);
    SecondHalf(M, L, m.Value(), r1.Value(), s1.Value(), n.Value(), r2.Value(), s2.Value(), q, n'.Value());
  }

  method FirstRows(m0: BigInteger, n0: BigInteger)
    returns (m: BigInteger, r1: BigInteger, s1: BigInteger, n: BigInteger, r2: BigInteger, s2: BigInteger)
    requires m0.Valid() && n0.Valid()
    ensures Row(m, r1, s1) && fresh(m) && FreshNumber(m) && FreshNumber(r1) && FreshNumber(s1)
    ensures Row(n, r2, s2) && fresh(n) && FreshNumber(n) && FreshNumber(r2) && FreshNumber(s2)
    ensures EuclidRows(m0.Value(), n0.Value(), m.Value(), r1.Value(), s1.Value(), n.Value(), r2.Value(), s2.Value())
  {
    hide BigInteger.Valid, BigInteger.Value, EuclidRows, Val, BPow, Canonical, Pow2;
    OneFits();
    m := new BigInteger.Copy(m0);
    n := new BigInteger.Copy(n0);
    r1 := new BigInteger.FromPrimitive(1);
    s1 := new BigInteger.FromPrimitive(0);
    r2 := new BigInteger.FromPrimitive(0);
    s2 := new BigInteger.FromPrimitive(1);
    RowsStart(m0.Value(), n0.Value());
  }

  /** The loop and its locals; the in-place updates of locals become new values. */
  method EuclidLoop(m0: BigInteger, n0: BigInteger) returns (g: BigInteger, r: BigInteger, s: BigInteger)
    requires m0.Valid() && n0.Valid()
    ensures Row(g, r, s) && fresh(g) && FreshNumber(g) && FreshNumber(r) && FreshNumber(s)
    ensures IsBezout(m0.Value(), n0.Value(), g.Value(), r.Value(), s.Value())
  {
    hide BigInteger.Valid, BigInteger.Value, EuclidRows, EuclidRowsHalf, IsBezout, Magnitude;
    ghost var M, L := m0.Value(), n0.Value();
    var m, r1, s1, n, r2, s2 := FirstRows(m0, n0);
    while true
      invariant Row(m, r1, s1) && Row(n, r2, s2)
      invariant FreshNumber(m) && FreshNumber(r1) && FreshNumber(s1)
      invariant FreshNumber(n) && FreshNumber(r2) && FreshNumber(s2)
      invariant EuclidRows(M, L, m.Value(), r1.Value(), s1.Value(), n.Value(), r2.Value(), s2.Value())
      decreases Magnitude(n.Value())
    {
      ZeroSign(n);
      if n.sign == Zero {
        RowsDone(M, L, m.Value(), r1.Value(), s1.Value(), r2.Value(), s2.Value());
        return m, r1, s1;
      }
      m, r1, s1 := FirstHalfStep(m, r1, s1, n, r2, s2, M, L);
      ZeroSign(m);
      if m.sign == Zero {
        RowsHalfDone(M, L, r1.Value(), s1.Value(), n.Value(), r2.Value(), s2.Value());
        return n, r2, s2;
      }
      n, r2, s2 := SecondHalfStep(m, r1, s1, n, r2, s2, M, L);
    }
  }

  lemma OneFits()
    ensures 1 < B
  {
    assert B == 2 * Pow2(N - 1);
  }

  // ---- modinv ----

  lemma UnitGcd(g: int, x: int, y: int)
    requires g > 0 && IsGcd(g, x, y)
    ensures g == 1 <==> IsGcd(1, x, y)
  {
    if IsGcd(1, x, y) {
      assert Divides(g, 1);
      var k :| 1 == g * k;
      if k <= 0 { MulMono(g, k, 0); assert false; }
      MulMono(k, 1, g);
    }
  }

  lemma InverseFromBezout(x: int, n: int, r: int, s: int, q: int, v: int)
    requires n > 0 && r * x + s * n == 1 && r == n * q + v
    ensures (v * x) % n == 1 % n
  {
    InverseInts(x, n, r, s, q, v);
    ModSelfMultiple(1, -(s + q * x), n);
  }

  lemma InverseInts(x: int, n: int, r: int, s: int, q: int, v: int)
    requires r * x + s * n == 1 && r == n * q + v
    ensures v * x == 1 + (-(s + q * x)) * n
  {
    assert (n * q + v) * x == (q * x) * n + v * x;
    MulDistrib(n, s, q * x);
  }

  /** `%` of BigInteger: throws on zero, otherwise the floored remainder. */
  method Modulo(x: BigInteger, y: BigInteger) returns (ok: bool, r: BigInteger)
    requires x.Valid() && y.Valid()
    ensures fresh(r) && FreshNumber(r) && r.Valid()
    ensures ok <==> y.Value() != 0
    ensures ok ==> exists q :: IsFlooredDivision(x.Value(), y.Value(), q, r.Value())
  {
    hide BigInteger.Valid, BigInteger.Value;
    ZeroSign(y);
    if y.sign == Zero {
      r := new BigInteger();
      return false, r;
    }
    var q;
    q, r := FlooredDivide(x, y);
    ok := true;
  }

  /** The three outputs as new objects. */
  method FreshEuclidean(m: BigInteger, n: BigInteger) returns (g: BigInteger, r: BigInteger, s: BigInteger)
    requires m.Valid() && n.Valid()
    ensures Row(g, r, s) && fresh(g) && FreshNumber(g) && FreshNumber(r) && FreshNumber(s)
    ensures IsBezout(m.Value(), n.Value(), g.Value(), r.Value(), s.Value())
  {
    hide BigInteger.Valid, BigInteger.Value, IsBezout;
    g := new BigInteger();
    r := new BigInteger();
    s := new BigInteger();
    var _ := ExtendedEuclidean(m, n, g, r, s);
  }

  /** The inverse of `x` modulo `n`; throws exactly when there is none to return. */
  method ModInv(x: BigInteger, n: BigUnsigned) returns (ok: bool, inv: BigUnsigned)
    requires x.Valid() && n.Valid()
    ensures ok <==> n.Value() > 0 && IsGcd(1, x.Value(), n.Value())
    ensures ok ==> inv.Valid() && inv.Value() < n.Value() && (inv.Value() * x.Value()) % n.Value() == 1 % n.Value()
  {
    OneFits();
    hide BigInteger.Valid, BigInteger.Value, IsBezout, IsGcd, IsFlooredDivision, Val, Canonical;
    var n' := new BigInteger.FromUnsigned(n);
    ghost var xv, nv := x.Value(), n.Value();
    var g, r, s := FreshEuclidean(x, n');
    ghost var gv, rv, sv := g.Value(), r.Value(), s.Value();
    var one := new BigInteger.FromPrimitive(1);
    var unit := g.Equals(one);
    if nv > 0 { UnitDecides(xv, nv, gv, rv, sv); }
    inv := new BigUnsigned();
    if !unit { return false, inv; }
    var v;
    ok, v := Modulo(r, n');
    if ok {
      InverseCorrect(xv, nv, rv, sv, v.Value());
      NonnegativeMagnitude(v);
      inv := new BigUnsigned.Copy(v.mag);
    }
  }

  lemma UnitDecides(x: int, n: int, g: int, r: int, s: int)
    requires n > 0 && IsBezout(x, n, g, r, s)
    ensures g == 1 <==> IsGcd(1, x, n)
  {
    hide IsGcd;
    UnitGcd(g, x, n);
  }

  lemma InverseCorrect(x: int, n: int, r: int, s: int, v: int)
    requires n > 0 && IsBezout(x, n, 1, r, s) && exists q :: IsFlooredDivision(r, n, q, v)
    ensures 0 <= v < n && (v * x) % n == 1 % n
  {
    hide IsGcd;
    var q :| IsFlooredDivision(r, n, q, v);
    InverseFromBezout(x, n, r, s, q, v);
  }

  lemma FlooredFacts(a: int, b: int, q: int, r: int)
    requires IsFlooredDivision(a, b, q, r) && b > 0
    ensures a == b * q + r && 0 <= r < b && r == a % b
  {
    DivModUnique(a, b, q, r);
  }

  lemma NonnegativeMagnitude(x: BigInteger)
    requires x.Valid() && x.Value() >= 0
    ensures x.mag.Valid() && x.mag.Value() == x.Value()
  {
  }

  // ---- modexp ----

  /** What modexp returns: the power modulo `m`, except that exponent 0 gives an unreduced 1. */
  function ModPower(base: int, e: nat, m: nat): int
    requires m > 0
  {
    if e == 0 then 1 else Pow(base, e) % m
  }

  /** It is the power modulo `m` for every input but modulus 1 with exponent 0. */
  lemma ModPowerExact(base: int, e: nat, m: nat)
    requires m > 0
    ensures ModPower(base, e, m) == Pow(base, e) % m <==> !(m == 1 && e == 0)
  {
    if e == 0 && m > 1 { SmallMod(1, m); }
  }

  method MulMod(ans: BigUnsigned, x: BigUnsigned, m: BigUnsigned)
    requires ans.Valid() && x.Valid() && m.Valid() && m.Value() > 0
    requires ans.Apart(x) && ans != m && ans.blk != m.blk
    modifies ans, ans.blk
    ensures ans.Valid() && ans.Value() == (old(ans.Value()) * old(x.Value())) % m.Value()
    ensures ans.blk == old(ans.blk) || fresh(ans.blk)
  {
    hide Val, Canonical;
    ans.Multiply(ans, x);
    var q := new BigUnsigned();
    var _ := ans.DivideWithRemainder(m, q);
  }

  lemma SquareStep(base: int, k: nat, ans: int, m: nat)
    requires m > 0 && ans % m == Pow(base, k) % m
    ensures (ans * ans) % m == Pow(base, 2 * k) % m
  {
    PowAdd(base, k, k);
    ModProduct(ans, Pow(base, k), ans, Pow(base, k), m);
  }

  lemma MultiplyStep(base: int, base2: int, k: nat, ans: int, m: nat)
    requires m > 0 && base2 == base % m && ans % m == Pow(base, k) % m
    ensures (ans * base2) % m == Pow(base, k + 1) % m
  {
    SmallMod(base % m, m);
    ModProduct(ans, Pow(base, k), base2, base, m);
    assert Pow(base, k + 1) == base * Pow(base, k);
  }

  method ModExp(base: BigInteger, exponent: BigUnsigned, modulus: BigUnsigned) returns (ok: bool, ans: BigUnsigned)
    requires base.Valid() && exponent.Valid() && modulus.Valid()
    ensures ok <==> modulus.Value() != 0
    ensures ok ==> ans.Valid() && ans.Value() == ModPower(base.Value(), exponent.Value(), modulus.Value())
  {
    OneFits();
    hide BigInteger.Valid, IsFlooredDivision, Val, Canonical;
    ans := new BigUnsigned();
    ans.AssignPrimitive(1);
    var modulus' := new BigInteger.FromUnsigned(modulus);
    var b;
    ok, b := Modulo(base, modulus');
    if !ok { return; }
    ghost var q :| IsFlooredDivision(base.Value(), modulus'.Value(), q, b.Value());
    FlooredFacts(base.Value(), modulus.Value(), q, b.Value());
    NonnegativeMagnitude(b);
    var base2 := new BigUnsigned.Copy(b.mag);
    PowerLoop(base.Value(), base2, exponent, modulus, ans);
  }

  /** For each bit of the exponent, most to least significant: square, and multiply if it is 1. */
  method PowerLoop(ghost base: int, base2: BigUnsigned, exponent: BigUnsigned, modulus: BigUnsigned, ans: BigUnsigned)
    requires base2.Valid() && exponent.Valid() && modulus.Valid() && ans.Valid() && modulus.Value() > 0
    requires ans.Value() == 1 && base2.Value() == base % modulus.Value()
    requires ans != base2 && ans != exponent && ans != modulus
    requires ans.blk != base2.blk && ans.blk != exponent.blk && ans.blk != modulus.blk
    modifies ans, ans.blk
    ensures ans.Valid() && ans.Value() == ModPower(base, exponent.Value(), modulus.Value())
  {
    hide Val, Canonical, Pow, Bit, Shr, Pow2;
    ghost var e, m := exponent.Value(), modulus.Value();
    var i := exponent.BitLength();
    ghost var n := i;
    PowerStart(base, e, n, m);
    while i > 0
      invariant 0 <= i <= n && ans.Valid() && (ans.blk == old(ans.blk) || fresh(ans.blk))
      invariant ans.Value() % m == Pow(base, Shr(e, i)) % m
      invariant if i < n then ans.Value() < m else ans.Value() == 1
    {
      SquareStep(base, Shr(e, i), ans.Value(), m);
      i := i - 1;
      ShrNext(e, i);
      MulMod(ans, ans, modulus);
      SmallMod(ans.Value(), m);
      var bit := exponent.GetBit(i);
      if bit {
        MultiplyStep(base, base2.Value(), 2 * Shr(e, i + 1), ans.Value(), m);
        MulMod(ans, base2, modulus);
        SmallMod(ans.Value(), m);
      }
    }
    PowerEnd(base, e, m);
    if n > 0 { SmallMod(ans.Value(), m); }
    assert n == 0 ==> ans.Value() == 1;
  }

  lemma PowerStart(base: int, e: nat, n: nat, m: nat)
    requires e < Pow2(n) && m > 0
    ensures 1 % m == Pow(base, Shr(e, n)) % m
  {
    SmallMod(e, Pow2(n));
  }

  lemma PowerEnd(base: int, e: nat, m: nat)
    ensures Shr(e, 0) == e && Pow(base, 0) == 1
  {
  }

  /** Modulus 1 with exponent 0: the answer is 1, which is not below the modulus. */
  method UnreducedPower(base: BigInteger) returns (ans: BigUnsigned)
    requires base.Valid()
    ensures ans.Valid() && ans.Value() == 1
    ensures ans.Value() != Pow(base.Value(), 0) % 1
  {
    OneFits();
    hide Val, Canonical, BigInteger.Valid;
    var zero := new BigUnsigned();
    var one := new BigUnsigned();
    one.AssignPrimitive(1);
    var ok;
    ok, ans := ModExp(base, zero, one);
    ModPowerExact(base.Value(), 0, 1);
  }
}
