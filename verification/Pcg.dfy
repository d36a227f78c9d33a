/** base/pcg-random/pcg_random.hpp: the linear congruential engine. */
module Pcg {
  import opened Powers
  import opened Bits

  /** One step of the generator modulo `m`. */
  function Bump(state: nat, mult: nat, inc: nat, m: nat): (r: nat)
    requires m > 0
    ensures r < m
  {
    (state * mult + inc) % m
  }

  /** `n` steps. */
  function Steps(state: nat, n: nat, mult: nat, inc: nat, m: nat): (r: nat)
    requires m > 0 && state < m
    ensures r < m
  {
    if n == 0 then state else Bump(Steps(state, n - 1, mult, inc, m), mult, inc, m)
  }

  /** The additive part of `n` steps, over the integers. */
  ghost function Plus(a: int, c: int, n: nat): int {
    if n == 0 then 0 else Plus(a, c, n - 1) * a + c
  }

  /** `n` steps are one affine map. */
  lemma {:induction false} StepsAffine(s: nat, n: nat, a: nat, c: nat, m: nat)
    requires m > 0 && s < m
    ensures Steps(s, n, a, c, m) == (Pow(a, n) * s + Plus(a, c, n)) % m
  {
    if n == 0 {
      SmallMod(s, m);
    } else {
      StepsAffine(s, n - 1, a, c, m);
      var p, q := Pow(a, n - 1), Plus(a, c, n - 1);
      ModMul(p * s + q, a, m);
      ModAdd((p * s + q) % m * a, c, m);
      ModAdd((p * s + q) * a, c, m);
      AffineStepInts(p, q, s, a, c);
    }
  }

  lemma AffineStepInts(p: int, q: int, s: int, a: int, c: int)
    ensures (p * s + q) * a + c == (a * p) * s + (q * a + c)
  {
  }

  lemma {:induction false} StepsAdd(s: nat, i: nat, j: nat, a: nat, c: nat, m: nat)
    requires m > 0 && s < m
    ensures Steps(s, i + j, a, c, m) == Steps(Steps(s, i, a, c, m), j, a, c, m)
  {
    if j == 0 {
    } else {
      StepsAdd(s, i, j - 1, a, c, m);
    }
  }

  lemma {:induction false} PlusAdd(a: int, c: int, i: nat, j: nat)
    ensures Plus(a, c, i + j) == Plus(a, c, i) * Pow(a, j) + Plus(a, c, j)
  {
    if j == 0 {
    } else {
      PlusAdd(a, c, i, j - 1);
      PlusAddInts(Plus(a, c, i), Pow(a, j - 1), Plus(a, c, j - 1), a, c);
    }
  }

  lemma PlusAddInts(p: int, x: int, q: int, a: int, c: int)
    ensures (p * x + q) * a + c == p * (a * x) + (q * a + c)
  {
  }

  /** The affine map of 2k steps from that of k steps, as the loops compute it. */
  lemma Doubling(a: int, c: int, k: nat)
    ensures Pow(a, 2 * k) == Pow(a, k) * Pow(a, k)
    ensures Plus(a, c, 2 * k) == (Pow(a, k) + 1) * Plus(a, c, k)
  {
    PowAdd(a, k, k);
    PlusAdd(a, c, k, k);
    MulDistrib(Plus(a, c, k), Pow(a, k), 1);
  }

  // ---- advance ----

  /** Residues of the affine map of `k` steps. */
  ghost predicate IsMap(mult: nat, plus: nat, a: nat, c: nat, k: nat, m: nat)
    requires m > 0
  {
    mult == Pow(a, k) % m && plus == Plus(a, c, k) % m
  }

  lemma MapDoubles(mult: nat, plus: nat, a: nat, c: nat, k: nat, m: nat)
    requires m > 0 && IsMap(mult, plus, a, c, k, m)
    ensures IsMap((mult * mult) % m, ((mult + 1) * plus) % m, a, c, 2 * k, m)
  {
    hide Pow, Plus;
    var p, q := Pow(a, k), Plus(a, c, k);
    Doubling(a, c, k);
    ModTwice(p, m);
    ModTwice(q, m);
    ModProduct(mult, p, mult, p, m);
    ModSum(mult, p, 1, 1, m);
    ModProduct(mult + 1, p + 1, plus, q, m);
  }

  /** Running the map of `k` steps after that of `i` steps. */
  lemma MapComposes(mult: nat, plus: nat, mult': nat, plus': nat, a: nat, c: nat, i: nat, k: nat, m: nat)
    requires m > 0 && IsMap(mult, plus, a, c, i, m) && IsMap(mult', plus', a, c, k, m)
    ensures IsMap((mult * mult') % m, (plus * mult' + plus') % m, a, c, i + k, m)
  {
    hide Pow, Plus;
    PowAdd(a, i, k);
    PlusAdd(a, c, i, k);
    ModTwice(Pow(a, i), m);
    ModTwice(Pow(a, k), m);
    ModTwice(Plus(a, c, i), m);
    ModTwice(Plus(a, c, k), m);
    ModProduct(mult, Pow(a, i), mult', Pow(a, k), m);
    ModProduct(plus, Plus(a, c, i), mult', Pow(a, k), m);
    ModSum(plus * mult', Plus(a, c, i) * Pow(a, k), plus', Plus(a, c, k), m);
  }

  lemma MapApplies(mult: nat, plus: nat, s: nat, a: nat, c: nat, k: nat, m: nat)
    requires m > 0 && s < m && IsMap(mult, plus, a, c, k, m)
    ensures Apply(mult, plus, s, m) == Steps(s, k, a, c, m)
  {
    hide Pow, Plus, Steps;
    StepsAffine(s, k, a, c, m);
    ModTwice(Pow(a, k), m);
    ModTwice(Plus(a, c, k), m);
    ModProduct(mult, Pow(a, k), s, s, m);
    ModSum(mult * s, Pow(a, k) * s, plus, Plus(a, c, k), m);
  }

  lemma MapStarts(a: nat, c: nat, m: nat)
    requires m > 1 && a < m && c < m
    ensures IsMap(1, 0, a, c, 0, m) && IsMap(a, c, a, c, 1, m)
  {
    SmallMod(1, m);
    SmallMod(0, m);
    SmallMod(a, m);
    SmallMod(c, m);
    assert Plus(a, c, 0) == 0;
  }

  /** The fast stride: `delta` steps in a number of iterations logarithmic in `delta`. */
  method Advance(state: nat, delta: nat, mult: nat, inc: nat, w: nat) returns (r: nat)
    requires w >= 1 && state < Pow2(w) && delta < Pow2(w) && mult < Pow2(w) && inc < Pow2(w)
    ensures r == Steps(state, delta, mult, inc, Pow2(w))
  {
    var m := Pow2(w);
    var d: nat, curMult: nat, curPlus: nat, accMult: nat, accPlus: nat := delta, mult, inc, 1, 0;
    ghost var k: nat, done: nat := 1, 0;
    assert m >= 2 by { Pow2Mono(1, w); assert Pow2(1) == 2; }
    MapStarts(mult, inc, m);
    hide *;
    while d > 0
      invariant delta == done + k * d
      invariant IsMap(accMult, accPlus, mult, inc, done, m) && IsMap(curMult, curPlus, mult, inc, k, m)
    {
      StrideSplit(done, k, d);
      if d % 2 == 1 {
        MapComposes(accMult, accPlus, curMult, curPlus, mult, inc, done, k, m);
        accMult := (accMult * curMult) % m;
        accPlus := (accPlus * curMult + curPlus) % m;
        done := done + k;
      }
      MapDoubles(curMult, curPlus, mult, inc, k, m);
      curPlus := ((curMult + 1) * curPlus) % m;
      curMult := (curMult * curMult) % m;
      d := d / 2;
      k := 2 * k;
    }
    MapApplies(accMult, accPlus, state, mult, inc, done, m);
    r := Apply(accMult, accPlus, state, m);
  }

  lemma StrideSplit(done: nat, k: nat, d: nat)
    ensures done + k * d == done + (if d % 2 == 1 then k else 0) + (2 * k) * (d / 2)
  {
    var h, b := d / 2, d % 2;
    assert d == 2 * h + b;
    MulDistrib(k, 2 * h, b);
    MulAssoc(k, 2, h);
  }

  // ---- Two-adic facts ----

  /** 2^k divides x. */
  ghost predicate Divisible(x: int, k: nat) {
    x % Pow2(k) == 0
  }

  lemma DivisibleDef(x: int, k: nat) returns (q: int)
    requires Divisible(x, k)
    ensures x == q * Pow2(k)
  {
    q := x / Pow2(k);
  }

  lemma MultipleDivisible(q: int, k: nat)
    ensures Divisible(q * Pow2(k), k)
  {
    ModSelfMultiple(0, q, Pow2(k));
    SmallMod(0, Pow2(k));
  }

  lemma DoubleDivisible(x: int, k: nat)
    ensures Divisible(2 * x, k + 1) <==> Divisible(x, k)
  {
    if Divisible(x, k) {
      var q := DivisibleDef(x, k);
      assert 2 * x == q * Pow2(k + 1) by { MulRotate(q, 2, Pow2(k)); }
      MultipleDivisible(q, k + 1);
    }
    if Divisible(2 * x, k + 1) {
      var q := DivisibleDef(2 * x, k + 1);
      assert 2 * x == 2 * (q * Pow2(k)) by { MulRotate(q, 2, Pow2(k)); }
      MultipleDivisible(q, k);
    }
  }

  predicate Odd(x: int) {
    x % 2 == 1
  }

  /** What the multipliers of every generator satisfy. */
  predicate OneMod4(a: int) {
    a % 4 == 1
  }

  lemma OddNotDivisible(x: int, k: nat)
    requires Odd(x) && k > 0
    ensures !Divisible(x, k)
  {
    hide *;
    if Divisible(x, k) {
      var q := DivisibleDef(x, k);
      var p := Pow2(k - 1);
      Pow2Next(k - 1);
      MulSwapTwo(q, p);
      OddNotTwice(x, q * p);
      assert false;
    }
  }

  lemma OddNotTwice(x: int, y: int)
    requires Odd(x)
    ensures x != 2 * y
  {
  }

  lemma OddProduct(u: int, x: int)
    requires Odd(u)
    ensures Odd(u * x) <==> Odd(x)
  {
    ModProduct(u, 1, x, x, 2);
  }

  lemma Halve(x: int) returns (h: int)
    requires !Odd(x)
    ensures x == 2 * h && (x >= 0 ==> h >= 0)
  {
    h := x / 2;
  }

  /** An odd factor does not matter to divisibility by a power of two. */
  lemma {:induction false} OddFactor(u: int, x: int, k: nat)
    requires Odd(u)
    ensures Divisible(u * x, k) <==> Divisible(x, k)
    decreases k
  {
    if k == 0 {
      DivisibleByOne(x);
      DivisibleByOne(u * x);
    } else {
      hide *;
      OddProduct(u, x);
      if Odd(x) {
        OddNotDivisible(x, k);
        OddNotDivisible(u * x, k);
      } else {
        var y := Halve(x);
        MulSwapTwo(u, y);
        DoubleDivisible(y, k - 1);
        DoubleDivisible(u * y, k - 1);
        OddFactor(u, y, k - 1);
      }
    }
  }

  lemma DivisibleByOne(x: int)
    ensures Divisible(x, 0)
  {
  }

  lemma {:induction false} PowOneMod4(a: int, n: nat)
    requires OneMod4(a)
    ensures OneMod4(Pow(a, n))
  {
    if n == 0 {
    } else {
      PowOneMod4(a, n - 1);
      ModProduct(a, 1, Pow(a, n - 1), 1, 4);
    }
  }

  lemma HalfOfSum(p: int) returns (u: int)
    requires OneMod4(p)
    ensures p + 1 == 2 * u && Odd(u)
  {
    u := (p + 1) / 2;
  }

  lemma OneMod4IsOdd(a: int)
    requires OneMod4(a)
    ensures Odd(a)
  {
    var q := a / 4;
    assert a == 4 * q + 1;
    DivModUnique(a, 2, 2 * q, 1);
  }

  lemma {:induction false} PlusParity(a: int, c: int, n: nat)
    requires Odd(a) && Odd(c)
    ensures Odd(Plus(a, c, n)) <==> Odd(n)
  {
    if n == 0 {
    } else {
      hide *;
      PlusParity(a, c, n - 1);
      PlusStepParity(a, c, n - 1);
    }
  }

  lemma PlusStepParity(a: int, c: int, n: nat)
    requires Odd(a) && Odd(c)
    ensures Odd(Plus(a, c, n + 1)) <==> !Odd(Plus(a, c, n))
    ensures Odd(n + 1) <==> !Odd(n)
  {
    var p := Plus(a, c, n);
    OddProduct(a, p);
    ParityFlips(p * a, c);
  }

  lemma ParityFlips(x: int, c: int)
    requires Odd(c)
    ensures Odd(x + c) <==> !Odd(x)
  {
  }

  /** The additive part of n steps has exactly the powers of two that n has. */
  lemma {:induction false} PlusDivisibility(a: int, c: int, n: nat, k: nat)
    requires OneMod4(a) && Odd(c)
    ensures Divisible(Plus(a, c, n), k) <==> Divisible(n, k)
    decreases k
  {
    hide *;
    if k == 0 {
      DivisibleByOne(n);
      DivisibleByOne(Plus(a, c, n));
    } else {
      OneMod4IsOdd(a);
      PlusParity(a, c, n);
      if Odd(n) {
        OddNotDivisible(n, k);
        OddNotDivisible(Plus(a, c, n), k);
      } else {
        var h := Halve(n);
        var u := EvenPlus(a, c, h);
        DoubleDivisible(u * Plus(a, c, h), k - 1);
        OddFactor(u, Plus(a, c, h), k - 1);
        PlusDivisibility(a, c, h, k - 1);
        DoubleDivisible(h, k - 1);
      }
    }
  }

  lemma EvenPlus(a: int, c: int, h: nat) returns (u: int)
    requires OneMod4(a)
    ensures Odd(u) && Plus(a, c, 2 * h) == 2 * (u * Plus(a, c, h))
  {
    hide *;
    PowOneMod4(a, h);
    u := HalfOfSum(Pow(a, h));
    Doubling(a, c, h);
    MulAssoc(2, u, Plus(a, c, h));
  }

  /** The geometric sum behind the additive part. */
  lemma {:induction false} GeometricSum(a: int, c: int, n: nat)
    ensures (a - 1) * Plus(a, c, n) == c * (Pow(a, n) - 1)
  {
    if n == 0 {
    } else {
      GeometricSum(a, c, n - 1);
      GeometricInts(a, c, Plus(a, c, n - 1), Pow(a, n - 1));
    }
  }

  lemma GeometricInts(a: int, c: int, p: int, x: int)
    requires (a - 1) * p == c * (x - 1)
    ensures (a - 1) * (p * a + c) == c * (a * x - 1)
  {
    calc {
      (a - 1) * (p * a + c);
      ((a - 1) * p) * a + (a - 1) * c;
      (c * (x - 1)) * a + (a - 1) * c;
      c * (a * x - 1);
    }
  }

  /** Full period: a state returns to itself after n steps exactly when 2^w divides n. */
  lemma FullPeriod(s: nat, n: nat, a: nat, c: nat, w: nat)
    requires s < Pow2(w) && OneMod4(a) && Odd(c)
    ensures Steps(s, n, a, c, Pow2(w)) == s <==> n % Pow2(w) == 0
  {
    assert Divisible(n, w) <==> n % Pow2(w) == 0;
    hide Odd, OneMod4, Steps, Pow, Plus, Pow2;
    var m, p, q := Pow2(w), Pow(a, n), Plus(a, c, n);
    var diff := p * s + q - s;
    StepsAffine(s, n, a, c, m);
    SmallMod(s, m);
    ModDifferenceZero(p * s + q, s, m);
    GeometricSum(a, c, n);
    PeriodInts(a, c, p, q, s);
    var odd := (a - 1) * s + c;
    OddCombination(a, s, c);
    OddFactor(c, diff, w);
    OddFactor(odd, q, w);
    PlusDivisibility(a, c, n, w);
  }

  lemma OddCombination(a: int, s: int, c: int)
    requires OneMod4(a) && Odd(c)
    ensures Odd((a - 1) * s + c)
  {
    EvenProduct(a - 1, s);
    hide *;
    ParityFlips((a - 1) * s, c);
  }

  lemma EvenProduct(u: int, x: int)
    requires !Odd(u)
    ensures !Odd(u * x)
  {
    hide Odd;
    var h := Halve(u);
    MulAssoc(2, h, x);
    TwiceIsEven(h * x);
  }

  lemma TwiceIsEven(x: int)
    ensures !Odd(2 * x)
  {
  }

  lemma PeriodInts(a: int, c: int, p: int, q: int, s: int)
    requires (a - 1) * q == c * (p - 1)
    ensures c * (p * s + q - s) == ((a - 1) * s + c) * q
  {
    calc {
      c * (p * s + q - s);
      (c * (p - 1)) * s + c * q;
      ((a - 1) * q) * s + c * q;
      ((a - 1) * s + c) * q;
    }
  }

  lemma ModDifferenceZero(x: int, y: int, m: int)
    requires m > 0
    ensures x % m == y % m <==> (x - y) % m == 0
  {
    if x % m == y % m {
      ModSum(x, y, -y, -y, m);
      SmallMod(0, m);
    }
    if (x - y) % m == 0 {
      SmallMod(0, m);
      ModSum(x - y, 0, y, y, m);
    }
  }

  /** 2^w steps of an odd-multiplier generator are the identity, whatever the increment. */
  lemma {:induction false} PowerOfTwoSteps(a: int, c: int, j: nat)
    requires Odd(a)
    ensures Divisible(Pow(a, Pow2(j)) - 1, j) && Divisible(Plus(a, c, Pow2(j)), j)
  {
    if j == 0 {
      DivisibleByOne(Pow(a, 1) - 1);
      DivisibleByOne(Plus(a, c, 1));
    } else {
      var k := Pow2(j - 1);
      assert Pow2(j) == 2 * k;
      hide *;
      PowerOfTwoSteps(a, c, j - 1);
      PowOdd(a, k);
      Doubling(a, c, k);
      var p, q := Pow(a, k), Plus(a, c, k);
      EvenSuccessor(p);
      var h := Halve(p + 1);
      SquareMinusOne(p, h);
      DivisibleFactor(h, p - 1, j - 1);
      DivisibleFactor(h, q, j - 1);
      DoubleDivisible(h * (p - 1), j - 1);
      DoubleDivisible(h * q, j - 1);
      MulAssoc(2, h, q);
    }
  }

  lemma {:induction false} PowOdd(a: int, n: nat)
    requires Odd(a)
    ensures Odd(Pow(a, n))
  {
    if n == 0 {
    } else {
      PowOdd(a, n - 1);
      OddProduct(a, Pow(a, n - 1));
    }
  }

  lemma EvenSuccessor(p: int)
    requires Odd(p)
    ensures !Odd(p + 1)
  {
  }

  lemma SquareMinusOne(p: int, h: int)
    requires p + 1 == 2 * h
    ensures p * p - 1 == 2 * (h * (p - 1))
  {
    MulAssoc(2, h, p - 1);
  }

  lemma DivisibleFactor(h: int, x: int, k: nat)
    requires Divisible(x, k)
    ensures Divisible(h * x, k)
  {
    var q := DivisibleDef(x, k);
    MulAssoc(h, q, Pow2(k));
    MultipleDivisible(h * q, k);
  }

  lemma WholePeriod(s: nat, a: nat, c: nat, w: nat)
    requires s < Pow2(w) && Odd(a)
    ensures Steps(s, Pow2(w), a, c, Pow2(w)) == s
  {
    var m := Pow2(w);
    PowerOfTwoSteps(a, c, w);
    var p, q := Pow(a, m), Plus(a, c, m);
    StepsAffine(s, m, a, c, m);
    hide Odd, Steps, Pow, Plus, Pow2;
    SmallMod(0, m);
    SmallMod(s, m);
    ModDifferenceZero(p, 1, m);
    ModProduct(p, 1, s, s, m);
    ModSum(p * s, s, q, 0, m);
  }

  /** Unsigned negation modulo `m`. */
  function Negation(x: nat, m: nat): (r: nat)
    requires x < m
    ensures r < m && (x + r == 0 || x + r == m)
  {
    if x == 0 then 0 else m - x
  }

  /** Stepping by the negated count undoes the steps. */
  lemma BackstepUndoes(s: nat, delta: nat, a: nat, c: nat, w: nat)
    requires s < Pow2(w) && delta < Pow2(w) && Odd(a)
    ensures Steps(Steps(s, delta, a, c, Pow2(w)), Negation(delta, Pow2(w)), a, c, Pow2(w)) == s
  {
    hide *;
    var r := Negation(delta, Pow2(w));
    StepsAdd(s, delta, r, a, c, Pow2(w));
    NoSteps(s, a, c, Pow2(w));
    WholePeriod(s, a, c, w);
  }

  lemma NoSteps(s: nat, a: nat, c: nat, m: nat)
    requires m > 0 && s < m
    ensures Steps(s, 0, a, c, m) == s
  {
  }

  // ---- distance ----

  /** Low bits kept fixed by the generator: an MCG never changes its two lowest bits. */
  function FixedBits(isMcg: bool): nat { if isMcg then 2 else 0 }

  /** What the two kinds of generator guarantee about their constants and states. */
  ghost predicate Wellformed(isMcg: bool, mult: nat, inc: nat, state: nat, newstate: nat) {
    if isMcg then inc == 0 && FiveMod8(mult) && Odd(newstate) && state % 4 == newstate % 4
    else OneMod4(mult) && Odd(inc)
  }

  predicate FiveMod8(a: int) {
    a % 8 == 5
  }

  /** A state of either kind of generator: those of an MCG are odd. */
  ghost predicate OnOrbit(isMcg: bool, mult: nat, inc: nat, state: nat) {
    if isMcg then inc == 0 && FiveMod8(mult) && Odd(state) else OneMod4(mult) && Odd(inc)
  }

  /** `x` is an odd multiple of 2^k. */
  ghost predicate Exactly(x: int, k: nat) {
    Divisible(x, k) && !Divisible(x, k + 1)
  }

  /** `x` and `y` have the same `k` low bits. */
  ghost predicate Agree(x: nat, y: nat, k: nat) {
    x % Pow2(k) == y % Pow2(k)
  }

  /** The affine map `mult * x + plus` modulo `m`. */
  function Apply(mult: nat, plus: nat, x: nat, m: nat): (r: nat)
    requires m > 0
    ensures r < m
  {
    (mult * x + plus) % m
  }

  lemma ExactlyResidue(x: int, k: nat)
    requires Exactly(x, k)
    ensures x % Pow2(k + 1) == Pow2(k)
  {
    var p := Pow2(k);
    DivDiv(x, p, 2);
    assert x % p == 0;
    assert Pow2(k + 1) == p * 2;
  }

  /** The change 2^j steps make to a state is an odd multiple of 2^j. */
  lemma LcgStride(a: int, c: int, s: int, j: nat)
    requires OneMod4(a) && Odd(c)
    ensures Exactly(Pow(a, Pow2(j)) * s + Plus(a, c, Pow2(j)) - s, j)
  {
    var k := Pow2(j);
    var p, q := Pow(a, k), Plus(a, c, k);
    var diff := p * s + q - s;
    PowerItself(j);
    GeometricSum(a, c, k);
    PeriodInts(a, c, p, q, s);
    OddCombination(a, s, c);
    var odd := (a - 1) * s + c;
    hide Odd, OneMod4, Pow, Plus, Pow2, Divisible;
    PlusDivisibility(a, c, k, j);
    PlusDivisibility(a, c, k, j + 1);
    OddFactor(c, diff, j);
    OddFactor(odd, q, j);
    OddFactor(c, diff, j + 1);
    OddFactor(odd, q, j + 1);
  }

  lemma PowerItself(j: nat)
    ensures Divisible(Pow2(j), j) && !Divisible(Pow2(j), j + 1)
  {
    MultipleDivisible(1, j);
    SmallMod(Pow2(j), Pow2(j + 1));
  }

  lemma {:induction false} McgPower(a: int, j: nat)
    requires FiveMod8(a)
    ensures Exactly(Pow(a, Pow2(j)) - 1, j + 2) && OneMod4(Pow(a, Pow2(j)))
  {
    hide Pow, Pow2, Divisible, Odd, OneMod4, FiveMod8;
    if j == 0 {
      McgPowerStart(a);
    } else {
      var k := Pow2(j - 1);
      Pow2Next(j - 1);
      var p := Pow(a, k);
      McgPower(a, j - 1);
      Doubling(a, 0, k);
      var h := HalfOfSum(p);
      SquareMinusOne(p, h);
      OddFactor(h, p - 1, j + 1);
      OddFactor(h, p - 1, j + 2);
      DoubleDivisible(h * (p - 1), j + 1);
      DoubleDivisible(h * (p - 1), j + 2);
      SquareOneMod4(p);
    }
  }

  lemma McgPowerStart(a: int)
    requires FiveMod8(a)
    ensures Exactly(Pow(a, Pow2(0)) - 1, 2) && OneMod4(Pow(a, Pow2(0)))
  {
    FirstPower(a);
    hide Pow, Pow2;
    SmallPowers();
    var q := a / 8;
    assert a == 8 * q + 5;
    DivModUnique(a, 4, 2 * q + 1, 1);
    DivModUnique(a - 1, 4, 2 * q + 1, 0);
    DivModUnique(a - 1, 8, q, 4);
  }

  lemma FirstPower(a: int)
    ensures Pow(a, 1) == a
  {
    assert Pow(a, 0) == 1;
  }

  lemma SquareOneMod4(p: int)
    requires OneMod4(p)
    ensures OneMod4(p * p)
  {
    ModProduct(p, 1, p, 1, 4);
  }

  lemma {:induction false} PlusOfZero(a: int, n: nat)
    ensures Plus(a, 0, n) == 0
  {
    if n == 0 {
    } else {
      PlusOfZero(a, n - 1);
    }
  }

  lemma McgStride(a: int, s: int, j: nat)
    requires FiveMod8(a) && Odd(s)
    ensures Exactly(Pow(a, Pow2(j)) * s + Plus(a, 0, Pow2(j)) - s, j + 2)
  {
    var p := Pow(a, Pow2(j));
    hide *;
    McgPower(a, j);
    PlusOfZero(a, Pow2(j));
    FactorOut(p, s);
    ExactlyOddFactor(s, p - 1, j + 2);
  }

  lemma FactorOut(p: int, s: int)
    ensures p * s - s == s * (p - 1)
  {
  }

  /** An MCG comes back to an odd state after n steps exactly when 2^(w-2) divides n. */
  lemma McgPeriod(s: nat, n: nat, a: nat, w: nat)
    requires w >= 2 && s < Pow2(w) && Odd(s) && FiveMod8(a)
    ensures Steps(s, n, a, 0, Pow2(w)) == s <==> n % Pow2(w - 2) == 0
  {
    assert Divisible(n, w - 2) <==> n % Pow2(w - 2) == 0;
    hide Odd, OneMod4, FiveMod8, Steps, Pow, Plus, Pow2;
    var m, p, q := Pow2(w), Pow(a, n), Plus(a, 1, n);
    StepsAffine(s, n, a, 0, m);
    PlusOfZero(a, n);
    SmallMod(s, m);
    ModDifferenceZero(p * s, s, m);
    FactorOut(p, s);
    OddFactor(s, p - 1, w);
    GeometricSum(a, 1, n);
    var u := FourTimesOdd(a);
    FourTimes(u, q);
    DoubleDivisible(2 * (u * q), w - 1);
    DoubleDivisible(u * q, w - 2);
    OddFactor(u, q, w - 2);
    OneIsOdd();
    PlusDivisibility(a, 1, n, w - 2);
  }

  lemma FourTimesOdd(a: int) returns (u: int)
    requires FiveMod8(a)
    ensures a - 1 == 4 * u && Odd(u) && OneMod4(a)
  {
    FiveMod8IsOneMod4(a);
    u := 2 * (a / 8) + 1;
  }

  lemma FourTimes(u: int, q: int)
    ensures (4 * u) * q == 2 * (2 * (u * q))
  {
    MulAssoc(4, u, q);
  }

  lemma OneIsOdd()
    ensures Odd(1)
  {
  }

  /** The period of either kind: 2^w steps, or 2^(w-2) for an MCG. */
  lemma Period(isMcg: bool, s: nat, n: nat, a: nat, c: nat, w: nat)
    requires FixedBits(isMcg) <= w && s < Pow2(w) && OnOrbit(isMcg, a, c, s)
    ensures Steps(s, n, a, c, Pow2(w)) == s <==> n % Pow2(w - FixedBits(isMcg)) == 0
  {
    hide Steps, Pow2, Odd, OneMod4, FiveMod8;
    if isMcg { McgPeriod(s, n, a, w); } else { FullPeriod(s, n, a, c, w); }
  }

  lemma OrbitKept(isMcg: bool, s: nat, n: nat, a: nat, c: nat, w: nat)
    requires FixedBits(isMcg) <= w && s < Pow2(w) && OnOrbit(isMcg, a, c, s)
    ensures OnOrbit(isMcg, a, c, Steps(s, n, a, c, Pow2(w)))
  {
    hide Steps, Odd, OneMod4, FiveMod8;
    if isMcg {
      FiveMod8IsOneMod4(a);
      McgKeepsLowBits(s, n, a, w);
      SmallPowers();
      SameParity(s, Steps(s, n, a, c, Pow2(w)));
    }
  }

  /** Distinct step counts below the period lead to distinct states. */
  lemma StepsInjective(isMcg: bool, s: nat, i: nat, j: nat, a: nat, c: nat, w: nat)
    requires FixedBits(isMcg) <= w && s < Pow2(w) && OnOrbit(isMcg, a, c, s)
    requires i <= j < Pow2(w - FixedBits(isMcg))
    requires Steps(s, i, a, c, Pow2(w)) == Steps(s, j, a, c, Pow2(w))
    ensures i == j
  {
    hide *;
    var t := Steps(s, i, a, c, Pow2(w));
    StepsAdd(s, i, j - i, a, c, Pow2(w));
    OrbitKept(isMcg, s, i, a, c, w);
    Period(isMcg, t, j - i, a, c, w);
    SmallMod(j - i, Pow2(w - FixedBits(isMcg)));
  }

  /** Only the step count modulo the period matters. */
  lemma StepsReduced(isMcg: bool, s: nat, n: nat, a: nat, c: nat, w: nat)
    requires FixedBits(isMcg) <= w && s < Pow2(w) && OnOrbit(isMcg, a, c, s)
    ensures Steps(s, n, a, c, Pow2(w)) == Steps(s, n % Pow2(w - FixedBits(isMcg)), a, c, Pow2(w))
  {
    hide *;
    var p := Pow2(w - FixedBits(isMcg));
    DivModIdentity(n, p);
    var whole := p * (n / p);
    MulMono(p, 0, n / p);
    ModSelfMultiple(0, n / p, p);
    SmallMod(0, p);
    Period(isMcg, s, whole, a, c, w);
    StepsAdd(s, whole, n % p, a, c, Pow2(w));
  }

  /** The low `k` bits run the same generator at width `k`. */
  lemma StepsLow(s: nat, n: nat, a: nat, c: nat, k: nat, w: nat)
    requires k <= w && s < Pow2(w)
    ensures Low(Steps(s, n, a, c, Pow2(w)), k) == Steps(Low(s, k), n, a, c, Pow2(k))
  {
    var m, l, p, q := Pow2(w), Pow2(k), Pow(a, n), Plus(a, c, n);
    Pow2Add(k, w - k);
    hide Pow2, Pow, Plus, Steps;
    var x := p * s + q;
    StepsAffine(s, n, a, c, m);
    StepsAffine(s % l, n, a, c, l);
    ModTwice(x, m);
    ModDivisor(x % m, x, l, Pow2(w - k));
    ModTwice(s, l);
    ModProduct(p, p, s % l, s, l);
    ModSum(p * (s % l), p * s, q, q, l);
  }

  /** The step counts that lead to the same low `k` bits are those congruent modulo the period at width `k`. */
  lemma DistanceExact(isMcg: bool, s: nat, r: nat, n: nat, a: nat, c: nat, k: nat, w: nat)
    requires FixedBits(isMcg) <= k <= w && s < Pow2(w) && OnOrbit(isMcg, a, c, s) && r < Pow2(k - FixedBits(isMcg))
    ensures Agree(Steps(s, n, a, c, Pow2(w)), Steps(s, r, a, c, Pow2(w)), k) <==> n % Pow2(k - FixedBits(isMcg)) == r
  {
    hide *;
    var l, n' := Low(s, k), n % Pow2(k - FixedBits(isMcg));
    AgreeIsLow(Steps(s, n, a, c, Pow2(w)), Steps(s, r, a, c, Pow2(w)), k);
    StepsLow(s, n, a, c, k, w);
    StepsLow(s, r, a, c, k, w);
    LowOnOrbit(isMcg, s, a, c, k);
    StepsReduced(isMcg, l, n, a, c, k);
    ModBounds(n, Pow2(k - FixedBits(isMcg)));
    if Steps(l, n', a, c, Pow2(k)) == Steps(l, r, a, c, Pow2(k)) {
      if n' <= r { StepsInjective(isMcg, l, n', r, a, c, k); } else { StepsInjective(isMcg, l, r, n', a, c, k); }
    }
  }

  lemma AgreeIsLow(x: nat, y: nat, k: nat)
    ensures Agree(x, y, k) <==> Low(x, k) == Low(y, k)
  {
  }

  lemma LowOnOrbit(isMcg: bool, s: nat, a: nat, c: nat, k: nat)
    requires FixedBits(isMcg) <= k && OnOrbit(isMcg, a, c, s)
    ensures OnOrbit(isMcg, a, c, Low(s, k))
  {
    if isMcg {
      Pow2Add(2, k - 2);
      hide Pow2, Odd, FiveMod8;
      ModTwice(s, Pow2(k));
      ModDivisor(s % Pow2(k), s, Pow2(2), Pow2(k - 2));
      SameParity(s, s % Pow2(k));
    }
  }

  lemma ExactlyOddFactor(u: int, x: int, k: nat)
    requires Odd(u) && Exactly(x, k)
    ensures Exactly(u * x, k)
  {
    hide Odd, Divisible;
    OddFactor(u, x, k);
    OddFactor(u, x, k + 1);
  }

  lemma Stride(isMcg: bool, a: nat, c: nat, s: nat, t: nat, s0: nat, j: nat)
    requires Wellformed(isMcg, a, c, s0, t) && Agree(s, t, FixedBits(isMcg))
    ensures Exactly(Pow(a, Pow2(j)) * s + Plus(a, c, Pow2(j)) - s, j + FixedBits(isMcg))
  {
    if isMcg {
      SameParity(s, t);
      hide *;
      McgStride(a, s, j);
    } else {
      hide *;
      LcgStride(a, c, s, j);
    }
  }

  lemma SameParity(s: nat, t: nat)
    requires s % Pow2(2) == t % Pow2(2)
    ensures Odd(s) <==> Odd(t)
  {
    SmallPowers();
    hide Pow2;
    ModDivisor(s, t, 2, 2);
  }

  /** Running the map of 2^j steps flips bit k and keeps the bits below it. */
  lemma StrideFlips(x: nat, d: int, k: nat, w: nat, y: nat)
    requires k < w && Exactly(d, k) && y == (x + d) % Pow2(w)
    ensures Agree(y, x, k)
    ensures Bit(y, k) <==> !Bit(x, k)
  {
    var m, n, p := Pow2(w), Pow2(k + 1), Pow2(k);
    assert n == 2 * p;
    ExactlyResidue(d, k);
    Pow2Add(k + 1, w - (k + 1));
    hide Pow2, Exactly, Divisible;
    ModTwice(x + d, m);
    ModDivisor(y, x + d, n, Pow2(w - (k + 1)));
    ModNextBit(x, k);
    ModNextBit(y, k);
    ModTwice(x, n);
    SmallMod(p, n);
    ModSum(x, x % n, d, p, n);
    ModBounds(x, p);
    ModBounds(y, p);
    FlipInts(x % p, y % p, Bit(x, k), Bit(y, k), p, n);
  }

  lemma ModBounds(x: int, p: int)
    requires p > 0
    ensures 0 <= x % p < p
  {
  }

  lemma FlipInts(low: int, low': int, b: bool, b': bool, p: int, n: int)
    requires n == 2 * p && 0 <= low < p && 0 <= low' < p
    requires low' + (if b' then p else 0) == (low + (if b then p else 0) + p) % n
    ensures low == low' && b' == !b
  {
    if b {
      ModSelfMultiple(low, 1, n);
      SmallMod(low, n);
    } else {
      SmallMod(low + p, n);
    }
  }

  /** Agreement on the low bits extends by one bit. */
  lemma AgreeNext(x: nat, y: nat, k: nat)
    requires Agree(x, y, k) && (Bit(x, k) <==> Bit(y, k))
    ensures Agree(x, y, k + 1)
  {
    ModNextBit(x, k);
    ModNextBit(y, k);
  }

  /** The loop's state after `j` bits have been decided; `d` steps have been taken. */
  ghost predicate Decided(isMcg: bool, s: nat, t: nat, a: nat, c: nat, w: nat, j: nat, d: nat, cur: nat)
    requires s < Pow2(w)
  {
    var k := j + FixedBits(isMcg);
    && cur == Steps(s, d, a, c, Pow2(w))
    && d < Pow2(j)
    && k <= w
    && Agree(cur, t, k)
  }

  /** The multiplier has room for the bits that stay fixed. */
  lemma WidthOfMultiplier(isMcg: bool, a: nat, w: nat)
    requires a < Pow2(w) && if isMcg then FiveMod8(a) else OneMod4(a)
    ensures FixedBits(isMcg) < w && Pow2(FixedBits(isMcg)) < Pow2(w)
    ensures Pow2(FixedBits(isMcg)) == if isMcg then 4 else 1
  {
    SmallPowers();
    if w <= FixedBits(isMcg) {
      Pow2Mono(w, FixedBits(isMcg));
      assert false;
    }
    Pow2StrictMono(FixedBits(isMcg), w);
  }

  lemma DistanceStart(isMcg: bool, s: nat, t: nat, a: nat, c: nat, w: nat)
    requires s < Pow2(w) && a < Pow2(w) && c < Pow2(w) && Wellformed(isMcg, a, c, s, t)
    ensures Decided(isMcg, s, t, a, c, w, 0, 0, s) && IsMap(a, c, a, c, Pow2(0), Pow2(w))
    ensures Pow2(FixedBits(isMcg)) == (if isMcg then 4 else 1) < Pow2(w)
    ensures OnOrbit(isMcg, a, c, s)
  {
    WidthOfMultiplier(isMcg, a, w);
    MapStarts(a, c, Pow2(w));
    SmallPowers();
    if isMcg { SameParity(s, t); } else { ModOne(s, t); }
  }

  lemma ModOne(s: nat, t: nat)
    ensures s % Pow2(0) == t % Pow2(0)
  {
  }

  /** The state and step count after deciding bit `j`. */
  ghost function NextState(isMcg: bool, t: nat, j: nat, cur: nat, mult: nat, plus: nat, m: nat): nat
    requires m > 0
  {
    var k := j + FixedBits(isMcg);
    if Bit(cur, k) != Bit(t, k) then Apply(mult, plus, cur, m) else cur
  }

  ghost function NextCount(isMcg: bool, t: nat, j: nat, cur: nat, d: nat): nat {
    var k := j + FixedBits(isMcg);
    if Bit(cur, k) != Bit(t, k) then d + Pow2(j) else d
  }

  lemma DistanceStep(isMcg: bool, s: nat, t: nat, a: nat, c: nat, w: nat, j: nat, d: nat,
                     cur: nat, mult: nat, plus: nat)
    requires s < Pow2(w) && t < Pow2(w) && Wellformed(isMcg, a, c, s, t)
    requires Decided(isMcg, s, t, a, c, w, j, d, cur) && j + FixedBits(isMcg) < w
    requires IsMap(mult, plus, a, c, Pow2(j), Pow2(w))
    ensures var next := NextState(isMcg, t, j, cur, mult, plus, Pow2(w));
            && Decided(isMcg, s, t, a, c, w, j + 1, NextCount(isMcg, t, j, cur, d), next)
            && (Bit(next, j + FixedBits(isMcg)) <==> Bit(t, j + FixedBits(isMcg)))
  {
    hide Bit, Steps, Pow2, Wellformed, IsMap, Agree, Apply;
    var k := j + FixedBits(isMcg);
    Pow2Next(j);
    if Bit(cur, k) == Bit(t, k) {
      AgreeNext(cur, t, k);
    } else {
      var y := StrideTaken(isMcg, s, t, a, c, w, j, cur, mult, plus);
      StepsAdd(s, d, Pow2(j), a, c, Pow2(w));
      AgreeNext(y, t, k);
    }
  }

  lemma StrideTaken(isMcg: bool, s: nat, t: nat, a: nat, c: nat, w: nat, j: nat, cur: nat, mult: nat, plus: nat)
    returns (y: nat)
    requires cur < Pow2(w) && Wellformed(isMcg, a, c, s, t) && j + FixedBits(isMcg) < w
    requires IsMap(mult, plus, a, c, Pow2(j), Pow2(w))
    requires Agree(cur, t, j + FixedBits(isMcg))
    ensures y == Apply(mult, plus, cur, Pow2(w)) == Steps(cur, Pow2(j), a, c, Pow2(w))
    ensures Agree(y, t, j + FixedBits(isMcg))
    ensures Bit(y, j + FixedBits(isMcg)) <==> !Bit(cur, j + FixedBits(isMcg))
  {
    hide *;
    var k, n := j + FixedBits(isMcg), Pow2(j);
    y := Apply(mult, plus, cur, Pow2(w));
    LowAgreement(cur, t, k, FixedBits(isMcg));
    MapApplies(mult, plus, cur, a, c, n, Pow2(w));
    StepsAffine(cur, n, a, c, Pow2(w));
    Stride(isMcg, a, c, cur, t, s, j);
    StrideFlips(cur, Pow(a, n) * cur + Plus(a, c, n) - cur, k, w, y);
    AgreeTrans(y, cur, t, k);
  }

  lemma AgreeTrans(x: nat, y: nat, z: nat, k: nat)
    requires Agree(x, y, k) && Agree(y, z, k)
    ensures Agree(x, z, k)
  {
  }

  lemma LowAgreement(x: nat, y: nat, k: nat, z: nat)
    requires z <= k && Agree(x, y, k)
    ensures Agree(x, y, z)
  {
    Pow2Add(z, k - z);
    ModDivisor(x, y, Pow2(z), Pow2(k - z));
  }

  /** Recording bit `j` of the distance. */
  lemma DistanceBit(d: nat, j: nat, z: nat)
    requires d < Pow2(j)
    ensures Or(d * Pow2(z), Pow2(j + z)) == (d + Pow2(j)) * Pow2(z)
  {
    hide *;
    Pow2Add(j, z);
    DistanceBitInts(d, Pow2(j), Pow2(z));
    OrDisjoint(d * Pow2(z), 1, j + z);
  }

  lemma DistanceBitInts(d: int, p: int, q: int)
    requires 0 <= d < p && q > 0
    ensures 0 <= d * q < p * q && (d + p) * q == d * q + p * q
  {
    MulMono(q, d + 1, p);
    MulDistrib(q, d, 1);
    MulDistrib(q, d, p);
  }

  /**
   * The bit-by-bit discrete logarithm: how many steps lead from one state to the other, as far as `mask` can tell.
   * `bits` is the number of low bits that the mask looks at.
   */
  method Distance(isMcg: bool, state: nat, newstate: nat, mult: nat, inc: nat, mask: nat, w: nat, ghost bits: nat)
    returns (r: nat, ghost iterations: nat)
    requires state < Pow2(w) && newstate < Pow2(w) && mult < Pow2(w) && inc < Pow2(w)
    requires FixedBits(isMcg) <= bits <= w && mask < Pow2(bits)
    requires Wellformed(isMcg, mult, inc, state, newstate)
    ensures And(Steps(state, r, mult, inc, Pow2(w)), mask) == And(newstate, mask)
    ensures r < Pow2(bits - FixedBits(isMcg)) && iterations <= bits - FixedBits(isMcg)
    ensures mask == Pow2(bits) - 1 ==>
              forall n: nat :: Agree(Steps(state, n, mult, inc, Pow2(w)), newstate, bits)
                               <==> n % Pow2(bits - FixedBits(isMcg)) == r
  {
    hide *;
    var m := Pow2(w);
    var curState: nat, curMult: nat, curPlus: nat := state, mult, inc;
    var theBit: nat, distance: nat := if isMcg then 4 else 1, 0;
    ghost var z: nat, j: nat, d: nat := FixedBits(isMcg), 0, 0;
    DistanceStart(isMcg, state, newstate, mult, inc, w);
    SmallMod(theBit, m);
    while And(curState, mask) != And(newstate, mask)
      invariant IsMap(curMult, curPlus, mult, inc, Pow2(j), m)
      invariant Decided(isMcg, state, newstate, mult, inc, w, j, d, curState)
      invariant curState < m && j + z <= bits && distance == d * Pow2(z) && theBit == Pow2(j + z) % m
      decreases bits - j
    {
      BitsLeft(isMcg, state, newstate, mult, inc, w, j, d, curState, mask, bits);
      DistanceStep(isMcg, state, newstate, mult, inc, w, j, d, curState, curMult, curPlus);
      DistanceBit(d, j, z);
      AndBit(curState, j + z);
      AndBit(newstate, j + z);
      NextFacts(isMcg, newstate, j, curState, curMult, curPlus, m, d);
      d := NextCount(isMcg, newstate, j, curState, d);
      if And(curState, theBit) != And(newstate, theBit) {
        curState := Apply(curMult, curPlus, curState, m);
        distance := Or(distance, theBit);
      }
      AndBit(curState, j + z);
      assert And(curState, theBit) == And(newstate, theBit);
      theBit := (2 * theBit) % m;
      MapDoubles(curMult, curPlus, mult, inc, Pow2(j), m);
      curPlus := ((curMult + 1) * curPlus) % m;
      curMult := (curMult * curMult) % m;
      j := j + 1;
    }
    r := if isMcg then distance / 4 else distance;
    iterations := j;
    DistanceEnd(isMcg, state, newstate, mult, inc, w, j, d, curState, distance, bits);
    if mask == Pow2(bits) - 1 {
      MaskedAgree(curState, newstate, bits);
      OnlyDistance(isMcg, state, newstate, r, mult, inc, bits, w);
    }
  }

  lemma MaskedAgree(x: nat, y: nat, k: nat)
    ensures And(x, Pow2(k) - 1) == And(y, Pow2(k) - 1) <==> Agree(x, y, k)
  {
    AndMask(x, k);
    AndMask(y, k);
  }

  lemma OnlyDistance(isMcg: bool, s: nat, t: nat, r: nat, a: nat, c: nat, k: nat, w: nat)
    requires FixedBits(isMcg) <= k <= w && s < Pow2(w) && OnOrbit(isMcg, a, c, s) && r < Pow2(k - FixedBits(isMcg))
    requires Agree(Steps(s, r, a, c, Pow2(w)), t, k)
    ensures forall n: nat :: Agree(Steps(s, n, a, c, Pow2(w)), t, k) <==> n % Pow2(k - FixedBits(isMcg)) == r
  {
    hide Steps, Pow2, OnOrbit;
    forall n: nat ensures Agree(Steps(s, n, a, c, Pow2(w)), t, k) <==> n % Pow2(k - FixedBits(isMcg)) == r {
      DistanceExact(isMcg, s, r, n, a, c, k, w);
    }
  }

  lemma BitsLeft(isMcg: bool, s: nat, t: nat, a: nat, c: nat, w: nat, j: nat, d: nat, cur: nat, mask: nat, bits: nat)
    requires s < Pow2(w) && bits <= w && mask < Pow2(bits) && And(cur, mask) != And(t, mask)
    requires Decided(isMcg, s, t, a, c, w, j, d, cur)
    ensures j + FixedBits(isMcg) < bits && d < Pow2(j)
    ensures Pow2(j + FixedBits(isMcg)) % Pow2(w) == Pow2(j + FixedBits(isMcg)) > 0
    ensures Pow2(j + 1) == 2 * Pow2(j)
    ensures Pow2(j + 1 + FixedBits(isMcg)) == 2 * Pow2(j + FixedBits(isMcg))
  {
    var k := j + FixedBits(isMcg);
    assert k < bits by {
      hide Pow2, Steps, And, Low;
      if k >= bits {
        LowAgreement(cur, t, k, bits);
        AgreeIsLow(cur, t, bits);
        AndLow(cur, mask, bits);
        AndLow(t, mask, bits);
        assert false;
      }
    }
    Pow2StrictMono(k, w);
    SmallMod(Pow2(k), Pow2(w));
  }

  lemma NextFacts(isMcg: bool, t: nat, j: nat, cur: nat, mult: nat, plus: nat, m: nat, d: nat)
    requires m > 0 && cur < m
    ensures var k := j + FixedBits(isMcg);
            && NextState(isMcg, t, j, cur, mult, plus, m)
               == (if Bit(cur, k) != Bit(t, k) then Apply(mult, plus, cur, m) else cur) < m
            && NextCount(isMcg, t, j, cur, d) == if Bit(cur, k) != Bit(t, k) then d + Pow2(j) else d
  {
    hide Bit, Apply, Pow2;
  }

  lemma DistanceEnd(isMcg: bool, s: nat, t: nat, a: nat, c: nat, w: nat, j: nat, d: nat,
                    cur: nat, distance: nat, bits: nat)
    requires s < Pow2(w) && Decided(isMcg, s, t, a, c, w, j, d, cur) && distance == d * Pow2(FixedBits(isMcg))
    requires j + FixedBits(isMcg) <= bits
    ensures d == (if isMcg then distance / 4 else distance) < Pow2(bits - FixedBits(isMcg))
    ensures Steps(s, d, a, c, Pow2(w)) == cur
  {
    Pow2Mono(j, bits - FixedBits(isMcg));
    SmallPowers();
  }

  // ---- The engine ----

  function DefaultMultiplier(w: nat): nat
    requires IsWordWidth(w)
  {
    if w == 8 then 141
    else if w == 16 then 12829
    else if w == 32 then 747796405
    else if w == 64 then 6364136223846793005
    else 2549297995355413924 * 0x1_0000_0000_0000_0000 + 4865540595714422341
  }

  function DefaultIncrement(w: nat): nat
    requires IsWordWidth(w)
  {
    if w == 8 then 77
    else if w == 16 then 47989
    else if w == 32 then 2891336453
    else if w == 64 then 1442695040888963407
    else 6364136223846793005 * 0x1_0000_0000_0000_0000 + 1442695040888963407
  }

  /** The published constants meet the conditions of the full-period and MCG theorems. */
  lemma DefaultConstants(w: nat)
    requires IsWordWidth(w)
    ensures DefaultMultiplier(w) < Pow2(w) && FiveMod8(DefaultMultiplier(w)) && OneMod4(DefaultMultiplier(w))
    ensures DefaultIncrement(w) < Pow2(w) && Odd(DefaultIncrement(w))
  {
    hide Pow2;
    WordSizes();
  }

  /** The first states after 0 and after 1, at every width. */
  lemma FirstStates(w: nat)
    requires IsWordWidth(w)
    ensures var first, second := Bump(0, DefaultMultiplier(w), DefaultIncrement(w), Pow2(w)),
                                 Bump(1, DefaultMultiplier(w), DefaultIncrement(w), Pow2(w));
            && (w == 8 ==> first == 77 && second == 218)
            && (w == 16 ==> first == 47989 && second == 60818)
            && (w == 32 ==> first == 2891336453 && second == 3639132858)
            && (w == 64 ==> first == 1442695040888963407 && second == 7806831264735756412)
            && (w == 128 ==> first == 117397592171526113268558934119004209487
                             && second == 164423839859468235116703141610841733012)
  {
    hide Pow2;
    WordSizes();
  }

  lemma FiveMod8IsOneMod4(a: int)
    requires FiveMod8(a)
    ensures OneMod4(a) && Odd(a)
  {
    var q := a / 8;
    assert a == 8 * q + 5;
    DivModUnique(a, 4, 2 * q + 1, 1);
    DivModUnique(a, 2, 4 * q + 2, 1);
  }

  /** An MCG keeps its two lowest bits. */
  lemma {:induction false} McgKeepsLowBits(s: nat, n: nat, a: nat, w: nat)
    requires w >= 2 && s < Pow2(w) && OneMod4(a)
    ensures Steps(s, n, a, 0, Pow2(w)) % 4 == s % 4
  {
    if n == 0 {
    } else {
      McgKeepsLowBits(s, n - 1, a, w);
      var t := Steps(s, n - 1, a, 0, Pow2(w));
      assert Steps(s, n, a, 0, Pow2(w)) == (t * a) % Pow2(w);
      assert ((t * a) % Pow2(w)) % 4 == t % 4 by {
        hide *;
        LowTwoBits(t, a, w);
      }
    }
  }

  lemma LowTwoBits(t: nat, a: nat, w: nat)
    requires w >= 2 && OneMod4(a)
    ensures ((t * a) % Pow2(w)) % 4 == t % 4
  {
    Pow2Add(2, w - 2);
    SmallPowers();
    ModProduct(t, t, a, 1, 4);
    hide Pow2, OneMod4;
    ModTwice(t * a, Pow2(w));
    ModDivisor((t * a) % Pow2(w), t * a, 4, Pow2(w - 2));
  }

  lemma AgreeWhole(x: nat, y: nat, w: nat)
    requires x < Pow2(w) && y < Pow2(w)
    ensures Agree(x, y, w) <==> x == y
  {
    SmallMod(x, Pow2(w));
    SmallMod(y, Pow2(w));
  }

  class Engine {
    const w: nat
    const isMcg: bool
    const mult: nat
    var inc: nat
    var state: nat

    ghost predicate Valid()
      reads this
    {
      && mult < Pow2(w) && inc < Pow2(w) && state < Pow2(w)
      && if isMcg then FiveMod8(mult) && inc == 0 && state % 4 == 3 else OneMod4(mult) && Odd(inc)
    }

    /** Seeding: an MCG sets its two fixed bits, the others step once from the shifted seed. */
    constructor (w: nat, isMcg: bool, mult: nat, inc: nat, seed: nat)
      requires mult < Pow2(w) && inc < Pow2(w) && seed < Pow2(w)
      requires if isMcg then FiveMod8(mult) && inc == 0 else OneMod4(mult) && Odd(inc)
      ensures Valid() && this.w == w && this.isMcg == isMcg && this.mult == mult && this.inc == inc
      ensures state == if isMcg then Or(seed, 3) else Bump((seed + inc) % Pow2(w), mult, inc, Pow2(w))
    {
      WidthOfMultiplier(isMcg, mult, w);
      if isMcg { SetLowBits(seed, w); }
      this.w := w;
      this.isMcg := isMcg;
      this.mult := mult;
      this.inc := inc;
      state := if isMcg then Or(seed, 3) else Bump((seed + inc) % Pow2(w), mult, inc, Pow2(w));
    }

    /** Every stream has an odd increment, and distinct sequences below 2^(w-1) have distinct ones. */
    method SetStream(specificSeq: nat)
      requires Valid() && !isMcg && specificSeq < Pow2(w)
      modifies this`inc
      ensures Valid() && inc == 2 * Low(specificSeq, w - 1) + 1
    {
      WidthOfMultiplier(isMcg, mult, w);
      StreamIncrement(specificSeq, w);
      inc := Or((specificSeq * 2) % Pow2(w), 1);
    }

    method BaseGenerate() returns (r: nat)
      requires Valid()
      modifies this`state
      ensures Valid() && r == state == Steps(old(state), 1, mult, inc, Pow2(w))
    {
      StaysValid(state, 1);
      assert Steps(state, 1, mult, inc, Pow2(w)) == Bump(Steps(state, 0, mult, inc, Pow2(w)), mult, inc, Pow2(w));
      state := Bump(state, mult, inc, Pow2(w));
      r := state;
    }

    method AdvanceBy(delta: nat)
      requires Valid() && delta < Pow2(w)
      modifies this`state
      ensures Valid() && state == Steps(old(state), delta, mult, inc, Pow2(w))
    {
      StaysValid(state, delta);
      state := Advance(state, delta, mult, inc, w);
    }

    /** Going backwards is going forwards the long way round. */
    method Backstep(delta: nat)
      requires Valid() && delta < Pow2(w)
      modifies this`state
      ensures Valid() && Steps(state, delta, mult, inc, Pow2(w)) == old(state)
    {
      OddMultiplier();
      BackstepUndoes(state, Negation(delta, Pow2(w)), mult, inc, w);
      AdvanceBy(Negation(delta, Pow2(w)));
    }

    /** Exactly the step counts congruent to the result lead there; a mask of `bits` ones compares that many bits. */
    method DistanceTo(newstate: nat, mask: nat, ghost bits: nat) returns (r: nat)
      requires Valid() && newstate < Pow2(w) && (isMcg ==> newstate % 4 == 3)
      requires FixedBits(isMcg) <= bits <= w && mask < Pow2(bits)
      ensures And(Steps(state, r, mult, inc, Pow2(w)), mask) == And(newstate, mask)
      ensures r < Pow2(bits - FixedBits(isMcg))
      ensures mask == Pow2(bits) - 1 ==>
                forall n: nat :: Agree(Steps(state, n, mult, inc, Pow2(w)), newstate, bits)
                                 <==> n % Pow2(bits - FixedBits(isMcg)) == r
      ensures bits == w && mask == Pow2(w) - 1 ==>
                forall n: nat :: Steps(state, n, mult, inc, Pow2(w)) == newstate
                                 <==> n % Pow2(w - FixedBits(isMcg)) == r
    {
      hide Steps, Pow2, OneMod4, FiveMod8, Odd, And;
      if isMcg { ThreeMod4IsOdd(newstate); }
      ghost var iterations;
      r, iterations := Distance(isMcg, state, newstate, mult, inc, mask, w, bits);
      if bits == w && mask == Pow2(w) - 1 {
        forall n: nat
          ensures Steps(state, n, mult, inc, Pow2(w)) == newstate <==> n % Pow2(w - FixedBits(isMcg)) == r
        {
          AgreeWhole(Steps(state, n, mult, inc, Pow2(w)), newstate, w);
        }
      }
    }

    lemma OddMultiplier()
      requires Valid()
      ensures OneMod4(mult) && Odd(mult)
    {
      if isMcg { FiveMod8IsOneMod4(mult); } else { OneMod4IsOdd(mult); }
    }

    lemma StaysValid(s: nat, n: nat)
      requires Valid() && s == state
      ensures isMcg ==> Steps(s, n, mult, inc, Pow2(w)) % 4 == 3
    {
      OddMultiplier();
      WidthOfMultiplier(isMcg, mult, w);
      if isMcg { McgKeepsLowBits(s, n, mult, w); }
    }
  }

  lemma ThreeMod4IsOdd(x: int)
    requires x % 4 == 3
    ensures Odd(x)
  {
    var q := x / 4;
    assert x == 4 * q + 3;
    DivModUnique(x, 2, 2 * q + 1, 1);
  }

  lemma SetLowBits(x: nat, w: nat)
    requires w >= 3 && x < Pow2(w)
    ensures Or(x, 3) < Pow2(w) && Or(x, 3) % 4 == 3
  {
    hide *;
    var h, p := x / 4, Pow2(w - 2);
    Pow2Add(2, w - 2);
    SmallPowers();
    OrLowThree(x);
    DivLess(x, 4, p);
    DivModUnique(4 * h + 3, 4, h, 3);
  }

  lemma OrLowThree(x: nat)
    ensures Or(x, 3) == 4 * (x / 4) + 3
  {
    var y, z := x / 2, x / 4;
    assert y / 2 == z;
    OrZero(z);
    assert Or(y, 1) == 1 + 2 * z;
  }

  lemma StreamIncrement(x: nat, w: nat)
    requires w >= 1
    ensures Or((x * 2) % Pow2(w), 1) == 2 * Low(x, w - 1) + 1 < Pow2(w)
    ensures Odd(2 * Low(x, w - 1) + 1)
  {
    hide *;
    ShiftedStream(x, w);
    SetLowBit(Low(x, w - 1));
  }

  lemma SetLowBit(y: nat)
    ensures Or(2 * y, 1) == 2 * y + 1 && Odd(2 * y + 1)
  {
    OrZero(y);
    DivModUnique(2 * y, 2, y, 0);
    DivModUnique(2 * y + 1, 2, y, 1);
  }

  lemma ShiftedStream(x: nat, w: nat)
    requires w >= 1
    ensures (x * 2) % Pow2(w) == 2 * Low(x, w - 1) && 2 * Low(x, w - 1) + 1 < Pow2(w)
  {
    var p := Pow2(w - 1);
    assert Pow2(w) == 2 * p;
    hide Pow2;
    DivModIdentity(x, p);
    MulSwapTwo(x / p, p);
    DivModUnique(2 * x, 2 * p, x / p, 2 * (x % p));
  }
}
