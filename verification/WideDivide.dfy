/** The division of wide::integer: binary long division, and the signed operators built on it. */
module WideDivide {
  import opened Powers
  import opened Bits
  import opened Blocks
  import opened WideItems
  import opened WideMultiply
  import opened WideIntegers

  // ---- Moving by one bit ----

  /** `d << e` without truncation. */
  function Shl(d: nat, e: nat): nat { d * Pow2(e) }

  lemma ShlStep(d: nat, e: nat)
    ensures Shl(d, 0) == d && Shl(d, e + 1) == 2 * Shl(d, e) && Shl(d, e + 1) / 2 == Shl(d, e)
  {
    assert Pow2(0) == 1;
    hide Pow2;
    Pow2Next(e);
    MulSwapTwo(d, Pow2(e));
  }

  lemma UnsignedResult(x: seq<Blk>, v: int)
    requires 0 <= v < BPow(|x|) && Val(x) == Mod(v, |x|)
    ensures Val(x) == v
  {
    hide Val, BPow;
    SmallMod(v, BPow(|x|));
  }

  lemma OneBitFits(k: nat)
    requires k >= 1 && N >= 2
    ensures 1 < N * k
  {
    MulMono(N, 1, k);
  }

  method Double(x: seq<Blk>) returns (r: seq<Blk>)
    requires |x| >= 1 && N >= 2 && 2 * Val(x) < BPow(|x|)
    ensures |r| == |x| && Val(r) == 2 * Val(x)
  {
    hide *;
    OneBitFits(|x|);
    r := ShiftLeft(x, 1);
    SmallPowers();
    UnsignedResult(r, 2 * Val(x));
  }

  method Halve(x: seq<Blk>) returns (r: seq<Blk>)
    requires |x| >= 1 && N >= 2
    ensures |r| == |x| && Val(r) == Val(x) / 2
  {
    hide *;
    OneBitFits(|x|);
    r := ShiftRight(false, x, 1);
    SmallPowers();
    UnsignedValue(x);
    UnsignedValue(r);
  }

  /** The test on the shifted-out sign position. */
  method TopBitClear(x: seq<Blk>) returns (r: bool)
    requires |x| >= 1 && N >= 2
    ensures r <==> Val(x) < Half(|x|)
  {
    hide *;
    OneBitFits(|x|);
    var top := ShiftRight(false, x, N * |x| - 1);
    One();
    var bit := Amp(false, top, [1]);
    r := IsZero(bit);
    UnsignedValue(x);
    UnsignedValue(top);
    ValBound(x);
    TopBit(Val(x), |x|, N * |x| - 1);
  }

  lemma TopBit(v: nat, k: nat, e: nat)
    requires k >= 1 && v < BPow(k) && e + 1 == N * k
    ensures And(v / Pow2(e), 1) == 0 <==> v < Half(k)
  {
    hide BPow, Pow2, Half;
    BPowIsPow2(k);
    Pow2Next(e);
    DivModIdentity(v, Pow2(e));
    DivLess(v, Pow2(e), 2);
    if v < Half(k) { SmallMod(v, Pow2(e)); }
  }

  // ---- Binary long division ----

  datatype Division = Quotient(quotient: seq<Blk>, remainder: seq<Blk>) | DivisionByZero

  /** Doubles the denominator until it passes the numerator, losing no bit. */
  method ScaleUp(numerator: seq<Blk>, denominator: seq<Blk>) returns (x: seq<Blk>, scaled: seq<Blk>, ghost e: nat)
    requires |numerator| == |denominator| >= 1 && N >= 2 && Val(denominator) > 0
    ensures |x| == |scaled| == |numerator|
    ensures Val(x) == Pow2(e) && Val(scaled) == Shl(Val(denominator), e)
    ensures Val(numerator) < Shl(Val(denominator), e + 1)
  {
    hide *;
    ghost var d, k := Val(denominator), |numerator|;
    One();
    ResizedVal([1], k);
    x, scaled, e := Resized([1], |numerator|), denominator, 0;
    ShlStep(d, 0);
    SmallPowers();
    ValBound(numerator);
    UnsignedValue(numerator);
    UnsignedValue(scaled);
    var greater := Greater(false, scaled, numerator);
    SameWidth(numerator, scaled);
    var clear := TopBitClear(scaled);
    while !greater && clear
      invariant |x| == |scaled| == k && Val(x) == Pow2(e) && Val(scaled) == Shl(d, e) > 0
      invariant greater <==> Val(scaled) > Val(numerator)
      invariant clear <==> Val(scaled) < Half(k)
      decreases BPow(k) - Val(scaled)
    {
      PowerWithin(d, e);
      x := Double(x);
      scaled := Double(scaled);
      ShlStep(d, e);
      Pow2Next(e);
      e := e + 1;
      UnsignedValue(scaled);
      SameWidth(numerator, scaled);
      greater := Greater(false, scaled, numerator);
      clear := TopBitClear(scaled);
    }
    ShlStep(d, e);
  }

  lemma SameWidth(x: seq<Blk>, y: seq<Blk>)
    requires |x| == |y| >= 1
    ensures ZeroExtends(false, y, x)
  {
  }

  lemma PowerWithin(d: nat, e: nat)
    requires d >= 1
    ensures Pow2(e) <= Shl(d, e)
  {
    MulMono(Pow2(e), 1, d);
  }

  /** `x` is the bit `s`, and `scaled` the denominator `d` at that bit. */
  ghost predicate AtBit(x: seq<Blk>, scaled: seq<Blk>, d: nat, s: nat) {
    Val(x) == Pow2(s) && Val(scaled) == Shl(d, s)
  }

  /** Above the bit `s` the quotient `qh` is decided, and the numerator holds what is left. */
  ghost predicate DecidedAbove(numerator: seq<Blk>, quotient: seq<Blk>, d: nat, s: nat, qh: nat) {
    Val(numerator) < Shl(d, s) && Val(quotient) == Shl(qh, s)
  }

  ghost function Dividend(quotient: seq<Blk>, remainder: seq<Blk>, d: nat): nat {
    Times(Val(quotient), d) + Val(remainder)
  }

  /** The quotient so far is a multiple of the next bit's double. */
  method DivideStep(numerator: seq<Blk>, quotient: seq<Blk>, x: seq<Blk>, scaled: seq<Blk>,
                    ghost d: nat, ghost s: nat, ghost qh: nat)
    returns (numerator': seq<Blk>, quotient': seq<Blk>, ghost qh': nat)
    requires |numerator| == |quotient| == |x| == |scaled| >= 1 && N >= 2
    requires AtBit(x, scaled, d, s) && DecidedAbove(numerator, quotient, d, s + 1, qh)
    ensures |numerator'| == |quotient'| == |numerator| && DecidedAbove(numerator', quotient', d, s, qh')
    ensures Dividend(quotient', numerator', d) == Dividend(quotient, numerator, d)
  {
    hide Val, Value, Shl, Times, Pow2, BPow, Mod, Or, ZeroExtends;
    numerator', quotient', qh' := numerator, quotient, 2 * qh;
    SameWidth(numerator, scaled);
    UnsignedValue(numerator);
    UnsignedValue(scaled);
    ShlStep(d, s);
    ShlDouble(qh, s);
    var greater := Greater(false, scaled, numerator);
    if !greater {
      numerator' := OperatorMinus(false, numerator, scaled);
      ValBound(numerator);
      UnsignedResult(numerator', Val(numerator) - Val(scaled));
      quotient' := Pipe(false, quotient, x);
      qh' := 2 * qh + 1;
      SetBit(qh, s);
      TimesBit(Val(quotient), s, d);
    }
  }

  lemma ShlDouble(q: nat, s: nat)
    ensures Shl(q, s + 1) == Shl(2 * q, s)
  {
    hide Pow2;
    Pow2Next(s);
    MulSwapTwo(q, Pow2(s));
  }

  lemma SetBit(q: nat, s: nat)
    ensures Or(Shl(q, s + 1), Pow2(s)) == Shl(q, s + 1) + Pow2(s) == Shl(2 * q + 1, s)
  {
    hide Pow2, Or;
    Pow2Next(s);
    OrDisjoint(Pow2(s), q, s + 1);
    MulDistrib(Pow2(s), 2 * q, 1);
    MulSwapTwo(q, Pow2(s));
  }

  lemma TimesBit(q: nat, s: nat, d: nat)
    ensures Times(q + Pow2(s), d) == Times(q, d) + Shl(d, s)
  {
    hide Pow2;
    MulDistrib(d, q, Pow2(s));
  }

  method LongDivide(numerator: seq<Blk>, denominator: seq<Blk>) returns (quotient: seq<Blk>, remainder: seq<Blk>)
    requires |numerator| == |denominator| >= 1 && N >= 2 && Val(denominator) > 0
    ensures |quotient| == |remainder| == |numerator|
    ensures Val(numerator) == Times(Val(quotient), Val(denominator)) + Val(remainder)
    ensures Val(remainder) < Val(denominator)
  {
    hide Val, Shl, Times, Pow2;
    ghost var d, k, s := Val(denominator), |numerator|, 0;
    var x, scaled;
    x, scaled, s := ScaleUp(numerator, denominator);
    quotient, remainder := Zero(|numerator|), numerator;
    s := s + 1;
    ghost var qh := 0;
    StartQuotient(d, s);
    var done := IsZero(x);
    while !done
      invariant |x| == |scaled| == |quotient| == |remainder| == k && (done <==> s == 0)
      invariant s > 0 ==> AtBit(x, scaled, d, s - 1)
      invariant DecidedAbove(remainder, quotient, d, s, qh) && Dividend(quotient, remainder, d) == Val(numerator)
      decreases s
    {
      remainder, quotient, qh := DivideStep(remainder, quotient, x, scaled, d, s - 1, qh);
      x := Halve(x);
      scaled := Halve(scaled);
      s := s - 1;
      HalvedBit(s);
      if s > 0 { ShlStep(d, s - 1); }
      done := IsZero(x);
    }
    ShlStep(d, 0);
  }

  lemma StartQuotient(d: nat, s: nat)
    ensures Times(0, d) == 0 && Shl(0, s) == 0
  {
  }

  lemma HalvedBit(s: nat)
    ensures Pow2(s) / 2 == if s == 0 then 0 else Pow2(s - 1)
  {
    if s > 0 { assert Pow2(s) == 2 * Pow2(s - 1); }
  }

  /** The compiler's own 128-bit division. */
  method NativeDivide(numerator: seq<Blk>, denominator: seq<Blk>) returns (quotient: seq<Blk>, remainder: seq<Blk>)
    requires |numerator| == |denominator| == 2 && Val(denominator) > 0
    ensures |quotient| == |remainder| == 2
    ensures Val(numerator) == Times(Val(quotient), Val(denominator)) + Val(remainder)
    ensures Val(remainder) < Val(denominator)
  {
    hide Val, BPow, Pair, HalfRange;
    TwoItems(numerator);
    TwoItems(denominator);
    ValBound(numerator);
    ValBound(denominator);
    var a, b := Pair(numerator[1], numerator[0]), Pair(denominator[1], denominator[0]);
    DivModIdentity(a, b);
    DivShrinks(a, b);
    var c := a / b;
    var hi, lo := SplitHalf(c);
    quotient := [lo, hi];
    hi, lo := SplitHalf(a - b * c);
    remainder := [lo, hi];
    TwoItems(quotient);
    TwoItems(remainder);
  }

  /** Returns the quotient, and the remainder in place of the numerator. */
  method Divide(numerator: seq<Blk>, denominator: seq<Blk>) returns (d: Division)
    requires |numerator| == |denominator| >= 1 && N >= 2
    requires Native128(|numerator|) ==> Val(denominator) != 0
    ensures d == DivisionByZero <==> Val(denominator) == 0
    ensures d.Quotient? ==>
      && |d.quotient| == |d.remainder| == |numerator|
      && Val(numerator) == Times(Val(d.quotient), Val(denominator)) + Val(d.remainder)
      && Val(d.remainder) < Val(denominator)
  {
    hide *;
    if Native128(|numerator|) {
      NativeIsTwo(|numerator|);
      var q, r := NativeDivide(numerator, denominator);
      return Quotient(q, r);
    }
    var zero := IsZero(denominator);
    if zero {
      return DivisionByZero;
    }
    var q, r := LongDivide(numerator, denominator);
    d := Quotient(q, r);
  }

  // ---- The signed operators ----

  /** Division that truncates toward zero. */
  function TruncDiv(a: int, b: int): int
    requires b != 0
  {
    if (a < 0) == (b < 0) then Abs(a) / Abs(b) else -(Abs(a) / Abs(b))
  }

  /** The remainder with the sign of the dividend. */
  function TruncMod(a: int, b: int): int
    requires b != 0
  {
    if a < 0 then -(Abs(a) % Abs(b)) else Abs(a) % Abs(b)
  }

  lemma Truncated(a: int, b: int)
    requires b != 0
    ensures a == TruncDiv(a, b) * b + TruncMod(a, b) && Abs(TruncMod(a, b)) < Abs(b)
    ensures a >= 0 ==> TruncMod(a, b) >= 0
    ensures a <= 0 ==> TruncMod(a, b) <= 0
  {
    var q, r := Abs(a) / Abs(b), Abs(a) % Abs(b);
    DivModIdentity(Abs(a), Abs(b));
    SignedProducts(q, b);
  }

  lemma SignedProducts(q: int, b: int)
    ensures -q * b == -(b * q) && q * -b == -(b * q) && -b * q == -(b * q) && q * b == b * q
  {
  }

  lemma TruncBounds(a: int, b: int)
    requires b != 0
    ensures Abs(TruncDiv(a, b)) <= Abs(a) && Abs(TruncMod(a, b)) <= Abs(a)
    ensures a != 0 ==> (Abs(TruncDiv(a, b)) == Abs(a) <==> Abs(b) == 1)
  {
    var x, y := Abs(a), Abs(b);
    DivModIdentity(x, y);
    DivShrinks(x, y);
    MulMono(y, 0, x / y);
    if x > 0 && y > 1 && x / y == x {
      MulMono(x, 2, y);
      assert false;
    }
  }

  datatype Result = Success(value: seq<Blk>) | Failure(error: string)

  /** The one quotient that does not fit: the minimum over minus one. */
  predicate Overflows(signed: bool, a: int, b: int, k: nat)
    requires k >= 1
  {
    signed && a == -(Half(k) as int) && b == -1
  }

  method OperatorSlash(signed: bool, lhs: seq<Blk>, rhs: seq<Blk>) returns (res: Result)
    requires |lhs| >= 1 && |rhs| >= 1 && N >= 2 && (Native128(Max(|lhs|, |rhs|)) ==> Value(signed, rhs) != 0)
    ensures res.Failure? <==> Value(signed, rhs) == 0
    ensures res.Success? ==>
      var a, b, k := Value(signed, lhs), Value(signed, rhs), Max(|lhs|, |rhs|);
      && |res.value| == k && Val(res.value) == Mod(TruncDiv(a, b), k)
      && (Value(signed, res.value) == TruncDiv(a, b) <==> !Overflows(signed, a, b, k))
  {
    hide Val, Value, BPow, Mod, Half, IsNegative, Native128, Times, Overflows, TruncMod;
    var l := ToCommon(signed, lhs, |rhs|);
    var numerator := MakePositive(signed, l);
    var converted := Convert(signed, rhs, |l|);
    var denominator := MakePositive(signed, converted);
    var d := Divide(numerator, denominator);
    match d {
      case DivisionByZero =>
        return Failure("Division by zero");
      case Quotient(q, r) =>
        ghost var a, b := Value(signed, lhs), Value(signed, rhs);
        QuotientIs(Abs(a), Abs(b), Val(q), Val(r));
        if IsNegative(signed, rhs) != IsNegative(signed, l) {
          q := UnaryMinus(q);
        } else {
          Reduced(q);
        }
        ValueMod(signed, rhs);
        QuotientInRange(signed, l, b, q);
        return Success(q);
    }
  }

  lemma QuotientIs(n: nat, d: nat, q: nat, r: nat)
    requires n == Times(q, d) + r && r < d
    ensures q == n / d && r == n % d
  {
    DivModUnique(n, d, q, r);
  }

  lemma QuotientInRange(signed: bool, lhs: seq<Blk>, b: int, q: seq<Blk>)
    requires |q| == |lhs| >= 1 && b != 0 && (!signed ==> b > 0) && Val(q) == Mod(TruncDiv(Value(signed, lhs), b), |lhs|)
    ensures Value(signed, q) == TruncDiv(Value(signed, lhs), b) <==> !Overflows(signed, Value(signed, lhs), b, |lhs|)
  {
    hide Val, Value, BPow, Mod, Half;
    var a := Value(signed, lhs);
    ValueMod(signed, lhs);
    TruncBounds(a, b);
    ValueMod(signed, q);
    TruncSign(a, b);
    if !Overflows(signed, a, b, |lhs|) {
      ValueUnique(signed, q, TruncDiv(a, b));
    }
  }

  lemma TruncSign(a: int, b: int)
    requires b != 0
    ensures (a < 0) == (b < 0) ==> TruncDiv(a, b) >= 0
    ensures (a < 0) != (b < 0) ==> TruncDiv(a, b) <= 0
  {
    DivNonneg(Abs(a), Abs(b));
  }

  method OperatorPercent(signed: bool, lhs: seq<Blk>, rhs: seq<Blk>) returns (res: Result)
    requires |lhs| >= 1 && |rhs| >= 1 && N >= 2 && (Native128(Max(|lhs|, |rhs|)) ==> Value(signed, rhs) != 0)
    ensures res.Failure? <==> Value(signed, rhs) == 0
    ensures res.Success? ==>
      && |res.value| == Max(|lhs|, |rhs|)
      && Value(signed, res.value) == TruncMod(Value(signed, lhs), Value(signed, rhs))
  {
    hide Val, Value, BPow, Mod, Half, IsNegative, Native128, Times, TruncDiv;
    var l := ToCommon(signed, lhs, |rhs|);
    var numerator := MakePositive(signed, l);
    var converted := Convert(signed, rhs, |l|);
    var denominator := MakePositive(signed, converted);
    var d := Divide(numerator, denominator);
    match d {
      case DivisionByZero =>
        return Failure("Division by zero");
      case Quotient(q, r) =>
        ghost var a, b := Value(signed, lhs), Value(signed, rhs);
        QuotientIs(Abs(a), Abs(b), Val(q), Val(r));
        if IsNegative(signed, l) {
          r := UnaryMinus(r);
        } else {
          Reduced(r);
        }
        RemainderInRange(signed, l, b, r);
        return Success(r);
    }
  }

  lemma RemainderInRange(signed: bool, lhs: seq<Blk>, b: int, r: seq<Blk>)
    requires |r| == |lhs| >= 1 && b != 0 && Val(r) == Mod(TruncMod(Value(signed, lhs), b), |lhs|)
    ensures Value(signed, r) == TruncMod(Value(signed, lhs), b)
  {
    hide Val, Value, BPow, Mod, Half;
    var a := Value(signed, lhs);
    ValueMod(signed, lhs);
    TruncBounds(a, b);
    Truncated(a, b);
    ValueUnique(signed, r, TruncMod(a, b));
  }

  /** The minimum of two items over minus one: the quotient wraps to the minimum itself. */
  method MinimumOverMinusOne() returns (res: Result)
    requires N >= 2
    ensures Pow2(N - 1) < B && res == Success([0, Pow2(N - 1)])
    ensures var minimum: seq<Blk>, minusOne: seq<Blk> := [0, Pow2(N - 1)], [B - 1];
            && Value(true, minimum) == -(Half(2) as int) && Value(true, minusOne) == -1
            && TruncDiv(Value(true, minimum), Value(true, minusOne)) == Half(2)
  {
    hide Val, Value, BPow, Mod, Half, TruncDiv, Pow2;
    MinimumItems();
    var minimum: seq<Blk>, minusOne: seq<Blk> := [0, Pow2(N - 1)], [B - 1];
    res := OperatorSlash(true, minimum, minusOne);
    WrappedMinimum(minimum, res.value);
  }

  lemma MinimumItems()
    requires N >= 2
    ensures Pow2(N - 1) < B
    ensures var minimum: seq<Blk>, minusOne: seq<Blk> := [0, Pow2(N - 1)], [B - 1];
            && Value(true, minimum) == -(Half(2) as int) && Value(true, minusOne) == -1
            && TruncDiv(-(Half(2) as int), -1) == Half(2)
  {
    OnesBelowZero();
    Pow2StrictMono(N - 1, N);
    hide Pow2;
    var minimum: seq<Blk> := [0, Pow2(N - 1)];
    TwoItems(minimum);
    HalfOfTwo();
  }

  lemma HalfOfTwo()
    ensures Half(2) == Pow2(N - 1) * B
  {
    assert BPow(1) == B;
  }

  lemma WrappedMinimum(minimum: seq<Blk>, q: seq<Blk>)
    requires |minimum| == |q| == 2 && Value(true, minimum) == -(Half(2) as int) && Val(q) == Mod(Half(2), 2)
    ensures q == minimum
  {
    hide Val, BPow, Half;
    SignItem(minimum);
    SmallMod(Half(2), BPow(2));
    ValInjective(q, minimum);
  }
}
