/** The operators of wide::integer: arithmetic modulo 2^Bits, two's complement when signed. */
module WideIntegers {
  import opened Powers
  import opened Bits
  import opened Blocks
  import opened WideItems
  import opened WideMultiply

  function Abs(x: int): nat { if x < 0 then -x else x }

  lemma UnsignedValue(x: seq<Blk>)
    requires |x| >= 1
    ensures Value(false, x) == Val(x)
  {
  }

  // ---- Negation ----

  method Tilde(lhs: seq<Blk>) returns (res: seq<Blk>)
    ensures |res| == |lhs| && Val(res) == BPow(|lhs|) - 1 - Val(lhs)
  {
    hide Val, BPow;
    var items := new Blk[|lhs|];
    for i := 0 to |lhs|
      invariant forall j :: 0 <= j < i ==> items[j] == B - 1 - lhs[j]
    {
      items[i] := B - 1 - lhs[i];
    }
    res := items[..];
    ValComplement(lhs, res);
  }

  lemma {:induction false} ValComplement(x: seq<Blk>, y: seq<Blk>)
    requires |x| == |y| && forall i :: 0 <= i < |x| ==> y[i] == B - 1 - x[i]
    ensures Val(x) + Val(y) == BPow(|x|) - 1
  {
    if x == [] {
    } else {
      var n := |x| - 1;
      ValComplement(x[..n], y[..n]);
      AtSum(x[n], y[n], n);
      AtPowers(n, 0);
      AtDiff(B, 1, n);
    }
  }

  method UnaryMinus(lhs: seq<Blk>) returns (res: seq<Blk>)
    requires |lhs| >= 1 && N >= 2
    ensures |res| == |lhs| && Val(res) == Mod(-(Val(lhs) as int), |lhs|)
  {
    hide *;
    var complement := Tilde(lhs);
    One();
    res := Plus(complement, [1]);
    WrapAround(-(Val(lhs) as int), |lhs|);
  }

  lemma One()
    requires N >= 2
    ensures 1 < B && Val([1]) == 1
  {
    assert B == 2 * Pow2(N - 1);
    var one: seq<Blk> := [1];
    assert one[..0] == [] && Val(one[..0]) == 0 && BPow(0) == 1;
  }

  lemma WrapAround(v: int, k: nat)
    ensures Mod(v + BPow(k), k) == Mod(v, k)
  {
    hide BPow;
    ModSelfMultiple(v, 1, BPow(k));
  }

  method MakePositive(signed: bool, n: seq<Blk>) returns (res: seq<Blk>)
    requires |n| >= 1 && N >= 2
    ensures |res| == |n| && Val(res) == Abs(Value(signed, n))
  {
    hide Val, BPow, Mod, Half, IsNegative;
    res := n;
    SignItem(n);
    if IsNegative(signed, n) {
      res := UnaryMinus(n);
      NegativeMagnitude(n);
    }
  }

  lemma NegativeMagnitude(n: seq<Blk>)
    requires |n| >= 1 && Value(true, n) < 0
    ensures Mod(-(Val(n) as int), |n|) == -Value(true, n)
  {
    hide Val, BPow, Half;
    SignItem(n);
    ModSelfMultiple(-(Val(n) as int), 1, BPow(|n|));
    SmallMod(BPow(|n|) - Val(n), BPow(|n|));
  }

  // ---- Conversion ----

  /** Widening repeats the sign; narrowing drops the upper items. */
  method Convert(signed: bool, x: seq<Blk>, k: nat) returns (res: seq<Blk>)
    requires |x| >= 1 && k >= 1
    ensures |res| == k && Val(res) == Mod(Value(signed, x), k)
    ensures |x| <= k ==> Value(signed, res) == Value(signed, x)
  {
    hide *;
    if k > |x| && IsNegative(signed, x) {
      var items := new Blk[k];
      CopyAndFill(items, x);
      res := items[..];
      NegativeIsSigned(signed, x);
      SignExtended(x, res);
    } else {
      res := Resized(x, k);
      ResizedVal(x, k);
      ConvertedUnchanged(signed, x, k);
    }
    if |x| <= k { InWiderRange(signed, x, res); }
  }

  method CopyAndFill(items: array<Blk>, x: seq<Blk>)
    requires |x| <= items.Length
    modifies items
    ensures items[..|x|] == x && forall i :: |x| <= i < items.Length ==> items[i] == B - 1
  {
    for i := 0 to |x|
      invariant items[..i] == x[..i]
    {
      items[i] := x[i];
    }
    for i := |x| to items.Length
      invariant items[..|x|] == x && forall j :: |x| <= j < i ==> items[j] == B - 1
    {
      items[i] := B - 1;
    }
  }

  lemma SignExtended(x: seq<Blk>, r: seq<Blk>)
    requires 1 <= |x| <= |r| && r[..|x|] == x && (forall i :: |x| <= i < |r| ==> r[i] == B - 1) && Value(true, x) < 0
    ensures Val(r) == Mod(Value(true, x), |r|)
  {
    hide Val, BPow, At, Half, Mod;
    SignItem(x);
    ValSplit(r, |x|);
    ValOnes(r[|x|..]);
    AtDiff(BPow(|r| - |x|), 1, |x|);
    AtPowers(|x|, |r| - |x|);
    WrapAround(Value(true, x), |r|);
    Reduced(r);
  }

  lemma ConvertedUnchanged(signed: bool, x: seq<Blk>, k: nat)
    requires |x| >= 1 && k >= 1 && (k > |x| ==> Value(signed, x) >= 0)
    ensures Mod(Val(x), k) == Mod(Value(signed, x), k)
  {
    hide Val, BPow, Half, Mod;
    SignItem(x);
    if Value(signed, x) < 0 {
      MultipleTaken(Val(x), |x|, k);
    }
  }

  lemma MultipleTaken(v: int, j: nat, k: nat)
    requires k <= j
    ensures Mod(v - BPow(j), k) == Mod(v, k)
  {
    hide BPow;
    BPowAdd(j - k, k);
    var p, m := BPow(j - k), BPow(k);
    ModSelfMultiple(v - p * m, p, m);
  }

  lemma InWiderRange(signed: bool, x: seq<Blk>, r: seq<Blk>)
    requires 1 <= |x| <= |r| && Val(r) == Mod(Value(signed, x), |r|)
    ensures Value(signed, r) == Value(signed, x)
  {
    hide Val, Value, Mod, BPow, Half;
    ValueMod(signed, x);
    BPowMono(|x|, |r|);
    ValueUnique(signed, r, Value(signed, x));
  }

  function Max(i: nat, j: nat): (r: nat)
    ensures r >= i && r >= j && (r == i || r == j)
  {
    if i < j then j else i
  }

  /** The left operand in the common type of the two operands. */
  method ToCommon(signed: bool, lhs: seq<Blk>, n: nat) returns (l: seq<Blk>)
    requires |lhs| >= 1
    ensures |l| == Max(|lhs|, n) && Value(signed, l) == Value(signed, lhs)
    ensures n <= |lhs| ==> l == lhs
  {
    hide Val, Value, Mod;
    l := lhs;
    if |lhs| < n {
      l := Convert(signed, lhs, n);
    }
  }

  // ---- Sums and products ----

  /** The operands may have different widths; the result has the larger one. */
  method OperatorPlus(signed: bool, lhs: seq<Blk>, rhs: seq<Blk>) returns (res: seq<Blk>)
    requires |lhs| >= 1 && |rhs| >= 1 && N >= 2
    ensures |res| == Max(|lhs|, |rhs|) && Val(res) == Mod(Value(signed, lhs) + Value(signed, rhs), |res|)
  {
    hide Val, BPow, Mod, Half, IsNegative;
    var l := ToCommon(signed, lhs, |rhs|);
    SignItem(rhs);
    if IsNegative(signed, rhs) {
      var opposite := MakePositive(signed, rhs);
      res := Minus(l, opposite);
    } else {
      res := Plus(l, rhs);
    }
    SumOfValues(signed, l, Value(signed, rhs));
  }

  method OperatorMinus(signed: bool, lhs: seq<Blk>, rhs: seq<Blk>) returns (res: seq<Blk>)
    requires |lhs| >= 1 && |rhs| >= 1 && N >= 2
    ensures |res| == Max(|lhs|, |rhs|) && Val(res) == Mod(Value(signed, lhs) - Value(signed, rhs), |res|)
  {
    hide Val, BPow, Mod, Half, IsNegative;
    var l := ToCommon(signed, lhs, |rhs|);
    SignItem(rhs);
    if IsNegative(signed, rhs) {
      var opposite := MakePositive(signed, rhs);
      res := Plus(l, opposite);
    } else {
      res := Minus(l, rhs);
    }
    SumOfValues(signed, l, -Value(signed, rhs));
  }

  lemma SumOfValues(signed: bool, x: seq<Blk>, v: int)
    requires |x| >= 1
    ensures Mod(Val(x) + v, |x|) == Mod(Value(signed, x) + v, |x|)
  {
    hide *;
    ValueMod(signed, x);
    ModOfReduced(v, Value(signed, x), |x|);
  }

  method OperatorStar(signed: bool, lhs: seq<Blk>, rhs: seq<Blk>) returns (res: seq<Blk>)
    requires |lhs| >= 1 && |rhs| >= 1 && N >= 3
    ensures |res| == Max(|lhs|, |rhs|) && Val(res) == Mod(Value(signed, lhs) * Value(signed, rhs), |res|)
  {
    hide Val, Value, BPow, Mod, Half, IsNegative, Abs;
    var l := ToCommon(signed, lhs, |rhs|);
    var x := MakePositive(signed, l);
    var y := MakePositive(signed, rhs);
    res := Multiply(x, y);
    AbsProduct(Value(signed, l), Value(signed, rhs));
    if IsNegative(signed, l) != IsNegative(signed, rhs) {
      res := UnaryMinus(res);
      ModOfReduced(0, Val(x) * Val(y), |l|);
    }
  }

  lemma AbsProduct(x: int, y: int)
    ensures Abs(x) * Abs(y) == if (x < 0) == (y < 0) then x * y else -(x * y)
  {
  }

  // ---- Comparison ----

  /** Where reading the missing items of `rhs` as zeros keeps its value. */
  predicate ZeroExtends(signed: bool, lhs: seq<Blk>, rhs: seq<Blk>)
    requires |rhs| >= 1
  {
    |rhs| >= |lhs| || Value(signed, rhs) >= 0
  }

  /** The loop of all comparisons, from the top item: -1, 0 or 1. */
  method CompareItems(lhs: seq<Blk>, rhs: seq<Blk>) returns (c: int)
    requires |rhs| <= |lhs|
    ensures c == if Val(lhs) < Val(rhs) then -1 else if Val(lhs) > Val(rhs) then 1 else 0
  {
    hide Val, Resized;
    for i := 0 to |lhs|
      invariant forall j :: |lhs| - i <= j < |lhs| ==> lhs[j] == Item(rhs, j)
    {
      var k := |lhs| - 1 - i;
      if lhs[k] != Item(rhs, k) {
        FirstDifference(lhs, rhs, k);
        return if lhs[k] < Item(rhs, k) then -1 else 1;
      }
    }
    NoDifference(lhs, rhs);
    c := 0;
  }

  lemma FirstDifference(x: seq<Blk>, y: seq<Blk>, k: nat)
    requires |y| <= |x| && k < |x| && forall j :: k < j < |x| ==> x[j] == Item(y, j)
    ensures x[k] < Item(y, k) ==> Val(x) < Val(y)
    ensures x[k] > Item(y, k) ==> Val(x) > Val(y)
  {
    hide Val;
    var r := Resized(y, |x|);
    ResizedVal(y, |x|);
    assert x[k + 1..] == r[k + 1..];
    if x[k] < r[k] {
      ValOrder(x, r, k);
    } else if x[k] > r[k] {
      ValOrder(r, x, k);
    }
  }

  lemma NoDifference(x: seq<Blk>, y: seq<Blk>)
    requires |y| <= |x| && forall j :: 0 <= j < |x| ==> x[j] == Item(y, j)
    ensures Val(x) == Val(y)
  {
    hide Val;
    assert x == Resized(y, |x|);
    ResizedVal(y, |x|);
  }

  method Greater(signed: bool, lhs: seq<Blk>, rhs: seq<Blk>) returns (r: bool)
    requires |lhs| >= 1 && |rhs| >= 1
    ensures if ZeroExtends(signed, lhs, rhs) then r <==> Value(signed, lhs) > Value(signed, rhs) else r
  {
    hide Val, Value, BPow, IsNegative;
    var l := ToCommon(signed, lhs, |rhs|);
    if IsNegative(signed, l) != IsNegative(signed, rhs) {
      return IsNegative(signed, rhs);
    }
    var c := CompareItems(l, rhs);
    r := c > 0;
    SignedOrder(signed, l, rhs);
  }

  method Less(signed: bool, lhs: seq<Blk>, rhs: seq<Blk>) returns (r: bool)
    requires |lhs| >= 1 && |rhs| >= 1
    ensures if ZeroExtends(signed, lhs, rhs) then r <==> Value(signed, lhs) < Value(signed, rhs) else !r
  {
    hide Val, Value, BPow, IsNegative;
    var l := ToCommon(signed, lhs, |rhs|);
    if IsNegative(signed, l) != IsNegative(signed, rhs) {
      return IsNegative(signed, l);
    }
    var c := CompareItems(l, rhs);
    r := c < 0;
    SignedOrder(signed, l, rhs);
  }

  lemma SignedOrder(signed: bool, x: seq<Blk>, y: seq<Blk>)
    requires 1 <= |y| <= |x| && ((Value(signed, x) < 0) == (Value(signed, y) < 0))
    ensures ZeroExtends(signed, x, y) ==> (Val(x) < Val(y) <==> Value(signed, x) < Value(signed, y))
    ensures ZeroExtends(signed, x, y) ==> (Val(x) > Val(y) <==> Value(signed, x) > Value(signed, y))
    ensures !ZeroExtends(signed, x, y) ==> Val(x) > Val(y)
  {
    hide Val, BPow, Half;
    SignItem(x);
    SignItem(y);
    if !ZeroExtends(signed, x, y) {
      assert |y| < |x|;
      BPowMono(|y|, |x| - 1);
      HalfBound(|x|);
    }
  }

  lemma HalfBound(k: nat)
    requires k >= 1
    ensures Half(k) >= BPow(k - 1)
  {
    MulMono(BPow(k - 1), 1, Pow2(N - 1));
  }

  method EqItems(lhs: seq<Blk>, rhs: seq<Blk>) returns (r: bool)
    requires |rhs| <= |lhs|
    ensures r <==> Val(lhs) == Val(rhs)
  {
    hide Val;
    ghost var x := Resized(rhs, |lhs|);
    ResizedVal(rhs, |lhs|);
    for i := 0 to |lhs|
      invariant forall j :: 0 <= j < i ==> lhs[j] == x[j]
    {
      if lhs[i] != Item(rhs, i) {
        if Val(lhs) == Val(x) { ValInjective(lhs, x); }
        return false;
      }
    }
    assert lhs == x;
    r := true;
  }

  /** Equal values, except that a narrower negative right operand is read as a nonnegative number. */
  method Eq(signed: bool, lhs: seq<Blk>, rhs: seq<Blk>) returns (r: bool)
    requires |lhs| >= 1 && |rhs| >= 1
    ensures if ZeroExtends(signed, lhs, rhs) then r <==> Value(signed, lhs) == Value(signed, rhs)
            else r <==> Val(lhs) == Val(rhs)
  {
    hide Val, Value, BPow;
    var l := ToCommon(signed, lhs, |rhs|);
    r := EqItems(l, rhs);
    if ZeroExtends(signed, l, rhs) { SignedEquality(signed, l, rhs); }
  }

  lemma SignedEquality(signed: bool, x: seq<Blk>, y: seq<Blk>)
    requires 1 <= |y| <= |x| && ZeroExtends(signed, x, y)
    ensures Val(x) == Val(y) <==> Value(signed, x) == Value(signed, y)
  {
    hide Val, BPow, Half;
    SignItem(x);
    SignItem(y);
    if |y| < |x| {
      BPowMono(|y|, |x| - 1);
      HalfBound(|x|);
    }
  }

  /** A narrower number in `k` items, its sign repeated. */
  function SignFilled(x: seq<Blk>, k: nat): (r: seq<Blk>)
    requires |x| <= k
    ensures |r| == k
  {
    x + seq(k - |x|, _ => B - 1)
  }

  lemma SignFilledValue(x: seq<Blk>, k: nat)
    requires 1 <= |x| <= k && Value(true, x) < 0
    ensures Val(SignFilled(x, k)) == Mod(Value(true, x), k) && Value(true, SignFilled(x, k)) == Value(true, x)
  {
    hide Val, Value, Mod;
    SignExtended(x, SignFilled(x, k));
    InWiderRange(true, x, SignFilled(x, k));
  }

  /**
   * Against a narrower negative operand the answer of `Eq` differs from the equality of the values exactly for two left
   * operands: the same items followed by zeros, which it takes for equal, and the same value, which it does not.
   */
  lemma NarrowNegativeEquality(x: seq<Blk>, y: seq<Blk>)
    requires 1 <= |y| < |x| && Value(true, y) < 0
    ensures (Val(x) == Val(y) <==> Value(true, x) == Value(true, y)) <==>
            x != Resized(y, |x|) && x != SignFilled(y, |x|)
  {
    hide Val, Value, Mod, Resized, SignFilled;
    var zeros, ones := Resized(y, |x|), SignFilled(y, |x|);
    ResizedVal(y, |x|);
    SignFilledValue(y, |x|);
    if Val(x) == Val(y) { ValInjective(x, zeros); }
    if Value(true, x) == Value(true, y) {
      ValueMod(true, x);
      ValInjective(x, ones);
    }
    ZeroFilledNonnegative(y, zeros);
  }

  lemma ZeroFilledNonnegative(y: seq<Blk>, zeros: seq<Blk>)
    requires 1 <= |y| < |zeros| && Val(zeros) == Val(y)
    ensures Value(true, zeros) >= 0
  {
    hide Val, BPow, Half;
    SignItem(y);
    BPowMono(|y|, |zeros| - 1);
    HalfBound(|zeros|);
  }

  method IsZero(x: seq<Blk>) returns (r: bool)
    ensures r <==> Val(x) == 0
  {
    hide Val, BPow;
    for i := 0 to |x|
      invariant forall j :: 0 <= j < i ==> x[j] == 0
    {
      if x[i] != 0 {
        if Val(x) == 0 { ValInjective(x, Zero(|x|)); ZeroItems(|x|); }
        return false;
      }
    }
    ValZeros(x);
    r := true;
  }

  lemma ZeroItems(k: nat)
    ensures forall i :: 0 <= i < k ==> Zero(k)[i] == 0
  {
  }

  // ---- Bitwise operators ----

  function OrItem(x: Blk, y: Blk): Blk {
    BitwiseBound(x, y, N);
    Or(x, y)
  }

  function AndItem(x: Blk, y: Blk): Blk {
    BitwiseBound(x, y, N);
    And(x, y)
  }

  lemma {:induction false} OrItems(x: seq<Blk>, y: seq<Blk>, z: seq<Blk>)
    requires |x| == |y| == |z| && forall i :: 0 <= i < |x| ==> z[i] == OrItem(x[i], y[i])
    ensures Val(z) == Or(Val(x), Val(y))
  {
    hide *;
    if x == [] {
      NoItems(x);
      NoItems(y);
      NoItems(z);
      NoLowBits();
    } else {
      var n := |x| - 1;
      OrItems(x[..n], y[..n], z[..n]);
      LastItem(x, n);
      LastItem(y, n);
      LastItem(z, n);
      OrItemIs(x[n], y[n]);
      BitwiseParts(Val(x[..n]), x[n], Val(y[..n]), y[n], N * n);
    }
  }

  lemma {:induction false} AndItems(x: seq<Blk>, y: seq<Blk>, z: seq<Blk>)
    requires |x| == |y| == |z| && forall i :: 0 <= i < |x| ==> z[i] == AndItem(x[i], y[i])
    ensures Val(z) == And(Val(x), Val(y))
  {
    hide *;
    if x == [] {
      NoItems(x);
      NoItems(y);
      NoItems(z);
      NoLowBits();
    } else {
      var n := |x| - 1;
      AndItems(x[..n], y[..n], z[..n]);
      LastItem(x, n);
      LastItem(y, n);
      LastItem(z, n);
      OrItemIs(x[n], y[n]);
      BitwiseParts(Val(x[..n]), x[n], Val(y[..n]), y[n], N * n);
    }
  }

  lemma NoItems(x: seq<Blk>)
    requires x == []
    ensures Val(x) == 0
  {
  }

  lemma OrItemIs(x: Blk, y: Blk)
    ensures OrItem(x, y) == Or(x, y) && AndItem(x, y) == And(x, y)
  {
  }

  lemma LastItem(x: seq<Blk>, n: nat)
    requires |x| == n + 1
    ensures Val(x) == Val(x[..n]) + x[n] * Pow2(N * n) && Val(x[..n]) < Pow2(N * n)
  {
    assert x[..n + 1] == x;
    hide Val, BPow, Pow2;
    ValTake(x, n);
    ValBound(x[..n]);
    BPowIsPow2(n);
  }

  method PipeItems(lhs: seq<Blk>, rhs: seq<Blk>) returns (res: seq<Blk>)
    requires |rhs| <= |lhs|
    ensures |res| == |lhs| && Val(res) == Or(Val(lhs), Val(rhs))
  {
    hide Val, Or, OrItem;
    var items := new Blk[|lhs|];
    for i := 0 to |lhs|
      invariant forall j :: 0 <= j < i ==> items[j] == OrItem(lhs[j], Item(rhs, j))
    {
      items[i] := OrItem(lhs[i], Item(rhs, i));
    }
    res := items[..];
    ResizedVal(rhs, |lhs|);
    OrItems(lhs, Resized(rhs, |lhs|), res);
  }

  method AmpItems(lhs: seq<Blk>, rhs: seq<Blk>) returns (res: seq<Blk>)
    requires |rhs| <= |lhs|
    ensures |res| == |lhs| && Val(res) == And(Val(lhs), Val(rhs))
  {
    hide Val, And, AndItem;
    var items := new Blk[|lhs|];
    for i := 0 to |lhs|
      invariant forall j :: 0 <= j < i ==> items[j] == AndItem(lhs[j], Item(rhs, j))
    {
      items[i] := AndItem(lhs[i], Item(rhs, i));
    }
    res := items[..];
    ResizedVal(rhs, |lhs|);
    AndItems(lhs, Resized(rhs, |lhs|), res);
  }

  /** Two's complement of the left operand in the common type, against the items of the right one. */
  method Pipe(signed: bool, lhs: seq<Blk>, rhs: seq<Blk>) returns (res: seq<Blk>)
    requires |lhs| >= 1 && |rhs| >= 1
    ensures |res| == Max(|lhs|, |rhs|) && Val(res) == Or(Mod(Value(signed, lhs), |res|), Val(rhs))
    ensures |rhs| <= |lhs| ==> Val(res) == Or(Val(lhs), Val(rhs))
  {
    hide Val, Value, Mod, Or;
    var l := ToCommon(signed, lhs, |rhs|);
    ValueMod(signed, l);
    res := PipeItems(l, rhs);
  }

  method Amp(signed: bool, lhs: seq<Blk>, rhs: seq<Blk>) returns (res: seq<Blk>)
    requires |lhs| >= 1 && |rhs| >= 1
    ensures |res| == Max(|lhs|, |rhs|) && Val(res) == And(Mod(Value(signed, lhs), |res|), Val(rhs))
    ensures |rhs| <= |lhs| ==> Val(res) == And(Val(lhs), Val(rhs))
  {
    hide Val, Value, Mod, And;
    var l := ToCommon(signed, lhs, |rhs|);
    ValueMod(signed, l);
    res := AmpItems(l, rhs);
  }

  /**
   * A narrower negative right operand is read with zeros for its missing items. That agrees with its two's complement
   * exactly where the left operand decides these items: all ones for the or, all zeros for the and.
   */
  lemma NarrowNegativeBits(x: seq<Blk>, y: seq<Blk>)
    requires 1 <= |y| < |x| && Value(true, y) < 0
    ensures Or(Val(x), Val(y)) == Or(Val(x), Mod(Value(true, y), |x|)) <==> forall i :: |y| <= i < |x| ==> x[i] == B - 1
    ensures And(Val(x), Val(y)) == And(Val(x), Mod(Value(true, y), |x|)) <==> forall i :: |y| <= i < |x| ==> x[i] == 0
  {
    hide *;
    var n := |y|;
    SignFilledValue(y, |x|);
    SignFilledParts(y, |x|);
    ItemParts(x, n);
    FullItems(x[..n]);
    FullItems(x[n..]);
    FullItems(y);
    HighParts(Val(x[..n]), Val(x[n..]), Val(y), N * n, N * (|x| - n));
    HighItems(x, n);
  }

  /** The same on numbers, with `e` bits above the `d` of the narrower operand. */
  lemma HighParts(low: nat, high: nat, v: nat, d: nat, e: nat)
    requires low < Pow2(d) && high < Pow2(e) && v < Pow2(d)
    ensures var x, y := low + high * Pow2(d), v + (Pow2(e) - 1) * Pow2(d);
            && (Or(x, v) == Or(x, y) <==> high == Pow2(e) - 1)
            && (And(x, v) == And(x, y) <==> high == 0)
  {
    hide *;
    var ones := Pow2(e) - 1;
    BitwiseParts(low, high, v, 0, d);
    BitwiseParts(low, high, v, ones, d);
    WithOnes(high, e);
    PartsEqual(Or(low, v), Or(high, 0), Or(high, ones), Pow2(d));
    PartsEqual(And(low, v), And(high, 0), And(high, ones), Pow2(d));
  }

  lemma PartsEqual(low: int, i: int, j: int, p: int)
    requires p >= 1
    ensures low + i * p == low + j * p <==> i == j
  {
    if i < j { MulMono(p, i + 1, j); } else if j < i { MulMono(p, j + 1, i); }
  }

  lemma WithOnes(h: nat, e: nat)
    requires h < Pow2(e)
    ensures Or(h, 0) == h && And(h, 0) == 0 && Or(h, Pow2(e) - 1) == Pow2(e) - 1 && And(h, Pow2(e) - 1) == h
  {
    hide Pow2, Or;
    OrZero(h);
    AndMask(h, e);
    SmallMod(h, Pow2(e));
    OrOnes(h, e);
  }

  lemma ItemParts(x: seq<Blk>, n: nat)
    requires n <= |x|
    ensures Val(x) == Val(x[..n]) + Val(x[n..]) * Pow2(N * n)
  {
    hide Val, BPow, Pow2;
    ValSplit(x, n);
    BPowIsPow2(n);
  }

  lemma FullItems(y: seq<Blk>)
    ensures Val(y) < Pow2(N * |y|)
  {
    hide Val, BPow, Pow2;
    ValBound(y);
    BPowIsPow2(|y|);
  }

  lemma SignFilledParts(y: seq<Blk>, k: nat)
    requires |y| <= k
    ensures Val(SignFilled(y, k)) == Val(y) + (Pow2(N * (k - |y|)) - 1) * Pow2(N * |y|)
  {
    hide Val, BPow, Pow2;
    var r := SignFilled(y, k);
    assert r[..|y|] == y;
    ItemParts(r, |y|);
    ValOnes(r[|y|..]);
    BPowIsPow2(k - |y|);
  }

  /** The upper items are all ones, or all zeros, exactly when their value is the largest, or zero. */
  lemma HighItems(x: seq<Blk>, n: nat)
    requires n <= |x|
    ensures Val(x[n..]) == Pow2(N * (|x| - n)) - 1 <==> forall i :: n <= i < |x| ==> x[i] == B - 1
    ensures Val(x[n..]) == 0 <==> forall i :: n <= i < |x| ==> x[i] == 0
  {
    hide Val, BPow, Pow2;
    var k := |x| - n;
    var ones, zeros := seq(k, _ => B - 1), Zero(k);
    BPowIsPow2(k);
    ValOnes(ones);
    ZeroItems(k);
    if Val(x[n..]) == Val(ones) { ValInjective(x[n..], ones); AllItems(x, n, ones); }
    if Val(x[n..]) == 0 { ValInjective(x[n..], zeros); AllItems(x, n, zeros); }
    if forall i :: n <= i < |x| ==> x[i] == B - 1 { assert x[n..] == ones; }
    if forall i :: n <= i < |x| ==> x[i] == 0 { ValZeros(x[n..]); }
  }

  lemma AllItems(x: seq<Blk>, n: nat, t: seq<Blk>)
    requires n <= |x| && x[n..] == t
    ensures forall i :: n <= i < |x| ==> x[i] == t[i - n]
  {
    forall i | n <= i < |x| ensures x[i] == t[i - n] { assert x[n..][i - n] == x[i]; }
  }

  /** -1 and -2 against the narrower -1: not equal to itself, and not less than it. */
  method NarrowNegativeWitness() returns (equal: bool, greater: bool, less: bool, mistaken: bool)
    requires N >= 2
    ensures var minusOne: seq<Blk>, minusTwo: seq<Blk>, narrow: seq<Blk> := [B - 1, B - 1], [B - 2, B - 1], [B - 1];
            Value(true, minusOne) == Value(true, narrow) == -1 && Value(true, minusTwo) == -2
    ensures !equal && greater && !less && mistaken
  {
    hide Val, Value, BPow;
    OnesBelowZero();
    equal := Eq(true, [B - 1, B - 1], [B - 1]);
    greater := Greater(true, [B - 1, B - 1], [B - 1]);
    less := Less(true, [B - 2, B - 1], [B - 1]);
    mistaken := Eq(true, [B - 1, 0], [B - 1]);
  }

  /** 0 or the narrower -1 is not -1, and -1 and the narrower -1 is not -1. */
  method NarrowBitsWitness() returns (either: seq<Blk>, both: seq<Blk>)
    requires N >= 2
    ensures var zero: seq<Blk>, minusOne: seq<Blk>, narrow: seq<Blk> := [0, 0], [B - 1, B - 1], [B - 1];
            && Value(true, minusOne) == Value(true, narrow) == -1
            && Val(either) != Or(Val(zero), Mod(Value(true, narrow), 2))
            && Val(both) != And(Val(minusOne), Mod(Value(true, narrow), 2))
  {
    hide Val, Value, BPow, Mod, Or, And;
    OnesBelowZero();
    var zero: seq<Blk>, minusOne: seq<Blk>, narrow: seq<Blk> := [0, 0], [B - 1, B - 1], [B - 1];
    either := Pipe(true, zero, narrow);
    both := Amp(true, minusOne, narrow);
    NarrowNegativeBits(zero, narrow);
    assert zero[1] == 0 != B - 1;
    NarrowNegativeBits(minusOne, narrow);
    assert minusOne[1] == B - 1 != 0;
  }

  lemma OnesBelowZero()
    requires N >= 2
    ensures B >= 4
    ensures var minusOne: seq<Blk>, minusTwo: seq<Blk>, narrow: seq<Blk> := [B - 1, B - 1], [B - 2, B - 1], [B - 1];
            && Value(true, minusOne) == Value(true, narrow) == -1 && Value(true, minusTwo) == -2
            && Val(minusOne) != Val(narrow)
    ensures var wide: seq<Blk>, narrow: seq<Blk> := [B - 1, 0], [B - 1]; Val(wide) == Val(narrow)
  {
    hide Val, BPow, Half, Pow2;
    Pow2StrictMono(0, N - 1);
    Pow2Next(N - 1);
    var minusOne: seq<Blk>, minusTwo: seq<Blk>, narrow: seq<Blk>, wide: seq<Blk> :=
      [B - 1, B - 1], [B - 2, B - 1], [B - 1], [B - 1, 0];
    TwoItems(minusOne);
    TwoItems(minusTwo);
    TwoItems(wide);
    ValSmall(narrow);
    AtPowers(0, 0);
    SignItem(minusOne);
    SignItem(minusTwo);
    SignItem(narrow);
    LastOfSquare(B);
  }

  lemma LastOfSquare(b: int)
    ensures (b - 1) * b == b * b - b && 0 * b == 0
  {
  }
}
