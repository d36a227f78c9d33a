/** base/libbiginteger: BigUnsignedInABase and the decimal conversions of BigIntegerUtils. */
module BigUnsignedsInABase {
  import opened Powers
  import opened Numerals
  import opened Blocks
  import opened BlockLoops
  import opened BigUnsigneds
  import opened BigIntegers

  /** Digits and bases are unsigned shorts. */
  type Digit = d: nat | d < 0x1_0000

  /** The number little-endian digits stand for. */
  ghost function DigitsVal(ds: seq<Digit>, base: nat): nat {
    if ds == [] then 0 else ds[0] + base * DigitsVal(ds[1..], base)
  }

  lemma {:induction false} DigitsSnoc(ds: seq<Digit>, d: Digit, base: nat)
    ensures DigitsVal(ds + [d], base) == DigitsVal(ds, base) + d * Pow(base, |ds|)
  {
    if ds == [] {
      assert [d][1..] == [];
    } else {
      var t := ds[1..];
      assert (ds + [d])[1..] == t + [d];
      DigitsSnoc(t, d, base);
      DigitScale(DigitsVal(t, base), d, Pow(base, |t|), base);
    }
  }

  /** The text whose symbols are the digits, most significant first, has their value. */
  lemma {:induction false} MirrorValue(ds: seq<Digit>, s: string, base: nat)
    requires |s| == |ds| && forall j :: 0 <= j < |s| ==> SymbolDigit(s[j]) == ds[|ds| - 1 - j]
    ensures TextVal(s, base) == DigitsVal(ds, base)
  {
    if ds == [] {
    } else {
      MirrorValue(ds[1..], s[..|s| - 1], base);
    }
  }

  lemma DigitsDropZero(ds: seq<Digit>, base: nat)
    requires ds != [] && ds[|ds| - 1] == 0
    ensures DigitsVal(ds[..|ds| - 1], base) == DigitsVal(ds, base)
  {
    var n := |ds| - 1;
    assert ds == ds[..n] + [0];
    DigitsSnoc(ds[..n], 0, base);
  }

  class BigUnsignedInABase {
    const base: Digit
    var len: nat
    var blk: array<Digit>

    ghost predicate Valid()
      reads this, blk
    {
      && len <= blk.Length
      && (forall i :: 0 <= i < len ==> blk[i] < base)
      && (len > 0 ==> blk[len - 1] != 0)
    }

    ghost function Value(): nat
      reads this, blk
      requires len <= blk.Length
    {
      DigitsVal(blk[..len], base)
    }

    constructor (base: Digit)
      ensures this.base == base && len == 0 && fresh(blk)
    {
      this.base := base;
      len := 0;
      blk := new Digit[0];
    }

    method Allocate(c: nat)
      modifies this`blk
      ensures blk.Length >= c && (blk == old(blk) || fresh(blk))
    {
      if c > blk.Length { blk := new Digit[c]; }
    }

    method ZapLeadingZeros()
      requires len <= blk.Length
      modifies this`len
      ensures len <= old(len) && (len > 0 ==> blk[len - 1] != 0)
      ensures Value() == old(Value())
    {
      while len > 0 && blk[len - 1] == 0
        invariant len <= old(len)
        invariant DigitsVal(blk[..len], base) == old(Value())
      {
        DigitsDropZero(blk[..len], base);
        assert blk[..len][..len - 1] == blk[..len - 1];
        len := len - 1;
      }
    }
  }

  // ---- Capacity ----

  method BitLen(x0: nat) returns (len: nat)
    ensures x0 < Pow2(len) && (len > 0 ==> Pow2(len - 1) <= x0) && (len == 0 <==> x0 == 0)
  {
    var x := x0;
    len := 0;
    while x > 0
      invariant x == x0 / Pow2(len) && (len > 0 ==> Pow2(len - 1) <= x0)
    {
      DivDiv(x0, Pow2(len), 2);
      DivPositive(x0, Pow2(len));
      x := x / 2;
      len := len + 1;
    }
    DivZero(x0, Pow2(len));
  }

  method CeilingDiv(a: nat, b: nat) returns (c: nat)
    requires b > 0
    ensures a <= b * c < a + b
  {
    c := (a + b - 1) / b;
    DivModIdentity(a + b - 1, b);
  }

  /** A number of `bits` bits has at most `digits` digits when `digits * bitsPerDigit >= bits`. */
  lemma CapacitySuffices(x: nat, bits: nat, bitsPerDigit: nat, digits: nat, base: nat, v: nat, k: nat, low: nat)
    requires x < Pow2(bits) && bitsPerDigit * digits >= bits && Pow2(bitsPerDigit) <= base
    requires x == low + v * Pow(base, k) && v > 0
    ensures k < digits
  {
    hide *;
    AtLeastOnce(x, low, v, Pow(base, k));
    if k >= digits {
      LongPower(bits, bitsPerDigit, digits, base);
      PowMono(base, digits, k);
    }
  }

  lemma AtLeastOnce(x: int, low: int, v: int, p: int)
    requires x == low + v * p && low >= 0 && v > 0
    ensures p >= 0 ==> p <= x
  {
    if p >= 0 { MulMono(p, 1, v); }
  }

  lemma LongPower(bits: nat, bitsPerDigit: nat, digits: nat, base: nat)
    requires bitsPerDigit * digits >= bits && Pow2(bitsPerDigit) <= base
    ensures Pow2(bits) <= Pow(base, digits)
  {
    hide *;
    PowOfPow2(bitsPerDigit, digits);
    PowBaseMono(Pow2(bitsPerDigit), base, digits);
    Pow2Mono(bits, bitsPerDigit * digits);
  }

  lemma {:induction false} PowOfPow2(e: nat, k: nat)
    ensures Pow(Pow2(e), k) == Pow2(e * k)
  {
    if k == 0 {
    } else {
      PowOfPow2(e, k - 1);
      assert e * k == e + e * (k - 1);
      Pow2Add(e, e * (k - 1));
    }
  }

  lemma {:induction false} PowBaseMono(b: nat, c: nat, k: nat)
    requires 1 <= b <= c
    ensures 1 <= Pow(b, k) <= Pow(c, k)
  {
    if k == 0 {
    } else {
      PowBaseMono(b, c, k - 1);
      ProductMono(b, Pow(b, k - 1), c, Pow(c, k - 1));
      MulMono(b, 1, Pow(b, k - 1));
    }
  }

  // ---- BigUnsigned <-> digits ----

  /** Throws for a base below 2. The digit buffer is allocated once, and never outgrown. */
  method FromUnsigned(x: BigUnsigned, base: Digit) returns (ok: bool, r: BigUnsignedInABase)
    requires x.Valid() && base < B
    ensures ok <==> base >= 2
    ensures ok ==> fresh(r) && fresh(r.blk) && r.base == base && r.Valid() && r.Value() == x.Value()
  {
    r := new BigUnsignedInABase(base);
    if base < 2 { return false, r; }
    ok := true;
    var baseLen := BitLen(base);
    var minBitsPerDigit := baseLen - 1;
    AtLeastTwoBits(base, baseLen);
    var maxDigitLenOfX := CeilingDiv(N * x.len, minBitsPerDigit);
    r.len := maxDigitLenOfX;
    r.Allocate(r.len);
    ValBound(x.blk[..x.len]);
    BPowIsPow2(x.len);
    r.len := FillDigits(x, base, N * x.len, minBitsPerDigit, r.blk, maxDigitLenOfX);
  }

  /** `toUnsignedShort`: throws when the value does not fit. */
  method ToUnsignedShort(x: BigUnsigned) returns (ok: bool, d: Digit)
    requires x.Valid()
    ensures ok <==> x.len <= 1 && x.Value() < 0x1_0000
    ensures ok ==> d == x.Value()
  {
    if x.len == 0 { return true, 0; }
    if x.len == 1 {
      OneBlock(x.blk[..1]);
      d := x.blk[0] % 0x1_0000;
      return d == x.blk[0], d;
    }
    return false, 0;
  }

  lemma OneBlock(s: seq<Blk>)
    requires |s| == 1
    ensures Val(s) == s[0]
  {
    assert s == [] + [s[0]];
    ValSnoc([], s[0]);
  }

  /** `lastDigit = x2 % buBase, x2 /= buBase`. */
  method LastDigit(x2: BigUnsigned, buBase: BigUnsigned) returns (d: Digit)
    requires x2.Valid() && buBase.Valid() && 2 <= buBase.Value() < B && buBase.Value() < 0x1_0000
    requires x2 != buBase && x2.blk != buBase.blk
    modifies x2, x2.blk
    ensures x2.Valid() && x2.Value() == old(x2.Value()) / buBase.Value() && d == old(x2.Value()) % buBase.Value()
    ensures x2.blk == old(x2.blk) || fresh(x2.blk)
  {
    hide Val, Canonical;
    var lastDigit := new BigUnsigned.Copy(x2);
    var _ := lastDigit.DivideWithRemainder(buBase, x2);
    var ok;
    SingleBlock(lastDigit);
    ok, d := ToUnsignedShort(lastDigit);
  }

  lemma SingleBlock(x: BigUnsigned)
    requires x.Valid() && x.Value() < B
    ensures x.len <= 1
  {
    CanonicalLength(x.blk[..x.len], 1);
    assert BPow(1) == B;
  }

  lemma NextDigit(x: int, low: int, v: int, p: int, base: int)
    requires base > 0 && x == low + v * p
    ensures x == (low + v % base * p) + v / base * (base * p)
  {
    NextDigitInts(v / base, v % base, p, base);
  }

  lemma NextDigitInts(q: int, r: int, p: int, base: int)
    ensures (base * q + r) * p == r * p + q * (base * p)
  {
  }

  method FillDigits(x: BigUnsigned, base: Digit, ghost bits: nat, ghost bitsPerDigit: nat,
                    digits: array<Digit>, ghost cap: nat)
    returns (digitNum: nat)
    requires x.Valid() && 2 <= base < B
    requires x.Value() < Pow2(bits) && bitsPerDigit * cap >= bits && Pow2(bitsPerDigit) <= base && cap <= digits.Length
    requires digits as object != x && digits as object != x.blk
    modifies digits
    ensures digitNum <= cap && DigitsVal(digits[..digitNum], base) == x.Value()
    ensures forall i :: 0 <= i < digitNum ==> digits[i] < base
    ensures digitNum > 0 ==> digits[digitNum - 1] != 0
  {
    hide Val, Canonical, DigitsVal, Pow;
    ghost var X := x.Value();
    var x2 := new BigUnsigned.Copy(x);
    var buBase := new BigUnsigned();
    buBase.AssignPrimitive(base);
    digitNum := 0;
    NoDigits(digits[..0], base);
    while x2.len != 0
      invariant x2.Valid() && fresh(x2) && fresh(x2.blk)
      invariant buBase.Valid() && buBase.Value() == base && fresh(buBase) && fresh(buBase.blk)
      invariant buBase != x2 && buBase.blk != x2.blk
      invariant digitNum <= cap
      invariant X == DigitsVal(digits[..digitNum], base) + x2.Value() * Pow(base, digitNum)
      invariant forall i :: 0 <= i < digitNum ==> digits[i] < base
      invariant digitNum > 0 ==> x2.Value() > 0 || digits[digitNum - 1] != 0
      decreases x2.Value()
    {
      ghost var v, low := x2.Value(), digits[..digitNum];
      ZeroLength(x2);
      CapacitySuffices(X, bits, bitsPerDigit, cap, base, v, digitNum, DigitsVal(low, base));
      NextDigit(X, DigitsVal(low, base), v, Pow(base, digitNum), base);
      QuotientSmaller(v, base);
      var d := LastDigit(x2, buBase);
      digits[digitNum] := d;
      assert digits[..digitNum + 1] == low + [d];
      DigitsSnoc(low, d, base);
      PowNext(base, digitNum);
      LeadingDigit(v, base);
      digitNum := digitNum + 1;
    }
    ZeroLength(x2);
  }

  lemma NoDigits(s: seq<Digit>, base: nat)
    requires s == []
    ensures DigitsVal(s, base) == 0 && Pow(base, 0) == 1
  {
  }

  lemma PowNext(b: int, k: nat)
    ensures Pow(b, k + 1) == b * Pow(b, k)
  {
  }

  lemma LeadingDigit(v: nat, base: nat)
    requires v > 0 && base > 0
    ensures v / base > 0 || v % base != 0
  {
    DivModIdentity(v, base);
  }

  method HornerStep(ans: BigUnsigned, buBase: BigUnsigned, temp: BigUnsigned, d: Digit)
    requires ans.Valid() && buBase.Valid() && d < B
    requires ans != temp && ans != buBase && temp != buBase
    requires ans.blk != temp.blk && ans.blk != buBase.blk && temp.blk != buBase.blk
    modifies ans, ans.blk, temp, temp.blk
    ensures ans.Valid() && ans.Value() == d + buBase.Value() * old(ans.Value())
    ensures ans.blk == old(ans.blk) || fresh(ans.blk)
    ensures temp.blk == old(temp.blk) || fresh(temp.blk)
    ensures ans.blk != temp.blk
  {
    hide Val, Canonical;
    temp.Multiply(ans, buBase);
    var digit := new BigUnsigned();
    digit.AssignPrimitive(d);
    ans.Add(temp, digit);
  }

  /** The conversion to BigUnsigned. */
  method ToUnsigned(x: BigUnsignedInABase) returns (ans: BigUnsigned)
    requires x.Valid() && x.base < B
    ensures fresh(ans) && fresh(ans.blk) && ans.Valid() && ans.Value() == x.Value()
  {
    ans := new BigUnsigned();
    var buBase := new BigUnsigned();
    buBase.AssignPrimitive(x.base);
    var temp := new BigUnsigned();
    var digitNum := x.len;
    ghost var ds := x.blk[..x.len];
    assert ds[digitNum..] == [];
    hide Val, Canonical;
    while digitNum > 0
      invariant digitNum <= x.len
      invariant fresh(ans) && fresh(ans.blk) && fresh(temp) && fresh(temp.blk) && fresh(buBase) && fresh(buBase.blk)
      invariant ans != temp && ans != buBase && temp != buBase
      invariant ans.blk != temp.blk && ans.blk != buBase.blk && temp.blk != buBase.blk
      invariant ans.Valid() && buBase.Valid() && buBase.Value() == x.base
      invariant ans.Value() == DigitsVal(ds[digitNum..], x.base)
    {
      digitNum := digitNum - 1;
      HornerStep(ans, buBase, temp, x.blk[digitNum]);
      assert ds[digitNum..][0] == ds[digitNum] && ds[digitNum..][1..] == ds[digitNum + 1..];
    }
    assert ds[0..] == ds;
  }

  // ---- Digits <-> text ----

  /** Throws for a base over 36, an empty text, and any symbol that is not a digit of the base. */
  method FromText(s: string, base: Digit) returns (ok: bool, r: BigUnsignedInABase)
    ensures ok <==> base <= 36 && s != [] && IsDigitText(s, base)
    ensures ok ==> fresh(r) && fresh(r.blk) && r.base == base && r.Valid() && r.Value() == TextVal(s, base)
  {
    r := new BigUnsignedInABase(base);
    if base > 36 || |s| == 0 { return false, r; }
    r.len := |s|;
    r.Allocate(r.len);
    var digitNum := r.len;
    while digitNum > 0
      invariant 0 <= digitNum <= r.len == |s| <= r.blk.Length && fresh(r.blk)
      invariant forall j :: 0 <= j < |s| - digitNum ==>
                  0 <= SymbolDigit(s[j]) < base && r.blk[|s| - 1 - j] == SymbolDigit(s[j])
    {
      var theSymbol := s[r.len - digitNum];
      if SymbolDigit(theSymbol) < 0 { return false, r; }
      r.blk[digitNum - 1] := SymbolDigit(theSymbol);
      if r.blk[digitNum - 1] >= base { return false, r; }
      digitNum := digitNum - 1;
    }
    MirrorValue(r.blk[..r.len], s, base);
    forall i | 0 <= i < |s| ensures r.blk[i] < base {
      var j := |s| - 1 - i;
      assert r.blk[|s| - 1 - j] == SymbolDigit(s[j]) < base;
    }
    r.ZapLeadingZeros();
    ok := true;
  }

  /** Throws for a base over 36; otherwise the shortest text of the value, which is zero in the bases 0 and 1. */
  method ToText(x: BigUnsignedInABase) returns (ok: bool, s: string)
    requires x.Valid()
    ensures ok <==> x.base <= 36
    ensures ok ==> s == if x.base >= 2 then Numeral(x.Value(), x.base) else "0"
    ensures x.base < 2 ==> x.Value() == 0
  {
    if x.base > 36 { return false, ""; }
    if x.len == 0 { return true, "0"; }
    ghost var ds := x.blk[..x.len];
    s := [];
    for symbolNumInString := 0 to x.len
      invariant |s| == symbolNumInString
      invariant forall j :: 0 <= j < |s| ==> s[j] == Symbol(ds[x.len - 1 - j])
    {
      var digitNum := x.len - 1 - symbolNumInString;
      s := s + [Symbol(x.blk[digitNum])];
    }
    MirrorValue(ds, s, x.base);
    NumeralOfText(s, x.base);
    ok := true;
  }

  // ---- Decimal conversions with a sign (BigIntegerUtils) ----

  /** What follows an optional sign. */
  function Unsigned(s: string): string {
    if s != [] && (s[0] == '-' || s[0] == '+') then s[1..] else s
  }

  predicate IsSignedDecimal(s: string) {
    Unsigned(s) != [] && IsDigitText(Unsigned(s), 10)
  }

  function SignedVal(s: string): int {
    if s != [] && s[0] == '-' then -TextVal(Unsigned(s), 10) else TextVal(Unsigned(s), 10)
  }

  predicate AllDecimal(s: string) {
    forall i :: 0 <= i < |s| ==> '0' <= s[i] <= '9'
  }

  lemma DecimalDigits(s: string)
    ensures IsDigitText(s, 10) <==> AllDecimal(s)
  {
  }

  /** Nothing but a minus sign, a plus sign or no sign before decimal digits is accepted, with the value they mean. */
  lemma SignedTexts(d: string)
    requires d != "" && AllDecimal(d)
    ensures IsSignedDecimal(d) && IsSignedDecimal("-" + d) && IsSignedDecimal("+" + d)
    ensures SignedVal(d) == SignedVal("+" + d) == TextVal(d, 10) && SignedVal("-" + d) == -TextVal(d, 10)
  {
    assert ("-" + d)[1..] == d && ("+" + d)[1..] == d;
    DecimalDigits(d);
  }

  lemma SignedTextParts(s: string) returns (sign: string, d: string)
    requires IsSignedDecimal(s)
    ensures s == sign + d && sign in {"", "-", "+"} && d != "" && AllDecimal(d)
  {
    d := Unsigned(s);
    sign := s[..|s| - |d|];
    DecimalDigits(d);
    if |d| < |s| { assert sign == [s[0]]; } else { assert sign == ""; }
  }

  lemma SignedRoundTrip(v: int)
    ensures IsSignedDecimal(SignedDecimal(v)) && SignedVal(SignedDecimal(v)) == v
  {
    var s := SignedDecimal(v);
    var d := Decimal(if v < 0 then -v else v);
    NumeralValue(if v < 0 then -v else v, 10);
    assert SymbolDigit('-') == -1 && SymbolDigit('+') == -1;
    assert SymbolDigit(d[0]) >= 0;
    if v < 0 { assert s[1..] == d; }
  }

  method BigUnsignedToString(x: BigUnsigned) returns (s: string)
    requires x.Valid() && 10 < B
    ensures s == Decimal(x.Value())
  {
    var ok, r := FromUnsigned(x, 10);
    ok, s := ToText(r);
  }

  method BigIntegerToString(x: BigInteger) returns (s: string)
    requires x.Valid() && 10 < B
    ensures s == SignedDecimal(x.Value())
  {
    var t := BigUnsignedToString(x.mag);
    s := if x.sign == Negative then "-" + t else t;
  }

  method StringToBigUnsigned(s: string) returns (ok: bool, x: BigUnsigned)
    requires 10 < B
    ensures ok <==> s != [] && IsDigitText(s, 10)
    ensures ok ==> fresh(x) && fresh(x.blk) && x.Valid() && x.Value() == TextVal(s, 10)
  {
    var r;
    ok, r := FromText(s, 10);
    if ok { x := ToUnsigned(r); } else { x := new BigUnsigned(); }
  }

  method StringToBigInteger(s: string) returns (ok: bool, x: BigInteger)
    requires 10 < B
    ensures ok <==> IsSignedDecimal(s)
    ensures ok ==> fresh(x) && x.Valid() && x.Value() == SignedVal(s)
  {
    var negative := s != [] && s[0] == '-';
    var m;
    ok, m := StringToBigUnsigned(Unsigned(s));
    if ok {
      x := new BigInteger.FromMagnitude(m, if negative then Negative else Positive);
    } else {
      x := new BigInteger();
    }
  }

  /** Value, digits, text, digits, value: the identity, for every number and base 2 to 36. */
  method RoundTrip(x: BigUnsigned, base: Digit) returns (text: string, y: BigUnsigned)
    requires x.Valid() && 2 <= base <= 36 && base < B
    ensures text == Numeral(x.Value(), base)
    ensures y.Valid() && y.Value() == x.Value()
  {
    NumeralValue(x.Value(), base);
    var ok, r := FromUnsigned(x, base);
    ok, text := ToText(r);
    var r';
    ok, r' := FromText(text, base);
    y := ToUnsigned(r');
  }
}
