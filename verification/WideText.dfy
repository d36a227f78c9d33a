/** Printing and parsing of wide::integer. */
module WideText {
  import opened Powers
  import opened Blocks
  import opened Numerals
  import opened WideItems
  import opened WideMultiply
  import opened WideIntegers
  import opened WideDivide

  // ---- Printing ----

  lemma OneItem(x: nat)
    requires x < B
    ensures Val([x]) == x && Value(false, [x]) == x
  {
    var s: seq<Blk> := [x];
    assert s[..0] == [] && Val(s[..0]) == 0 && BPow(0) == 1;
  }

  lemma SmallItem(x: seq<Blk>)
    requires |x| >= 1 && Val(x) < B
    ensures x[0] == Val(x)
  {
    assert x[..1] == [x[0]] && BPow(1) == B;
    OneItem(x[0]);
    hide Val, BPow;
    ValDivMod(x, 1);
    SmallMod(Val(x), B);
  }

  lemma DecimalItems()
    requires N >= 5
    ensures 16 < B
  {
    SmallPowers();
    Pow2Add(2, 3);
    Pow2Mono(5, N);
  }

  /** One digit off the end of the text. */
  method NextDigit(t: seq<Blk>) returns (digit: char, rest: seq<Blk>)
    requires |t| >= 1 && N >= 5 && Val(t) > 0
    ensures |rest| == |t| && Val(rest) < Val(t)
    ensures Decimal(Val(t)) == (if Val(rest) == 0 then "" else Decimal(Val(rest))) + [digit]
  {
    hide Val, Value, BPow, Mod, Half, TruncDiv, TruncMod, Native128, Overflows, Pow2, Decimal, Symbol;
    DecimalItems();
    OneItem(10);
    UnsignedValue(t);
    var rem := OperatorPercent(false, t, [10]);
    var quo := OperatorSlash(false, t, [10]);
    UnsignedValue(rem.value);
    UnsignedValue(quo.value);
    TruncOfTen(Val(t), |t|);
    SmallItem(rem.value);
    digit := Symbol(rem.value[0]);
    rest := quo.value;
    LastDigit(Val(t));
  }

  lemma TruncOfTen(n: nat, k: nat)
    requires k >= 1
    ensures TruncMod(n, 10) == n % 10 < 10 && TruncDiv(n, 10) == n / 10 && !Overflows(false, n, 10, k)
  {
  }

  lemma LastDigit(n: nat)
    requires n > 0
    ensures n / 10 < n && Decimal(n) == (if n / 10 == 0 then "" else Decimal(n / 10)) + [Symbol(n % 10)]
  {
  }

  method ToString(signed: bool, n: seq<Blk>) returns (res: string)
    requires |n| >= 1 && N >= 5
    ensures res == SignedDecimal(Value(signed, n))
  {
    hide Val, Value, BPow, Decimal, IsNegative;
    DecimalItems();
    ZeroOperand(signed, n);
    var zero := Eq(signed, n, [0]);
    if zero {
      ZeroText();
      return "0";
    }
    var isNeg := IsNegative(signed, n);
    var t := MakePositive(signed, n);
    ghost var v := Val(t);
    res := "";
    ZeroOperand(false, t);
    var done := Eq(false, t, [0]);
    while !done
      invariant |t| == |n| && (done <==> Val(t) == 0)
      invariant Decimal(v) == (if Val(t) == 0 then "" else Decimal(Val(t))) + res
      decreases Val(t)
    {
      var digit, rest := NextDigit(t);
      t, res := rest, [digit] + res;
      ZeroOperand(false, t);
      done := Eq(false, t, [0]);
    }
    if isNeg {
      res := "-" + res;
    }
  }

  lemma ZeroText()
    ensures SignedDecimal(0) == "0"
  {
  }

  lemma ZeroOperand(signed: bool, n: seq<Blk>)
    requires |n| >= 1 && 0 < B
    ensures ZeroExtends(signed, n, [0]) && Value(signed, [0]) == 0
    ensures Value(signed, n) == 0 <==> Val(n) == 0
  {
    hide Val, BPow, Half;
    SignItem(n);
    OneItem(0);
    SignItem([0]);
  }

  // ---- Parsing ----

  predicate IsHex(s: string) {
    |s| >= 2 && s[0] == '0' && (s[1] == 'x' || s[1] == 'X')
  }

  datatype Option = None | Some(value: int)

  /** The integer a text stands for: an optional sign, then decimal digits or 0x and hexadecimal ones. */
  function Parsed(signed: bool, s: string): Option {
    var negative := signed && s != [] && s[0] == '-';
    var body := if negative then s[1..] else s;
    var base := if IsHex(body) then 16 else 10;
    var digits := if IsHex(body) then body[2..] else body;
    if !IsDigitText(digits, base) then None
    else Some(if negative then -TextVal(digits, base) else TextVal(digits, base))
  }

  method ParseDigits(s: string, base: Blk, k: nat) returns (r: Result)
    requires k >= 1 && N >= 5 && 2 <= base <= 36
    ensures r.Success? <==> IsDigitText(s, base)
    ensures r.Success? ==> |r.value| == k && Val(r.value) == Mod(TextVal(s, base), k)
  {
    hide Val, BPow, Mod, SymbolDigit, TextVal;
    var res := Zero(k);
    NoDigits(s, base, k);
    OneItem(base);
    for i := 0 to |s|
      invariant |res| == k && IsDigitText(s[..i], base) && Val(res) == Mod(TextVal(s[..i], base), k)
    {
      var d := SymbolDigit(s[i]);
      if d < 0 || d >= base {
        return Failure("Invalid char from");
      }
      ghost var before := Val(res);
      res := Multiply(res, [base]);
      OneItem(d);
      res := Plus(res, [d]);
      TextSnoc(s[..i], s[i], base);
      assert s[..i] + [s[i]] == s[..i + 1];
      HornerMod(before, TextVal(s[..i], base), base, d, k);
    }
    assert s[..|s|] == s;
    r := Success(res);
  }

  lemma NoDigits(s: string, base: nat, k: nat)
    ensures Mod(TextVal(s[..0], base), k) == 0
  {
    hide BPow;
    SmallMod(0, BPow(k));
  }

  lemma HornerMod(acc: int, v: int, base: int, d: int, k: nat)
    requires acc == Mod(v, k)
    ensures Mod(Mod(acc * base, k) + d, k) == Mod(v * base + d, k)
  {
    hide *;
    ModOfShifted(v, base, k);
    ModOfReduced(d, v * base, k);
  }

  /** The text ends at its terminator, so it holds none. */
  method FromStr(signed: bool, s: string, k: nat) returns (r: Result)
    requires k >= 1 && N >= 5 && '\0' !in s
    ensures r.Success? <==> Parsed(signed, s).Some?
    ensures r.Success? ==> |r.value| == k && Val(r.value) == Mod(Parsed(signed, s).value, k)
  {
    hide Val, BPow, Mod, TextVal, IsDigitText;
    DecimalItems();
    var isNeg := signed && s != [] && s[0] == '-';
    var body := if isNeg then s[1..] else s;
    if IsHex(body) {
      r := ParseDigits(body[2..], 16, k);
    } else {
      r := ParseDigits(body, 10, k);
    }
    if isNeg && r.Success? {
      ghost var v := Val(r.value);
      var opposite := UnaryMinus(r.value);
      r := Success(opposite);
      ModOfReduced(0, -Parsed(signed, s).value, k);
    }
  }

  /** Printed numbers are read back as themselves. */
  lemma ParsedDecimal(signed: bool, v: int)
    requires signed || v >= 0
    ensures Parsed(signed, SignedDecimal(v)) == Some(v) && '\0' !in SignedDecimal(v)
  {
    var d := Decimal(Abs(v));
    hide Numeral, TextVal;
    NumeralValue(Abs(v), 10);
    assert 0 <= SymbolDigit(d[0]) < 10;
    if |d| >= 2 { assert 0 <= SymbolDigit(d[1]) < 10; }
    if v < 0 { assert SignedDecimal(v)[1..] == d; }
  }

  /** A text of digits of a base, and nothing else, stands for their value. */
  function InBase(digits: string, base: nat): Option {
    if IsDigitText(digits, base) then Some(TextVal(digits, base)) else None
  }

  function Negated(r: Option): Option {
    if r.Some? then Some(-r.value) else None
  }

  lemma ParsedPlain(signed: bool, s: string)
    requires !IsHex(s) && (signed ==> s == "" || s[0] != '-')
    ensures Parsed(signed, s) == InBase(s, 10)
  {
    hide TextVal, IsDigitText;
  }

  lemma ParsedPrefix(signed: bool, x: char, digits: string)
    requires x == 'x' || x == 'X'
    ensures Parsed(signed, ['0', x] + digits) == InBase(digits, 16)
  {
    hide TextVal, IsDigitText;
    assert (['0', x] + digits)[2..] == digits;
  }

  lemma ParsedMinus(s: string)
    ensures Parsed(true, "-" + s) == Negated(Parsed(false, s)) && Parsed(false, "-" + s) == None
  {
    hide TextVal, IsDigitText;
    assert ("-" + s)[1..] == s;
    assert ("-" + s)[0] == '-' && !IsDigitText("-" + s, 10) by { MinusIsNoDigit(s); }
  }

  lemma MinusIsNoDigit(digits: string)
    ensures !IsDigitText("-" + digits, 10)
  {
    assert ("-" + digits)[0] == '-' && SymbolDigit('-') == -1;
  }

  /** Every text: decimal, hexadecimal after 0x or 0X, the opposite after a minus sign if signed. */
  lemma ParsedIs(signed: bool, s: string)
    ensures !("0x" <= s || "0X" <= s) && (signed ==> s == "" || s[0] != '-') ==> Parsed(signed, s) == InBase(s, 10)
    ensures Parsed(signed, "0x" + s) == Parsed(signed, "0X" + s) == InBase(s, 16)
    ensures Parsed(true, "-" + s) == Negated(Parsed(false, s)) && Parsed(false, "-" + s) == None
  {
    hide Parsed, InBase;
    assert IsHex(s) <==> "0x" <= s || "0X" <= s;
    if !IsHex(s) && (signed ==> s == "" || s[0] != '-') { ParsedPlain(signed, s); }
    ParsedPrefix(signed, 'x', s);
    ParsedPrefix(signed, 'X', s);
    ParsedMinus(s);
  }

  /** Hexadecimal texts of either case are read as their number. */
  lemma ParsedHexadecimal(signed: bool, v: nat)
    ensures Parsed(signed, "0x" + Numeral(v, 16)) == Parsed(signed, "0X" + Numeral(v, 16)) == Some(v)
    ensures Parsed(signed, "0x" + Lowered(Numeral(v, 16))) == Some(v)
  {
    hide Numeral, TextVal, Parsed, IsDigitText, Lowered;
    NumeralValue(v, 16);
    LoweredValue(Numeral(v, 16), 16);
    ParsedIs(signed, Numeral(v, 16));
    ParsedIs(signed, Lowered(Numeral(v, 16)));
  }

  /** from_str undoes to_string, for every width, sign and value. */
  method RoundTrip(signed: bool, n: seq<Blk>) returns (r: Result)
    requires |n| >= 1 && N >= 5
    ensures r == Success(n)
  {
    hide *;
    var text := ToString(signed, n);
    ValueMod(signed, n);
    ParsedDecimal(signed, Value(signed, n));
    r := FromStr(signed, text, |n|);
    ValInjective(r.value, n);
  }
}
