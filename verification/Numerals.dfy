/** Positional numerals: the text every printer in the repository is meant to produce. */
module Numerals {
  import opened Powers

  /** The symbols 0-9, A-Z. */
  function Symbol(d: nat): (c: char)
    requires d < 36
    ensures SymbolDigit(c) == d
  {
    if d < 10 then '0' + d as char else 'A' + (d - 10) as char
  }

  /** The digit of a symbol, lower case accepted, or -1. */
  function SymbolDigit(c: char): (d: int)
    ensures -1 <= d < 36
  {
    if '0' <= c <= '9' then c as int - '0' as int
    else if 'A' <= c <= 'Z' then c as int - 'A' as int + 10
    else if 'a' <= c <= 'z' then c as int - 'a' as int + 10
    else -1
  }

  const SYMBOLS := "0123456789ABCDEFGHIJKLMNOPQRSTUVWXYZ"

  const LOWER_SYMBOLS := "0123456789abcdefghijklmnopqrstuvwxyz"

  /** The digits of a base are written with these symbols, in this order. */
  lemma SymbolIs(d: nat)
    requires d < 36
    ensures Symbol(d) == SYMBOLS[d]
  {
  }

  lemma LowerSymbolIs(d: nat)
    requires d < 36
    ensures LOWER_SYMBOLS[d] as int == if d < 10 then '0' as int + d else 'a' as int + (d - 10)
  {
  }

  /** Exactly these symbols and the lower-case ones are digits. */
  lemma SymbolDigitIs(c: char, d: nat)
    requires d < 36
    ensures SymbolDigit(c) == d <==> c == SYMBOLS[d] || c == LOWER_SYMBOLS[d]
  {
    SymbolIs(d);
    LowerSymbolIs(d);
  }

  /** The lower-case text. */
  function Lowered(s: string): (r: string)
    ensures |r| == |s|
  {
    seq(|s|, i requires 0 <= i < |s| => if 'A' <= s[i] <= 'Z' then s[i] - 'A' + 'a' else s[i])
  }

  lemma LoweredSymbol(d: nat)
    requires d < 36
    ensures Lowered([SYMBOLS[d]]) == [LOWER_SYMBOLS[d]]
  {
    SymbolIs(d);
    LowerSymbolIs(d);
  }

  /** It reads the same. */
  lemma {:induction false} LoweredValue(s: string, base: nat)
    ensures TextVal(Lowered(s), base) == TextVal(s, base)
    ensures IsDigitText(Lowered(s), base) <==> IsDigitText(s, base)
  {
    forall i | 0 <= i < |s| ensures SymbolDigit(Lowered(s)[i]) == SymbolDigit(s[i]) {}
    hide SymbolDigit;
    if s == "" {
    } else {
      var n := |s| - 1;
      LoweredValue(s[..n], base);
      assert Lowered(s)[..n] == Lowered(s[..n]);
    }
  }

  /** A text of two parts: the first is worth its value times the base to the length of the second. */
  lemma {:induction false} TextSplit(s: string, t: string, base: nat)
    ensures TextVal(s + t, base) == TextVal(s, base) * Pow(base, |t|) + TextVal(t, base)
    decreases |t|
  {
    if t == "" {
      assert s + t == s;
    } else {
      var n := |t| - 1;
      assert s + t == (s + t[..n]) + [t[n]] && t == t[..n] + [t[n]];
      TextSplit(s, t[..n], base);
      TextSnoc(s + t[..n], t[n], base);
      TextSnoc(t[..n], t[n], base);
      PositionInts(TextVal(s, base), Pow(base, n), TextVal(t[..n], base), base);
    }
  }

  lemma PositionInts(v: int, p: int, u: int, base: int)
    ensures (v * p + u) * base == v * (base * p) + u * base
  {
  }

  predicate IsDigitText(s: string, base: nat) {
    forall i :: 0 <= i < |s| ==> 0 <= SymbolDigit(s[i]) < base
  }

  /** The number a text of digits stands for, most significant digit first. */
  function TextVal(s: string, base: nat): int {
    if s == [] then 0 else TextVal(s[..|s| - 1], base) * base + SymbolDigit(s[|s| - 1])
  }

  /** The shortest text of `n`: no leading zero, except for zero itself. */
  function Numeral(n: nat, base: nat): (s: string)
    requires 2 <= base <= 36
    ensures |s| >= 1 && IsDigitText(s, base)
  {
    if n < base then [Symbol(n)]
    else
      QuotientSmaller(n, base);
      Numeral(n / base, base) + [Symbol(n % base)]
  }

  function Decimal(n: nat): string {
    Numeral(n, 10)
  }

  function SignedDecimal(v: int): string {
    if v < 0 then "-" + Decimal(-v) else Decimal(v)
  }

  /** A minus sign exactly before the negative numbers, and digits alone for all others. */
  lemma SignedDecimalIs(v: int)
    ensures v >= 0 ==> IsDigitText(SignedDecimal(v), 10) && SignedDecimal(v) == Numeral(v, 10)
    ensures v < 0 ==> SignedDecimal(v) == "-" + Numeral(-v, 10)
    ensures SignedDecimal(v) != "" && (SignedDecimal(v)[0] == '-' <==> v < 0)
  {
    hide Numeral;
    if v >= 0 { assert SymbolDigit(SignedDecimal(v)[0]) != -1; }
  }

  lemma QuotientSmaller(n: nat, base: nat)
    requires 2 <= base
    ensures 0 <= n / base && (n > 0 ==> n / base < n)
  {
    if n > 0 && n / base >= n {
      MulMono(n, 2, base);
      MulMono(base, n, n / base);
      assert false;
    }
  }

  /** Appending a digit to the text of a positive number multiplies by the base and adds. */
  lemma NumeralSnoc(n: nat, d: nat, base: nat)
    requires 2 <= base <= 36 && n > 0 && d < base
    ensures Numeral(n * base + d, base) == Numeral(n, base) + [Symbol(d)]
  {
    MulMono(base, 1, n);
    DivModUnique(n * base + d, base, n, d);
  }

  lemma TextSnoc(s: string, c: char, base: nat)
    ensures TextVal(s + [c], base) == TextVal(s, base) * base + SymbolDigit(c)
  {
    assert (s + [c])[..|s|] == s;
  }

  /** Reading undoes printing, for every number and base. */
  lemma {:induction false} NumeralValue(n: nat, base: nat)
    requires 2 <= base <= 36
    ensures TextVal(Numeral(n, base), base) == n
  {
    if n < base {
      assert Numeral(n, base) == [] + [Symbol(n)] && TextVal([], base) == 0;
      hide *;
      TextSnoc([], Symbol(n), base);
    } else {
      hide *;
      var q, r := SplitDigit(n, base);
      NumeralSnoc(q, r, base);
      NumeralValue(q, base);
      TextSnoc(Numeral(q, base), Symbol(r), base);
    }
  }

  lemma SplitDigit(n: nat, base: nat) returns (q: nat, r: nat)
    requires 2 <= base <= n
    ensures n == q * base + r && 0 < q < n && r < base
  {
    q, r := n / base, n % base;
    QuotientSmaller(n, base);
    DivModIdentity(n, base);
    if q == 0 { assert false; }
  }

  /** Printing undoes reading, on upper-case texts without a leading zero. */
  lemma {:induction false} NumeralOfText(s: string, base: nat)
    requires 2 <= base <= 36 && s != [] && IsDigitText(s, base) && (s[0] == '0' ==> |s| == 1)
    requires forall i :: 0 <= i < |s| ==> s[i] == Symbol(SymbolDigit(s[i]))
    ensures TextVal(s, base) >= 0 && Numeral(TextVal(s, base), base) == s
    ensures s[0] != '0' ==> TextVal(s, base) > 0
  {
    hide Numeral, TextVal, Symbol, SymbolDigit;
    var n := |s| - 1;
    if n == 0 {
      OneDigitText(s, base);
    } else {
      var t, d := s[..n], SymbolDigit(s[n]);
      assert t[0] == s[0];
      NumeralOfText(t, base);
      NumeralSnoc(TextVal(t, base), d, base);
      assert s == t + [s[n]];
      TextSnoc(t, s[n], base);
      MulMono(base, 1, TextVal(t, base));
    }
  }

  lemma OneDigitText(s: string, base: nat)
    requires 2 <= base <= 36 && |s| == 1 && 0 <= SymbolDigit(s[0]) < base && s[0] == Symbol(SymbolDigit(s[0]))
    ensures TextVal(s, base) == SymbolDigit(s[0]) && Numeral(TextVal(s, base), base) == s
    ensures s[0] != '0' ==> TextVal(s, base) > 0
  {
    assert s[..0] == [] && s == [s[0]];
  }

  // ---- Texts of a fixed length ----

  /** The last `w` digits of `n`, leading zeros included. */
  function Padded(n: nat, w: nat): (s: string)
    ensures |s| == w
  {
    if w == 0 then ""
    else
      QuotientSmaller(n, 10);
      Padded(n / 10, w - 1) + [Symbol(n % 10)]
  }

  lemma PaddedSnoc(n: nat, d: nat, w: nat)
    requires d < 10
    ensures Padded(n * 10 + d, w + 1) == Padded(n, w) + [Symbol(d)]
  {
    DivModUnique(n * 10 + d, 10, n, d);
  }

  /** A number below 10^(w+1) and its last digit. */
  lemma TakeDigit(r: nat, w: nat) returns (t: nat, d: nat)
    requires r < Pow(10, w + 1)
    ensures r == t * 10 + d && d < 10 && t < Pow(10, w)
  {
    t, d := r / 10, r % 10;
    assert Pow(10, w + 1) == 10 * Pow(10, w);
  }

  lemma AppendDigit(q: nat, p: nat, t: nat, d: nat)
    ensures q * (10 * p) + (t * 10 + d) == (q * p + t) * 10 + d
  {
  }

  /** A text of q followed by the w digits of r is the text of q * 10^w + r. */
  lemma {:induction false} PaddedSplit(q: nat, v: nat, r: nat, w: nat)
    requires r < Pow(10, w)
    ensures q * Pow(10, w) + r >= 0 && Padded(q * Pow(10, w) + r, v + w) == Padded(q, v) + Padded(r, w)
  {
    hide *;
    PowPositive(10, w);
    TenTimes(w);
    if w == 0 {
      assert Padded(q, v) + Padded(r, w) == Padded(q, v);
    } else {
      var t, d := TakeDigit(r, w - 1);
      var p := Pow(10, w - 1);
      PowPositive(10, w - 1);
      PaddedSplit(q, v, t, w - 1);
      AppendDigit(q, p, t, d);
      PaddedSnoc(q * p + t, d, v + w - 1);
      PaddedSnoc(t, d, w - 1);
    }
  }

  lemma TenTimes(w: nat)
    ensures if w == 0 then Pow(10, w) == 1 else Pow(10, w) == 10 * Pow(10, w - 1)
  {
  }

  lemma DecimalNumeral(n: nat)
    ensures Decimal(n) == Numeral(n, 10)
  {
  }

  lemma {:induction false} DecimalSplit(q: nat, r: nat, w: nat)
    requires q > 0 && r < Pow(10, w)
    ensures q * Pow(10, w) + r > 0 && Decimal(q * Pow(10, w) + r) == Decimal(q) + Padded(r, w)
  {
    hide *;
    PowPositive(10, w);
    MulMono(q, 1, Pow(10, w));
    TenTimes(w);
    if w == 0 {
      assert Decimal(q) + Padded(r, w) == Decimal(q);
    } else {
      var t, d := TakeDigit(r, w - 1);
      var p := Pow(10, w - 1);
      PowPositive(10, w - 1);
      DecimalSplit(q, t, w - 1);
      DecimalNumeral(q * p + t);
      DecimalNumeral((q * p + t) * 10 + d);
      AppendDigit(q, p, t, d);
      NumeralSnoc(q * p + t, d, 10);
      PaddedSnoc(t, d, w - 1);
    }
  }

  /** A number of digits and its bounds determine each other. */
  lemma {:induction false} DecimalLength(n: nat, w: nat)
    requires w >= 1 && Pow(10, w - 1) <= n < Pow(10, w)
    ensures |Decimal(n)| == w
  {
    if w == 1 {
      assert Pow(10, 1) == 10 * Pow(10, 0);
    } else {
      var t, d := TakeDigit(n, w - 1);
      assert Pow(10, w - 1) == 10 * Pow(10, w - 2);
      DecimalLength(t, w - 1);
      PowPositive(10, w - 2);
      NumeralSnoc(t, d, 10);
    }
  }
}
