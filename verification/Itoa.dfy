/** Integer to text: division by multiplying, and digits written into a buffer. */
module Itoa {
  import opened Powers
  import opened Bits
  import opened Numerals

  // ---- Division by 10^N with a multiplication and a shift ----

  /** The constants for a type of n bytes: whether to add one, the multiplier and the shift. */
  datatype Division = Division(add: nat, multiplier: nat, shift: nat)

  predicate IsSize(n: nat) { n == 2 || n == 4 || n == 8 }

  function DivisionBy10PowN(n: nat): Division
    requires IsSize(n)
  {
    if n == 2 then Division(1, 41943, 22)
    else if n == 4 then Division(0, 3518437209, 45)
    else Division(0, 12379400392853802749, 90)
  }

  datatype QuotientAndRemainder = QuotientAndRemainder(quotient: nat, remainder: nat)

  function Pow10(x: nat): (r: nat)
    ensures r >= 1
  {
    PowPositive(10, x);
    Pow(10, x)
  }

  /** The product is taken in a type of 2n bytes, the results cut to n and n / 2 bytes. */
  function Split(n: nat, value: nat): QuotientAndRemainder
    requires IsSize(n)
  {
    var division := DivisionBy10PowN(n);
    var product := (division.multiplier * (value + division.add)) % Pow2(16 * n);
    var quotient := Shr(product, division.shift) % Pow2(8 * n);
    var remainder := (value - quotient * (Pow10(n) % Pow2(4 * n))) % Pow2(4 * n);
    QuotientAndRemainder(quotient, remainder)
  }

  /** A multiplier slightly above 2^s / d. */
  lemma ReciprocalAbove(v: int, d: int, m: int, s: int, e: int)
    requires 0 <= v && 0 < d && 0 < s && 0 <= e && m * d == s + e && v * e < s
    ensures (m * v) / s == v / d
  {
    var q, r := v / d, v % d;
    assert v == d * q + r;
    var t := m * v - q * s;
    assert d * t == r * s + v * e by {
      assert d * (m * v) == (s + e) * v by { MulAssoc(d, m, v); }
      assert d * (q * s) == (d * q) * s by { MulAssoc(d, q, s); }
      assert (s + e) * v == v * s + v * e;
      assert (d * q + r) * s == (d * q) * s + r * s;
    }
    MulMono(s, r, d - 1);
    MulMono(v, 0, e);
    MulMono(s, 0, r);
    Between(d, t, s);
    DivModUnique(m * v, s, q, t);
  }

  lemma Between(d: int, t: int, s: int)
    requires d > 0 && 0 <= d * t < d * s
    ensures 0 <= t < s
  {
    if t < 0 { MulMono(d, t, -1); }
    if t >= s { MulMono(d, s, t); }
  }

  /** A multiplier slightly below 2^s / d, with one added to the value. */
  lemma ReciprocalBelow(v: int, d: int, m: int, s: int, e: int)
    requires 0 <= v && 0 < d && 0 < s && 0 < e && m * d == s - e && (v + 1) * e <= s
    ensures (m * (v + 1)) / s == v / d
  {
    var q, r := v / d, v % d;
    assert v == d * q + r;
    var t := m * (v + 1) - q * s;
    BelowExcess(v + 1, d, m, s, e, q, r + 1);
    MulMono(s, r + 1, d);
    MulMono(s, 1, r + 1);
    MulMono(e, 1, v + 1);
    Between(d, t, s);
    DivModUnique(m * (v + 1), s, q, t);
  }

  lemma BelowExcess(u: int, d: int, m: int, s: int, e: int, q: int, r: int)
    requires m * d == s - e && u == d * q + r
    ensures d * (m * u - q * s) == r * s - u * e
  {
    assert d * (m * u) == (s - e) * u by { MulAssoc(d, m, u); }
    assert d * (q * s) == (d * q) * s by { MulAssoc(d, q, s); }
    assert (s - e) * u == u * s - u * e;
    assert (d * q + r) * s == (d * q) * s + r * s;
    MulDistrib(d, m * u, -(q * s));
  }

  lemma SmallTens()
    ensures Pow10(0) == 1 && Pow10(1) == 10 && Pow10(2) == 100 && Pow10(3) == 1000 && Pow10(4) == 1_0000
    ensures Pow10(5) == 10_0000 && Pow10(6) == 100_0000 && Pow10(7) == 1000_0000 && Pow10(8) == 1_0000_0000
    ensures Pow10(9) == 10_0000_0000 && Pow10(10) == 100_0000_0000 && Pow10(11) == 1000_0000_0000
    ensures Pow10(12) == 1_0000_0000_0000
  {
  }

  lemma TenTo16()
    ensures Pow10(16) == 1_0000_0000_0000_0000
  {
    hide Pow;
    SmallTens();
    PowAdd(10, 8, 8);
  }

  lemma SizePowers()
    ensures Pow10(2) == 100 && Pow10(4) == 10000 && Pow10(8) == 1_0000_0000 && Pow10(16) == 1_0000_0000_0000_0000
    ensures Pow2(16) == 0x1_0000 && Pow2(32) == 0x1_0000_0000 && Pow2(64) == 0x1_0000_0000_0000_0000
    ensures Pow2(128) == 0x1_0000_0000_0000_0000_0000_0000_0000_0000 && Pow2(8) == 0x100
    ensures Pow2(22) == 4194304 && Pow2(45) == 35184372088832 && Pow2(90) == 1237940039285380274899124224
  {
    hide Pow2, Pow10;
    SmallTens();
    TenTo16();
    WordSizes();
    SmallPowers();
    Pow2Add(3, 3);
    Pow2Add(16, 6);
    Pow2Add(22, 22);
    Pow2Next(44);
    Pow2Add(45, 45);
  }

  /** Neither the product nor the power of ten overflows, and the shifted product is the quotient. */
  lemma ProductIsExact(n: nat, value: nat)
    requires IsSize(n) && value < Pow2(8 * n)
    ensures var division := DivisionBy10PowN(n);
            var product := division.multiplier * (value + division.add);
            && product < Pow2(16 * n) && Shr(product, division.shift) == value / Pow10(n)
    ensures 0 < Pow10(n) < Pow2(4 * n)
  {
    hide Pow2, Pow10;
    SizePowers();
    if n == 2 {
      ReciprocalBelow(value, 100, 41943, 4194304, 4);
    } else if n == 4 {
      ReciprocalAbove(value, 10000, 3518437209, 35184372088832, 1168);
    } else {
      ReciprocalAbove(value, 1_0000_0000, 12379400392853802749, 1237940039285380274899124224, 875776);
    }
  }

  /** The split is exact division, over the whole range of the type. */
  lemma SplitIsExact(n: nat, value: nat)
    requires IsSize(n) && value < Pow2(8 * n)
    ensures Split(n, value).quotient == value / Pow10(n) && Split(n, value).remainder == value % Pow10(n)
  {
    hide Pow2, Pow10, DivisionBy10PowN, Shr;
    ProductIsExact(n, value);
    var division, d := DivisionBy10PowN(n), Pow10(n);
    var product := division.multiplier * (value + division.add);
    SmallMod(product, Pow2(16 * n));
    DivModIdentity(value, d);
    DivShrinks(value, d);
    SmallMod(value / d, Pow2(8 * n));
    SmallMod(d, Pow2(4 * n));
    SmallMod(value % d, Pow2(4 * n));
  }

  // ---- The buffer ----

  /** `text` has been written at `p`, and nothing else changed. */
  predicate Wrote(before: string, after: string, p: nat, text: string) {
    p + |text| <= |before| && after == before[..p] + text + before[p + |text|..]
  }

  lemma WroteBoth(s0: string, s1: string, s2: string, p: nat, t1: string, t2: string)
    requires Wrote(s0, s1, p, t1) && Wrote(s1, s2, p + |t1|, t2)
    ensures Wrote(s0, s2, p, t1 + t2)
  {
    assert s1[..p + |t1|] == s0[..p] + t1;
    assert s1[p + |t1| + |t2|..] == s0[p + |t1 + t2|..];
  }

  method OutDigit(out: array<char>, p: nat, value: nat) returns (q: nat)
    requires p + 1 <= out.Length && value < 10
    modifies out
    ensures q == p + 1 && Wrote(old(out[..]), out[..], p, [Symbol(value)])
  {
    out[p] := '0' + value as char;
    q := p + 1;
  }

  /** A line of the two-digit table. */
  function Row(t: nat): (r: string)
    requires t < 10
    ensures |r| == 20
  {
    match t
    case 0 => "00010203040506070809"
    case 1 => "10111213141516171819"
    case 2 => "20212223242526272829"
    case 3 => "30313233343536373839"
    case 4 => "40414243444546474849"
    case 5 => "50515253545556575859"
    case 6 => "60616263646566676869"
    case 7 => "70717273747576777879"
    case 8 => "80818283848586878889"
    case _ => "90919293949596979899"
  }

  /** The digits of 0 to 99, two each. */
  function Digits(): (r: string)
    ensures |r| == 200
  {
    Row(0) + Row(1) + Row(2) + Row(3) + Row(4) + Row(5) + Row(6) + Row(7) + Row(8) + Row(9)
  }

  lemma DigitsRow(t: nat, u: nat)
    requires t < 10 && u < 20
    ensures Digits()[20 * t + u] == Row(t)[u]
  {
    hide Row;
  }

  lemma RowEntry(t: nat, u: nat)
    requires t < 10 && u < 10
    ensures Row(t)[2 * u] == Symbol(t) && Row(t)[2 * u + 1] == Symbol(u)
  {
    hide *;
    if t < 3 {
      FirstRows(t, u);
    } else if t < 6 {
      MiddleRows(t, u);
    } else if t < 8 {
      NextRows(t, u);
    } else {
      LastRows(t, u);
    }
  }

  lemma FirstRows(t: nat, u: nat)
    requires t < 3 && u < 10
    ensures Row(t)[2 * u] == Symbol(t) && Row(t)[2 * u + 1] == Symbol(u)
  {
  }

  lemma MiddleRows(t: nat, u: nat)
    requires 3 <= t < 6 && u < 10
    ensures Row(t)[2 * u] == Symbol(t) && Row(t)[2 * u + 1] == Symbol(u)
  {
  }

  lemma NextRows(t: nat, u: nat)
    requires 6 <= t < 8 && u < 10
    ensures Row(t)[2 * u] == Symbol(t) && Row(t)[2 * u + 1] == Symbol(u)
  {
  }

  lemma LastRows(t: nat, u: nat)
    requires 8 <= t < 10 && u < 10
    ensures Row(t)[2 * u] == Symbol(t) && Row(t)[2 * u + 1] == Symbol(u)
  {
  }

  /** The table holds the two digits of every number below 100. */
  lemma TableEntry(v: nat)
    requires v < 100
    ensures [Digits()[2 * v], Digits()[2 * v + 1]] == Padded(v, 2)
  {
    hide Row, Digits, Symbol;
    var t, u := v / 10, v % 10;
    RowEntry(t, u);
    DigitsRow(t, 2 * u);
    DigitsRow(t, 2 * u + 1);
    TwoDigits(t, u);
  }

  lemma TwoDigits(t: nat, u: nat)
    requires t < 10 && u < 10
    ensures Padded(10 * t + u, 2) == [Symbol(t), Symbol(u)]
  {
    hide Symbol, Padded;
    PaddedSnoc(t, u, 1);
    PaddedSnoc(0, t, 0);
  }

  method OutTwoDigits(out: array<char>, p: nat, value: nat) returns (q: nat)
    requires p + 2 <= out.Length && value < 100
    modifies out
    ensures q == p + 2 && Wrote(old(out[..]), out[..], p, Padded(value, 2))
  {
    hide Digits, Padded;
    TableEntry(value);
    out[p] := Digits()[value * 2];
    out[p + 1] := Digits()[value * 2 + 1];
    q := p + 2;
  }

  // ---- Digits of a number, largest unit first ----

  /** All 2n digits, leading zeros included. */
  method Tail(out: array<char>, p: nat, n: nat, u: nat) returns (q: nat)
    requires (n == 1 || IsSize(n)) && u < Pow10(2 * n) && p + 2 * n <= out.Length
    modifies out
    ensures q == p + 2 * n && Wrote(old(out[..]), out[..], p, Padded(u, 2 * n))
    decreases n
  {
    hide Padded, Wrote, Pow10, Pow2, Split;
    if n == 1 {
      SmallTens();
      q := OutTwoDigits(out, p, u);
    } else {
      TensFit(n, u);
      SplitIsExact(n, u);
      var x := Split(n, u);
      JoinSplit(n, u);
      ghost var s0 := out[..];
      q := Tail(out, p, n / 2, x.quotient);
      ghost var s1 := out[..];
      q := Tail(out, q, n / 2, x.remainder);
      WroteBoth(s0, s1, out[..], p, Padded(x.quotient, n), Padded(x.remainder, n));
    }
  }

  /** A number below 10^2n fits in n bytes. */
  lemma TensFit(n: nat, u: nat)
    requires IsSize(n) && u < Pow10(2 * n)
    ensures u < Pow2(8 * n)
  {
    hide Pow2, Pow10;
    SizePowers();
  }

  /** The text of a number is the texts of the parts of its split. */
  lemma JoinSplit(n: nat, u: nat)
    ensures var q, r := u / Pow10(n), u % Pow10(n);
            && q >= 0 && r < Pow10(n) && (q > 0 <==> u >= Pow10(n))
            && (q < Pow10(n) <==> u < Pow10(2 * n))
            && Padded(u, 2 * n) == Padded(q, n) + Padded(r, n)
            && (q > 0 ==> Decimal(u) == Decimal(q) + Padded(r, n))
  {
    hide Padded, Numeral, Pow;
    var d, q, r := Pow10(n), u / Pow10(n), u % Pow10(n);
    DivModIdentity(u, d);
    PowAdd(10, n, n);
    PaddedSplit(q, n, r, n);
    if q > 0 { DecimalSplit(q, r, n); }
    QuotientOrder(u, d, q, r);
  }

  lemma QuotientOrder(u: int, d: int, q: int, r: int)
    requires d > 0 && u == d * q + r && 0 <= r < d && q >= 0
    ensures (q > 0 <==> u >= d) && (q < d <==> u < d * d)
  {
    if q > 0 { MulMono(d, 1, q); }
    if q < d { MulMono(d, q + 1, d); } else { MulMono(d, d, q); }
  }

  /** No leading zeros. */
  method Head(out: array<char>, p: nat, n: nat, u: nat) returns (q: nat)
    requires (n == 1 || IsSize(n)) && u < Pow10(2 * n) && p + |Decimal(u)| <= out.Length
    modifies out
    ensures q == p + |Decimal(u)| && Wrote(old(out[..]), out[..], p, Decimal(u))
    decreases n
  {
    hide Padded, Wrote, Pow10, Pow2, Split, Numeral, Symbol;
    SmallTens();
    if n == 1 {
      ShortDecimal(u);
      if u < 10 {
        q := OutDigit(out, p, u);
      } else {
        q := OutTwoDigits(out, p, u);
      }
    } else if u < Pow10(n) {
      q := Head(out, p, n / 2, u);
    } else {
      TensFit(n, u);
      SplitIsExact(n, u);
      JoinSplit(n, u);
      q := HeadParts(out, p, n, Split(n, u));
    }
  }

  /** A split number whose quotient is positive and below 10^n. */
  method HeadParts(out: array<char>, p: nat, n: nat, x: QuotientAndRemainder) returns (q: nat)
    requires IsSize(n) && x.quotient < Pow10(n) && x.remainder < Pow10(n)
    requires p + |Decimal(x.quotient)| + n <= out.Length
    modifies out
    ensures q == p + |Decimal(x.quotient)| + n
    ensures Wrote(old(out[..]), out[..], p, Decimal(x.quotient) + Padded(x.remainder, n))
    decreases n, 0
  {
    hide Padded, Wrote, Pow10, Pow2, Split, Numeral;
    ghost var s0 := out[..];
    q := Head(out, p, n / 2, x.quotient);
    ghost var s1 := out[..];
    q := Tail(out, q, n / 2, x.remainder);
    WroteBoth(s0, s1, out[..], p, Decimal(x.quotient), Padded(x.remainder, n));
  }

  lemma ShortDecimal(u: nat)
    requires u < 100
    ensures u < 10 ==> Decimal(u) == [Symbol(u)]
    ensures u >= 10 ==> Decimal(u) == Padded(u, 2)
  {
    hide Symbol;
    if u >= 10 {
      NumeralSnoc(u / 10, u % 10, 10);
      TwoDigits(u / 10, u % 10);
    }
  }

  /** Three parts, for numbers of more than 2n digits. */
  method Large(out: array<char>, p: nat, n: nat, x: QuotientAndRemainder) returns (q: nat)
    requires IsSize(n) && Pow10(n) <= x.quotient < Pow2(8 * n) && x.quotient < Pow10(2 * n) && x.remainder < Pow10(n)
    requires p + |Decimal(x.quotient)| + n <= out.Length
    modifies out
    ensures q == p + |Decimal(x.quotient)| + n
    ensures Wrote(old(out[..]), out[..], p, Decimal(x.quotient) + Padded(x.remainder, n))
  {
    hide Padded, Wrote, Pow10, Pow2, Split, Numeral;
    SplitIsExact(n, x.quotient);
    JoinSplit(n, x.quotient);
    var y := Split(n, x.quotient);
    ghost var s0 := out[..];
    q := Head(out, p, n / 2, y.quotient);
    ghost var s1 := out[..];
    q := Tail(out, q, n / 2, y.remainder);
    ghost var s2 := out[..];
    q := Tail(out, q, n / 2, x.remainder);
    WroteBoth(s0, s1, s2, p, Decimal(y.quotient), Padded(y.remainder, n));
    WroteBoth(s0, s2, out[..], p, Decimal(x.quotient), Padded(x.remainder, n));
  }

  /** The decimal text of every value of an n-byte type. */
  method Uitoa(out: array<char>, p: nat, n: nat, u: nat) returns (q: nat)
    requires (n == 1 || IsSize(n)) && u < Pow2(8 * n) && p + |Decimal(u)| <= out.Length
    modifies out
    ensures q == p + |Decimal(u)| && Wrote(old(out[..]), out[..], p, Decimal(u))
  {
    hide Padded, Wrote, Pow10, Pow2, Split, Numeral, Symbol;
    if n == 1 {
      q := ByteToText(out, p, u);
    } else if u < Pow10(n) {
      q := Head(out, p, n / 2, u);
    } else {
      SplitIsExact(n, u);
      JoinSplit(n, u);
      var x := Split(n, u);
      if u < Pow10(2 * n) {
        q := HeadParts(out, p, n, x);
      } else {
        LargeQuotient(n, u);
        q := Large(out, p, n, x);
      }
    }
  }

  /** 2^8n is below 10^3n. */
  lemma LargeQuotient(n: nat, u: nat)
    requires IsSize(n) && Pow10(2 * n) <= u < Pow2(8 * n)
    ensures Pow10(n) <= u / Pow10(n) < Pow10(2 * n) && u / Pow10(n) < Pow2(8 * n)
  {
    hide Pow2, Pow10;
    SizePowers();
  }

  method ByteToText(out: array<char>, p: nat, u: nat) returns (q: nat)
    requires u < Pow2(8) && p + |Decimal(u)| <= out.Length
    modifies out
    ensures q == p + |Decimal(u)| && Wrote(old(out[..]), out[..], p, Decimal(u))
  {
    hide Padded, Wrote, Pow, Pow2, Numeral, Symbol;
    WordSizes();
    if u < 10 {
      ShortDecimal(u);
      q := OutDigit(out, p, u);
    } else if u < 100 {
      ShortDecimal(u);
      q := OutTwoDigits(out, p, u);
    } else {
      ghost var s0 := out[..];
      SmallTens();
      DecimalSplit(u / 100, u % 100, 2);
      ShortDecimal(u / 100);
      q := OutDigit(out, p, u / 100);
      ghost var s1 := out[..];
      q := OutTwoDigits(out, q, u % 100);
      WroteBoth(s0, s1, out[..], p, [Symbol(u / 100)], Padded(u % 100, 2));
    }
  }

  // ---- Signed numbers ----

  /** An n-byte integer as its unsigned image. */
  function ToUnsigned(n: nat, i: int): nat {
    i % Pow2(8 * n)
  }

  predicate InSignedRange(n: nat, i: int)
    requires n >= 1
  {
    -(Pow2(8 * n - 1) as int) <= i < Pow2(8 * n - 1)
  }

  /** The absolute value without a branch: `((2 * u) & ~mask) - u`. */
  function BranchlessAbs(n: nat, i: int): nat {
    var mask := if i < 0 then Pow2(8 * n) - 1 else 0;
    var u := ToUnsigned(n, i);
    (And((2 * u) % Pow2(8 * n), Pow2(8 * n) - 1 - mask) - u) % Pow2(8 * n)
  }

  lemma BranchlessAbsIsAbs(n: nat, i: int)
    requires n >= 1 && InSignedRange(n, i)
    ensures BranchlessAbs(n, i) == (if i < 0 then -i else i) < Pow2(8 * n)
  {
    hide Pow2, And;
    var m := Pow2(8 * n);
    Pow2Next(8 * n - 1);
    if i < 0 {
      DivModUnique(i, m, -1, i + m);
      AndMask(2 * (i + m) % m, 0);
      SmallPowers();
      SmallMod(0, 1);
      DivModUnique(-(i + m), m, -1, -i);
    } else {
      SmallMod(i, m);
      SmallMod(2 * i, m);
      AndMask(2 * i, 8 * n);
    }
  }

  /** Stores a minus sign unconditionally, and moves past it only when the number is negative. */
  method ItoaSigned(out: array<char>, p: nat, n: nat, i: int) returns (q: nat)
    requires (n == 1 || IsSize(n)) && InSignedRange(n, i) && p + |SignedDecimal(i)| <= out.Length
    modifies out
    ensures q == p + |SignedDecimal(i)| && Wrote(old(out[..]), out[..], p, SignedDecimal(i))
  {
    hide BranchlessAbs, Pow2, Decimal, InSignedRange;
    BranchlessAbsIsAbs(n, i);
    var u := BranchlessAbs(n, i);
    var mask := if i < 0 then Pow2(8 * n) - 1 else 0;
    ghost var s0 := out[..];
    DecimalNonempty(u);
    out[p] := '-';
    ghost var s1 := out[..];
    MaskBit(n);
    q := Uitoa(out, p + And(mask, 1), n, u);
    if i < 0 {
      WroteBoth(s0, s1, out[..], p, "-", Decimal(u));
    } else {
      Overwritten(s0, s1, out[..], p, Decimal(u));
    }
  }

  lemma DecimalNonempty(u: nat)
    ensures |Decimal(u)| >= 1
  {
  }

  lemma MaskBit(n: nat)
    requires n >= 1
    ensures And(Pow2(8 * n) - 1, 1) == 1 && And(0, 1) == 0
  {
    var m := Pow2(8 * n - 1);
    assert Pow2(8 * n) == 2 * m;
    hide Pow2;
    BitwiseBuild(m - 1, 0, 1, 1);
    AndZero(m - 1);
  }

  lemma AndZero(x: nat)
    ensures And(x, 0) == 0
  {
  }

  lemma Overwritten(s0: string, s1: string, s2: string, p: nat, text: string)
    requires p < |s0| == |s1| && s1 == s0[p := '-'] && |text| >= 1 && Wrote(s1, s2, p, text)
    ensures Wrote(s0, s2, p, text)
  {
    assert s1[..p] == s0[..p] && s1[p + |text|..] == s0[p + |text|..];
  }

  // ---- Wide numbers, from the last digits to the first ----

  function Digits10(x: nat): nat {
    if x < 10 then 1
    else if x < 100 then 2
    else if x < 1000 then 3
    else if x < 1_0000_0000_0000 then
      if x < 1_0000_0000 then
        if x < 100_0000 then
          if x < 1_0000 then 4 else if x >= 10_0000 then 6 else 5
        else if x >= 1000_0000 then 8 else 7
      else if x < 100_0000_0000 then
        if x >= 10_0000_0000 then 10 else 9
      else if x >= 1000_0000_0000 then 12 else 11
    else 12 + Digits10(x / 1_0000_0000_0000)
  }

  /** The length of the text, for natural numbers of any size. */
  lemma {:induction false} Digits10IsLength(x: nat)
    ensures Digits10(x) == |Decimal(x)|
  {
    hide Pow, Numeral;
    SmallTens();
    if x == 0 {
      ShortDecimal(x);
    } else if x < 1_0000_0000_0000 {
      DecimalLength(x, Digits10(x));
    } else {
      var q, r := x / 1_0000_0000_0000, x % 1_0000_0000_0000;
      Digits10IsLength(q);
      DecimalSplit(q, r, 12);
    }
  }

  /** Written before what was already there. */
  lemma WroteBefore(s0: string, s1: string, s2: string, p: nat, t1: string, t2: string)
    requires Wrote(s0, s1, p + |t1|, t2) && Wrote(s1, s2, p, t1)
    ensures Wrote(s0, s2, p, t1 + t2)
  {
    assert s1[..p] == s0[..p];
    assert s1[p + |t1|..] == t2 + s0[p + |t1 + t2|..];
  }

  method WriteUIntText(out: array<char>, p: nat, x0: nat) returns (q: nat)
    requires p + |Decimal(x0)| <= out.Length
    modifies out
    ensures q == p + |Decimal(x0)| && Wrote(old(out[..]), out[..], p, Decimal(x0))
  {
    hide Wrote, Padded, Numeral, Symbol;
    Digits10IsLength(x0);
    var x, len := x0, Digits10(x0);
    var pp := p + len;
    ghost var s0, suffix := out[..], "";
    NothingWritten(s0, pp);
    while x >= 100
      invariant Decimal(x0) == Decimal(x) + suffix && pp == p + |Decimal(x)|
      invariant Wrote(s0, out[..], pp, suffix)
    {
      ghost var s1 := out[..];
      var i := x % 100;
      LastTwoDigits(x);
      x := x / 100;
      pp := pp - 2;
      var _ := OutTwoDigits(out, pp, i);
      WroteBefore(s0, s1, out[..], pp, Padded(i, 2), suffix);
      suffix := Padded(i, 2) + suffix;
    }
    ghost var s1 := out[..];
    ShortDecimal(x);
    if x < 10 {
      var _ := OutDigit(out, p, x);
    } else {
      var _ := OutTwoDigits(out, p, x);
    }
    WroteBefore(s0, s1, out[..], p, Decimal(x), suffix);
    q := p + len;
  }

  lemma NothingWritten(s: string, p: nat)
    requires p <= |s|
    ensures Wrote(s, s, p, "")
  {
  }

  lemma LastTwoDigits(x: nat)
    requires x >= 100
    ensures Decimal(x) == Decimal(x / 100) + Padded(x % 100, 2)
  {
    hide Numeral, Padded;
    SmallTens();
    DecimalSplit(x / 100, x % 100, 2);
  }

  // ---- Signed wide numbers ----

  const MIN128: string :=
    "-" + "170141183" + "4604692317" + "3168730371" + "5884105728"

  const MIN256: string :=
    "-" + "5789604" + "4618658097" + "7117854925" + "0434395392"
    + "6634992332" + "8202820197" + "2879200395" + "6564819968"

  /** Ten more digits. */
  lemma TenMore(q: nat, r: nat)
    requires q > 0 && r < 100_0000_0000
    ensures Decimal(q * 100_0000_0000 + r) == Decimal(q) + Padded(r, 10)
  {
    hide Numeral, Padded, Pow;
    SmallTens();
    DecimalSplit(q, r, 10);
  }

  lemma Min128Digits0()
    ensures Decimal(170141183) == "170141183"
  {
  }

  lemma Min128Digits1()
    ensures Padded(4604692317, 10) == "4604692317"
  {
  }

  lemma Min128Digits2()
    ensures Padded(3168730371, 10) == "3168730371"
  {
  }

  lemma Min128Digits3()
    ensures Padded(5884105728, 10) == "5884105728"
  {
  }

  lemma Min128IsMinimum()
    ensures MIN128 == SignedDecimal(-(Pow2(127) as int))
  {
    hide Numeral, Padded, Pow2, Pow;
    WordSizes();
    Pow2Next(127);
    Min128Digits0();
    Min128Digits1();
    Min128Digits2();
    Min128Digits3();
    TenMore(170141183, 4604692317);
    TenMore(1701411834604692317, 3168730371);
    TenMore(17014118346046923173168730371, 5884105728);
  }

  lemma Min256Digits0()
    ensures Decimal(5789604) == "5789604"
  {
  }

  lemma Min256Digits1()
    ensures Padded(4618658097, 10) == "4618658097"
  {
  }

  lemma Min256Digits2()
    ensures Padded(7117854925, 10) == "7117854925"
  {
  }

  lemma Min256Digits3()
    ensures Padded(434395392, 10) == "0434395392"
  {
  }

  lemma Min256Digits4()
    ensures Padded(6634992332, 10) == "6634992332"
  {
  }

  lemma Min256Digits5()
    ensures Padded(8202820197, 10) == "8202820197"
  {
  }

  lemma Min256Digits6()
    ensures Padded(2879200395, 10) == "2879200395"
  {
  }

  lemma Min256Digits7()
    ensures Padded(6564819968, 10) == "6564819968"
  {
  }

  lemma Min256IsMinimum()
    ensures MIN256 == SignedDecimal(-(Pow2(255) as int))
  {
    hide Numeral, Padded, Pow2, Pow;
    WordSizes();
    Pow2Add(128, 128);
    Pow2Next(255);
    Min256Digits0();
    Min256Digits1();
    Min256Digits2();
    Min256Digits3();
    Min256Digits4();
    Min256Digits5();
    Min256Digits6();
    Min256Digits7();
    TenMore(5789604, 4618658097);
    TenMore(57896044618658097, 7117854925);
    TenMore(578960446186580977117854925, 434395392);
    TenMore(5789604461865809771178549250434395392, 6634992332);
    TenMore(57896044618658097711785492504343953926634992332, 8202820197);
    TenMore(578960446186580977117854925043439539266349923328202820197, 2879200395);
    TenMore(5789604461865809771178549250434395392663499233282028201972879200395, 6564819968);
  }

  /** The types handled: signed integers of 128 and 256 bits. */
  method WriteSIntText(out: array<char>, p: nat, bits: nat, x: int) returns (q: nat)
    requires (bits == 128 || bits == 256) && -(Pow2(bits - 1) as int) <= x < Pow2(bits - 1)
    requires p + |SignedDecimal(x)| <= out.Length
    modifies out
    ensures q == p + |SignedDecimal(x)| && Wrote(old(out[..]), out[..], p, SignedDecimal(x))
  {
    hide Pow2, Decimal, Wrote;
    if x == -(Pow2(bits - 1) as int) {
      Min128IsMinimum();
      Min256IsMinimum();
      q := CopyText(out, p, if bits == 128 then MIN128 else MIN256);
    } else if x < 0 {
      ghost var s0 := out[..];
      var start := CopyText(out, p, "-");
      ghost var s1 := out[..];
      q := WriteUIntText(out, start, -x);
      WroteBoth(s0, s1, out[..], p, "-", Decimal(-x));
    } else {
      q := WriteUIntText(out, p, x);
    }
  }

  method CopyText(out: array<char>, p: nat, text: string) returns (q: nat)
    requires p + |text| <= out.Length
    modifies out
    ensures q == p + |text| && Wrote(old(out[..]), out[..], p, text)
  {
    for i := 0 to |text|
      invariant out[..] == old(out[..p]) + text[..i] + old(out[p + i..])
    {
      out[p + i] := text[i];
    }
    q := p + |text|;
  }
}
