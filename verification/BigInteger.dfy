/** base/libbiginteger: BigInteger, a sign and a magnitude. */
module BigIntegers {
  import opened Powers
  import opened Blocks
  import opened BigUnsigneds

  datatype Sign = Negative | Zero | Positive

  function Opposite(s: Sign): Sign {
    match s
    case Negative => Positive
    case Zero => Zero
    case Positive => Negative
  }

  /** `r` and `q` are the floored remainder and quotient, with Knuth's a mod 0 == a. */
  ghost predicate IsFlooredDivision(a: int, b: int, q: int, r: int) {
    && a == b * q + r
    && (b > 0 ==> 0 <= r < b)
    && (b < 0 ==> b < r <= 0)
    && (b == 0 ==> q == 0)
  }

  class BigInteger {
    var sign: Sign
    const mag: BigUnsigned

    /** Zero, and only zero, carries the sign zero. */
    ghost predicate Valid()
      reads this, mag, mag.blk
    {
      mag.Valid() && (sign.Zero? <==> mag.Value() == 0)
    }

    ghost function Value(): int
      reads this, mag, mag.blk
      requires Valid()
    {
      if sign.Negative? then -(mag.Value() as int) else mag.Value()
    }

    ghost predicate Apart(x: BigInteger)
      reads this, x, mag, x.mag
    {
      this != x ==> mag != x.mag && mag.blk != x.mag.blk
    }

    constructor ()
      ensures Valid() && Value() == 0 && fresh(mag) && fresh(mag.blk)
    {
      sign := Zero;
      mag := new BigUnsigned();
    }

    constructor Copy(x: BigInteger)
      requires x.Valid()
      ensures Valid() && Value() == x.Value() && fresh(mag) && fresh(mag.blk)
    {
      sign := x.sign;
      mag := new BigUnsigned.Copy(x.mag);
    }

    /** The constructors from a primitive and from a BigUnsigned. */
    constructor FromPrimitive(x: Blk)
      ensures Valid() && Value() == x && fresh(mag) && fresh(mag.blk)
    {
      sign := if x == 0 then Zero else Positive;
      mag := new BigUnsigned();
      new;
      mag.AssignPrimitive(x);
    }

    constructor FromUnsigned(x: BigUnsigned)
      requires x.Valid()
      ensures Valid() && Value() == x.Value() && fresh(mag) && fresh(mag.blk)
    {
      sign := if x.len == 0 then Zero else Positive;
      mag := new BigUnsigned.Copy(x);
      ZeroLength(x);
    }

    /** From a magnitude and a sign that does not contradict it; the sign is forced to zero with the magnitude. */
    constructor FromMagnitude(x: BigUnsigned, s: Sign)
      requires x.Valid() && (s == Zero ==> x.Value() == 0)
      ensures Valid() && Value() == (if s.Negative? then -(x.Value() as int) else x.Value())
      ensures fresh(mag) && fresh(mag.blk)
    {
      sign := if x.len == 0 then Zero else s;
      mag := new BigUnsigned.Copy(x);
      ZeroLength(x);
    }

    /** The same, throwing for a sign of zero with a nonzero magnitude. */
    static method MagnitudeAndSign(x: BigUnsigned, s: Sign) returns (ok: bool, r: BigInteger)
      requires x.Valid()
      ensures ok <==> s != Zero || x.Value() == 0
      ensures fresh(r) && fresh(r.mag) && fresh(r.mag.blk)
      ensures ok ==> r.Valid() && r.Value() == (if s.Negative? then -(x.Value() as int) else x.Value())
      ensures ok ==> (r.sign == if x.Value() == 0 then Zero else s)
    {
      ZeroLength(x);
      if s == Zero && x.len != 0 {
        r := new BigInteger();
        return false, r;
      }
      r := new BigInteger.FromMagnitude(x, s);
      ok := true;
    }

    method Assign(x: BigInteger)
      requires x.Valid() && Apart(x)
      modifies this, mag, mag.blk
      ensures Valid() && Value() == old(x.Value())
      ensures mag.blk == old(mag.blk) || fresh(mag.blk)
    {
      if this == x { return; }
      sign := x.sign;
      mag.Assign(x.mag);
    }

    method Equals(x: BigInteger) returns (r: bool)
      requires Valid() && x.Valid()
      ensures r <==> Value() == x.Value()
    {
      var sameMag := mag.Equals(x.mag);
      r := sign == x.sign && sameMag;
    }

    method CompareTo(x: BigInteger) returns (r: CmpRes)
      requires Valid() && x.Valid()
      ensures r.Less? <==> Value() < x.Value()
      ensures r.Equal? <==> Value() == x.Value()
      ensures r.Greater? <==> Value() > x.Value()
    {
      if SignLess(sign, x.sign) { return Less; }
      if SignLess(x.sign, sign) { return Greater; }
      match sign
      case Zero =>
        r := Equal;
      case Positive =>
        r := mag.CompareTo(x.mag);
      case Negative =>
        var c := mag.CompareTo(x.mag);
        r := match c case Less => Greater case Equal => Equal case Greater => Less;
    }

    method Add(a: BigInteger, b: BigInteger)
      requires a.Valid() && b.Valid() && Apart(a) && Apart(b)
      modifies this, mag, mag.blk
      ensures Valid() && Value() == old(a.Value() + b.Value())
      ensures mag.blk == old(mag.blk) || fresh(mag.blk)
      decreases if this == a || this == b then 1 else 0
    {
      if this == a || this == b {
        var tmpThis := new BigInteger();
        tmpThis.Add(a, b);
        Assign(tmpThis);
        return;
      }
      if a.sign == Zero {
        Assign(b);
      } else if b.sign == Zero {
        Assign(a);
      } else if a.sign == b.sign {
        sign := a.sign;
        mag.Add(a.mag, b.mag);
      } else {
        var c := a.mag.CompareTo(b.mag);
        match c
        case Equal =>
          mag.AssignPrimitive(0);
          sign := Zero;
        case Greater =>
          sign := a.sign;
          var _ := mag.Subtract(a.mag, b.mag);
        case Less =>
          sign := b.sign;
          var _ := mag.Subtract(b.mag, a.mag);
      }
    }

    method Subtract(a: BigInteger, b: BigInteger)
      requires a.Valid() && b.Valid() && Apart(a) && Apart(b)
      modifies this, mag, mag.blk
      ensures Valid() && Value() == old(a.Value() - b.Value())
      ensures mag.blk == old(mag.blk) || fresh(mag.blk)
      decreases if this == a || this == b then 1 else 0
    {
      if this == a || this == b {
        var tmpThis := new BigInteger();
        tmpThis.Subtract(a, b);
        Assign(tmpThis);
        return;
      }
      if a.sign == Zero {
        mag.Assign(b.mag);
        sign := Opposite(b.sign);
      } else if b.sign == Zero {
        Assign(a);
      } else if a.sign != b.sign {
        sign := a.sign;
        mag.Add(a.mag, b.mag);
      } else {
        var c := a.mag.CompareTo(b.mag);
        match c
        case Equal =>
          mag.AssignPrimitive(0);
          sign := Zero;
        case Greater =>
          sign := a.sign;
          var _ := mag.Subtract(a.mag, b.mag);
        case Less =>
          sign := Opposite(b.sign);
          var _ := mag.Subtract(b.mag, a.mag);
      }
    }

    method Multiply(a: BigInteger, b: BigInteger)
      requires a.Valid() && b.Valid() && Apart(a) && Apart(b)
      modifies this, mag, mag.blk
      ensures Valid() && Value() == old(a.Value() * b.Value())
      ensures mag.blk == old(mag.blk) || fresh(mag.blk)
      decreases if this == a || this == b then 1 else 0
    {
      if this == a || this == b {
        var tmpThis := new BigInteger();
        tmpThis.Multiply(a, b);
        Assign(tmpThis);
        return;
      }
      if a.sign == Zero || b.sign == Zero {
        sign := Zero;
        mag.AssignPrimitive(0);
        return;
      }
      SignedProduct(a.mag.Value(), b.mag.Value());
      sign := if a.sign == b.sign then Positive else Negative;
      mag.Multiply(a.mag, b.mag);
    }

    /** The magnitude tinkering of the sign-mismatch case is what turns truncation into floor. */
    method DivideWithRemainder(b: BigInteger, q: BigInteger) returns (ok: bool)
      requires Valid() && b.Valid() && Apart(b) && Apart(q) && q.Apart(b)
      modifies this, mag, mag.blk, q, q.mag, q.mag.blk
      ensures ok <==> this != q
      ensures !ok ==> sign == old(sign) && mag.len == old(mag.len)
      ensures !ok ==> mag.blk == old(mag.blk) && mag.blk[..] == old(mag.blk[..])
      ensures ok ==> Valid() && q.Valid() && Apart(q)
      ensures ok ==> IsFlooredDivision(old(Value()), old(b.Value()), q.Value(), Value())
      ensures mag.blk == old(mag.blk) || fresh(mag.blk)
      ensures q.mag.blk == old(q.mag.blk) || fresh(q.mag.blk)
      decreases if this == b || q == b then 1 else 0
    {
      if this == q { return false; }
      ok := true;
      if this == b || q == b {
        var tmpB := new BigInteger.Copy(b);
        var _ := DivideWithRemainder(tmpB, q);
        return;
      }
      if b.sign == Zero || sign == Zero {
        q.mag.AssignPrimitive(0);
        q.sign := Zero;
        return;
      }
      if sign == b.sign {
        DivideSameSign(b, q);
      } else {
        DivideOppositeSign(b, q);
      }
    }

    method DivideSameSign(b: BigInteger, q: BigInteger)
      requires Valid() && b.Valid() && sign == b.sign && sign != Zero
      requires Distinct(b, q)
      modifies this, mag, mag.blk, q, q.mag, q.mag.blk
      ensures Valid() && q.Valid() && mag.blk != q.mag.blk
      ensures IsFlooredDivision(old(Value()), b.Value(), q.Value(), Value())
      ensures mag.blk == old(mag.blk) || fresh(mag.blk)
      ensures q.mag.blk == old(q.mag.blk) || fresh(q.mag.blk)
    {
      ghost var a, d := mag.Value(), b.mag.Value();
      q.sign := Positive;
      var _ := mag.DivideWithRemainder(b.mag, q.mag);
      SameSignDivision(a, d);
      if mag.len == 0 { sign := Zero; }
      if q.mag.len == 0 { q.sign := Zero; }
      ZeroLength(mag);
      ZeroLength(q.mag);
    }

    method DivideOppositeSign(b: BigInteger, q: BigInteger)
      requires Valid() && b.Valid() && sign != b.sign && sign != Zero && b.sign != Zero
      requires Distinct(b, q)
      modifies this, mag, mag.blk, q, q.mag, q.mag.blk
      ensures Valid() && q.Valid() && mag.blk != q.mag.blk
      ensures IsFlooredDivision(old(Value()), b.Value(), q.Value(), Value())
      ensures mag.blk == old(mag.blk) || fresh(mag.blk)
      ensures q.mag.blk == old(q.mag.blk) || fresh(q.mag.blk)
    {
      hide Val, Canonical, IsFlooredDivision;
      ZeroLength(mag);
      ZeroLength(b.mag);
      OppositeSignDivision(mag.Value(), b.mag.Value());
      q.sign := Negative;
      DivideMagnitudes(b.mag, q.mag);
      sign := b.sign;
      if mag.len == 0 { sign := Zero; }
      if q.mag.len == 0 { q.sign := Zero; }
      ZeroLength(mag);
      ZeroLength(q.mag);
    }

    /** The magnitudes of the harder case: decrement, divide, increment, reflect. */
    method DivideMagnitudes(b: BigUnsigned, q: BigUnsigned)
      requires mag.Valid() && b.Valid() && mag.Value() > 0 && b.Value() > 0
      requires mag != b && mag != q && q != b && mag.blk != b.blk && mag.blk != q.blk && q.blk != b.blk
      modifies mag, mag.blk, q, q.blk
      ensures mag.Valid() && q.Valid() && mag.blk != q.blk
      ensures q.Value() == (old(mag.Value()) - 1) / b.Value() + 1
      ensures mag.Value() == b.Value() - 1 - (old(mag.Value()) - 1) % b.Value()
      ensures mag.blk == old(mag.blk) || fresh(mag.blk)
      ensures q.blk == old(q.blk) || fresh(q.blk)
    {
      hide Val, Canonical;
      var _ := mag.Decrement();
      var _ := mag.DivideWithRemainder(b, q);
      q.Increment();
      var _ := mag.Subtract(b, mag);
      var _ := mag.Decrement();
    }

    /** Throws only for the shift amount whose negation overflows. */
    method BitShiftLeft(a: BigInteger, b: int) returns (ok: bool)
      requires N == 64 && a.Valid() && Apart(a) && -0x8000_0000 <= b < 0x8000_0000
      modifies this, mag, mag.blk
      ensures ok <==> b != -0x8000_0000
      ensures !ok ==> sign == old(sign) && mag.len == old(mag.len)
      ensures !ok ==> mag.blk == old(mag.blk) && mag.blk[..] == old(mag.blk[..])
      ensures ok && b >= 0 ==> Valid() && Value() == old(a.Value()) * Pow2(b)
      ensures ok && b < 0 ==> Valid() && Value() == old(a.Value()) / Pow2(-b)
      ensures mag.blk == old(mag.blk) || fresh(mag.blk)
      decreases if this == a then 1 else 0
    {
      if this == a {
        var tmpThis := new BigInteger();
        ok := tmpThis.BitShiftLeft(a, b);
        if ok { Assign(tmpThis); }
        return;
      }
      if b < 0 {
        if b == -0x8000_0000 { return false; }
        FloorShiftRight(a, -b);
      } else {
        SignedShiftLeft(a, b);
      }
      ok := true;
    }

    /** Shifting right rounds towards minus infinity, for negative numbers as well. */
    method BitShiftRight(a: BigInteger, b: int) returns (ok: bool)
      requires N == 64 && a.Valid() && Apart(a) && -0x8000_0000 <= b < 0x8000_0000
      modifies this, mag, mag.blk
      ensures ok <==> b != -0x8000_0000
      ensures !ok ==> sign == old(sign) && mag.len == old(mag.len)
      ensures !ok ==> mag.blk == old(mag.blk) && mag.blk[..] == old(mag.blk[..])
      ensures ok && b >= 0 ==> Valid() && Value() == old(a.Value()) / Pow2(b)
      ensures ok && b < 0 ==> Valid() && Value() == old(a.Value()) * Pow2(-b)
      ensures mag.blk == old(mag.blk) || fresh(mag.blk)
      decreases if this == a then 1 else 0
    {
      if this == a {
        var tmpThis := new BigInteger();
        ok := tmpThis.BitShiftRight(a, b);
        if ok { Assign(tmpThis); }
        return;
      }
      if b < 0 {
        if b == -0x8000_0000 { return false; }
        SignedShiftLeft(a, -b);
      } else {
        FloorShiftRight(a, b);
      }
      ok := true;
    }

    method SignedShiftLeft(a: BigInteger, b: nat)
      requires a.Valid() && this != a && Apart(a) && b < 0x8000_0000
      modifies this, mag, mag.blk
      ensures Valid() && Value() == a.Value() * Pow2(b)
      ensures mag.blk == old(mag.blk) || fresh(mag.blk)
    {
      if a.sign == Zero {
        sign := Zero;
        mag.AssignPrimitive(0);
      } else {
        hide Val, Canonical, Pow2;
        ghost var m, p := a.mag.Value(), Pow2(b);
        ShiftedSign(m, p);
        var shifted := new BigUnsigned();
        var _ := shifted.BitShiftLeft(a.mag, b);
        mag.Assign(shifted);
        sign := a.sign;
      }
    }

    method FloorShiftRight(a: BigInteger, b: nat)
      requires N == 64 && a.Valid() && this != a && Apart(a) && b < 0x8000_0000
      modifies this, mag, mag.blk
      ensures Valid() && Value() == a.Value() / Pow2(b)
      ensures mag.blk == old(mag.blk) || fresh(mag.blk)
    {
      hide Val, Canonical, Pow2;
      if a.sign == Zero {
        sign := Zero;
        mag.AssignPrimitive(0);
        ZeroLength(mag);
        SmallMod(0, Pow2(b));
        return;
      }
      ghost var m, d := a.mag.Value(), Pow2(b);
      sign := a.sign;
      var shifted := new BigUnsigned();
      var _ := shifted.BitShiftRight(a.mag, b);
      mag.Assign(shifted);
      NegatedFloor(m, d);
      ZeroLength(mag);
      if mag.len == 0 {
        if sign == Positive {
          sign := Zero;
        } else {
          SmallQuotient(m, d);
          Pow2StrictMono(0, N);
          mag.AssignPrimitive(1);
        }
      } else if sign == Negative {
        var onesLost := OnesLost(a.mag, b);
        if onesLost {
          mag.Increment();
        }
      }
    }

    /** Three objects that share nothing. */
    ghost predicate Distinct(b: BigInteger, q: BigInteger)
      reads this, mag, b, b.mag, q, q.mag
    {
      this != b && this != q && q != b && Apart(b) && Apart(q) && q.Apart(b)
    }
  }

  lemma ZeroLength(x: BigUnsigned)
    requires x.Valid()
    ensures x.len == 0 <==> x.Value() == 0
  {
    ZeroIsEmpty(x.blk[..x.len]);
  }

  lemma SameSignDivision(a: int, d: int)
    requires a >= 0 && d > 0
    ensures IsFlooredDivision(a, d, a / d, a % d)
    ensures IsFlooredDivision(-a, -d, a / d, -(a % d))
  {
  }

  /** Decrement the dividend, increment the quotient, and reflect the remainder. */
  lemma OppositeSignDivision(a: int, d: int)
    requires a > 0 && d > 0
    ensures var q, r := (a - 1) / d + 1, d - 1 - (a - 1) % d;
            IsFlooredDivision(-a, d, -q, r) && IsFlooredDivision(a, -d, -q, -r)
  {
    var Q := (a - 1) / d;
    MulDistrib(d, Q, 1);
  }

  function SignLess(x: Sign, y: Sign): bool {
    (x.Negative? && !y.Negative?) || (x.Zero? && y.Positive?)
  }

  lemma SignedProduct(x: int, y: int)
    requires x > 0 && y > 0
    ensures x * y > 0 && (-x) * y == -(x * y) && x * (-y) == -(x * y) && (-x) * (-y) == x * y
  {
    MulMono(x, 1, y);
  }

  lemma ShiftedSign(m: int, p: int)
    requires m > 0 && p > 0
    ensures m * p > 0 && (-m) * p == -(m * p)
  {
    MulMono(m, 1, p);
  }

  lemma NegatedFloor(m: nat, d: nat)
    requires d > 0
    ensures -(m as int) / d == -(m / d) - (if m % d != 0 then 1 else 0)
  {
    var q, r := m / d, m % d;
    if r == 0 {
      DivModUnique(-(m as int), d, -q, 0);
    } else {
      MulDistrib(d, -q, -1);
      DivModUnique(-(m as int), d, -q - 1, d - r);
    }
  }

  lemma SmallQuotient(m: nat, d: nat)
    requires d > 0 && m > 0 && m / d == 0
    ensures m % d != 0
  {
  }

  /** Whether any 1-bits of `m` are shifted off the end; the block width is spelled as 64 here. */
  method OnesLost(m: BigUnsigned, b: nat) returns (onesLost: bool)
    requires N == 64 && m.Valid()
    ensures onesLost <==> m.Value() % Pow2(b) != 0
  {
    var nULong, nBits := b / 64, b % 64;
    ghost var s := m.blk[..m.len];
    onesLost := false;
    var i := 0;
    assert Val([]) == 0;
    hide *;
    while i < nULong && !onesLost
      invariant i <= nULong
      invariant onesLost ==> i > 0 && LowBlocks(s, i) != 0
      invariant !onesLost ==> LowBlocks(s, i) == 0
    {
      LowBlocksNext(s, i);
      var block := if i < m.len then m.blk[i] else 0;
      onesLost := block != 0;
      i := i + 1;
    }
    LowBlocksMono(s, i, nULong);
    var block: Blk := if nULong < m.len then m.blk[nULong] else 0;
    if !onesLost && nBits != 0 {
      onesLost := (block * Pow2(64 - nBits)) % B != 0;
    }
    LostBits(s, nULong, nBits, block);
  }

  /** The value of the lowest `i` blocks, reading 0 beyond the length. */
  ghost function LowBlocks(s: seq<Blk>, i: nat): nat {
    Val(if i <= |s| then s[..i] else s)
  }

  lemma LowBlocksNext(s: seq<Blk>, i: nat)
    ensures LowBlocks(s, 0) == 0
    ensures LowBlocks(s, i + 1) >= LowBlocks(s, i)
    ensures LowBlocks(s, i + 1) != 0 <==> LowBlocks(s, i) != 0 || (i < |s| && s[i] != 0)
  {
    if i < |s| {
      ValTake(s, i);
      MulMono(BPow(i), 0, s[i]);
      if s[i] != 0 { MulMono(BPow(i), 1, s[i]); }
    } else {
      assert s[..|s|] == s;
    }
  }

  lemma {:induction false} LowBlocksMono(s: seq<Blk>, i: nat, k: nat)
    requires i <= k
    ensures LowBlocks(s, i) <= LowBlocks(s, k) && LowBlocks(s, 0) == 0
    decreases k - i
  {
    if i == k {
    } else {
      LowBlocksNext(s, i);
      LowBlocksMono(s, i + 1, k);
    }
  }

  lemma LowBlocksValue(s: seq<Blk>, k: nat)
    ensures Val(s) % BPow(k) == LowBlocks(s, k)
    ensures k < |s| ==> Val(s) / BPow(k) == s[k] + B * Val(s[k + 1..])
    ensures k >= |s| ==> Val(s) / BPow(k) == 0
  {
    hide Val, BPow;
    if k < |s| {
      ValDivMod(s, k);
      ValCons(s, k);
    } else {
      ValBound(s);
      BPowMono(|s|, k);
      SmallMod(Val(s), BPow(k));
      assert s[..|s|] == s;
    }
  }

  lemma LostBits(s: seq<Blk>, k: nat, j: nat, block: Blk)
    requires j < N && block == (if k < |s| then s[k] else 0)
    ensures Val(s) % Pow2(N * k + j) != 0 <==>
            LowBlocks(s, k) != 0 || (j != 0 && (block * Pow2(N - j)) % B != 0)
  {
    var high := if k < |s| then Val(s[k + 1..]) else 0;
    LowBlocksValue(s, k);
    BPowIsPow2(k);
    Pow2Add(N * k, j);
    LowBitsOfBlock(block, high, j);
    if k >= |s| { SmallMod(0, Pow2(j)); }
    hide *;
    LostBitsInts(Val(s), BPow(k), Pow2(j), (block + B * high) % Pow2(j));
  }

  lemma LowBitsOfBlock(x: Blk, high: nat, j: nat)
    requires j < N
    ensures (x + B * high) % Pow2(j) == x % Pow2(j)
    ensures x % Pow2(j) != 0 <==> j != 0 && (x * Pow2(N - j)) % B != 0
  {
    Pow2Add(j, N - j);
    assert j == 0 ==> x % Pow2(j) == 0;
    if j > 0 { ShiftLeftWithinBlock(x, N - j); }
    hide Pow2;
    var d, e := Pow2(j), Pow2(N - j);
    assert B * high == (e * high) * d by { MulRotate(d, e, high); }
    ModSelfMultiple(x, e * high, d);
    if j > 0 && x % d != 0 { MulMono(e, 1, x % d); }
  }

  lemma LostBitsInts(v: nat, p: nat, e: nat, low: nat)
    requires p > 0 && e > 0 && v / p % e == low
    ensures p * e > 0
    ensures v % (p * e) != 0 <==> v % p != 0 || low != 0
  {
    DivDiv(v, p, e);
    if low != 0 { MulMono(p, 1, low); }
  }
}
