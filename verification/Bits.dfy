/** Bitwise operators of unsigned machine words, and their meaning as arithmetic. */
module Bits {
  import opened Powers

  function Bit(x: nat, i: nat): bool {
    x / Pow2(i) % 2 == 1
  }

  /** The low `k` bits of `x`. */
  function Low(x: nat, k: nat): (r: nat)
    ensures r < Pow2(k)
  {
    x % Pow2(k)
  }

  /** `x >> i`. */
  function Shr(x: nat, i: nat): nat {
    DivNonneg(x, Pow2(i));
    x / Pow2(i)
  }

  lemma ShrNext(x: nat, i: nat)
    ensures Shr(x, i) == 2 * Shr(x, i + 1) + (if Bit(x, i) then 1 else 0)
  {
    DivDiv(x, Pow2(i), 2);
  }

  function Or(x: nat, y: nat): nat {
    if x == 0 && y == 0 then 0
    else (if x % 2 == 1 || y % 2 == 1 then 1 else 0) + 2 * Or(x / 2, y / 2)
  }

  function And(x: nat, y: nat): nat {
    if x == 0 || y == 0 then 0
    else (if x % 2 == 1 && y % 2 == 1 then 1 else 0) + 2 * And(x / 2, y / 2)
  }

  function Xor(x: nat, y: nat): nat {
    if x == 0 && y == 0 then 0
    else (if x % 2 == y % 2 then 0 else 1) + 2 * Xor(x / 2, y / 2)
  }

  /** `|` of a low part and a part with `k` zero bits below it is their sum. */
  lemma {:induction false} OrDisjoint(low: nat, high: nat, k: nat)
    requires low < Pow2(k)
    ensures Or(low, high * Pow2(k)) == low + high * Pow2(k)
    ensures Or(high * Pow2(k), low) == low + high * Pow2(k)
  {
    if k == 0 {
      OrZero(high);
    } else {
      var h := high * Pow2(k - 1);
      assert high * Pow2(k) == 2 * h;
      OrDisjoint(low / 2, high, k - 1);
    }
  }

  lemma {:induction false} OrZero(x: nat)
    ensures Or(0, x) == x && Or(x, 0) == x
  {
    if x == 0 {
    } else {
      OrZero(x / 2);
    }
  }

  lemma {:induction false} OrComm(x: nat, y: nat)
    ensures Or(x, y) == Or(y, x)
  {
    if x == 0 && y == 0 {
    } else {
      OrComm(x / 2, y / 2);
    }
  }

  /** `x & (2^k - 1)` keeps the low `k` bits. */
  lemma {:induction false} AndMask(x: nat, k: nat)
    ensures And(x, Pow2(k) - 1) == x % Pow2(k)
  {
    if k == 0 {
    } else {
      var p := Pow2(k - 1);
      AndMask(x / 2, k - 1);
      DivDiv(x, 2, p);
      assert (Pow2(k) - 1) / 2 == p - 1 && (Pow2(k) - 1) % 2 == 1;
      if x == 0 { SmallMod(0, Pow2(k)); }
    }
  }

  /** A mask below 2^k sees only the low `k` bits. */
  lemma {:induction false} AndLow(x: nat, mask: nat, k: nat)
    requires mask < Pow2(k)
    ensures And(x, mask) == And(Low(x, k), mask)
  {
    if k == 0 {
    } else {
      AndLow(x / 2, mask / 2, k - 1);
      LowNext(x, k - 1);
      BitwiseBuild(x / 2, mask / 2, x % 2, mask % 2);
      BitwiseBuild(Low(x / 2, k - 1), mask / 2, x % 2, mask % 2);
    }
  }

  /** `x & (1 << k)` is nonzero exactly when bit `k` of `x` is set. */
  lemma {:induction false} AndBit(x: nat, k: nat)
    ensures And(x, Pow2(k)) == if Bit(x, k) then Pow2(k) else 0
  {
    if k == 0 {
      assert Pow2(0) == 1;
      assert x / 1 == x;
      if x != 0 { assert And(x / 2, 0) == 0; }
    } else {
      AndBit(x / 2, k - 1);
      DivDiv(x, 2, Pow2(k - 1));
      if x == 0 { SmallMod(0, Pow2(k)); }
    }
  }

  /** Bit `k` of `x` is what separates `x % 2^(k+1)` from `x % 2^k`. */
  lemma ModNextBit(x: nat, k: nat)
    ensures x % Pow2(k + 1) == x % Pow2(k) + (if Bit(x, k) then Pow2(k) else 0)
  {
    DivDiv(x, Pow2(k), 2);
  }

  // ---- Shifts and low bits ----

  lemma ShrShr(x: nat, a: nat, b: nat)
    ensures Shr(Shr(x, a), b) == Shr(x, a + b)
  {
    Pow2Add(a, b);
    DivDiv(x, Pow2(a), Pow2(b));
  }

  lemma ShrSmall(x: nat, k: nat)
    ensures Shr(x, k) == 0 <==> x < Pow2(k)
  {
    if x < Pow2(k) { SmallMod(x, Pow2(k)); }
    if x / Pow2(k) == 0 { assert x == x % Pow2(k); }
  }

  lemma ShrLow(x: nat, a: nat, b: nat)
    ensures Shr(Low(x, a + b), a) == Low(Shr(x, a), b)
    ensures Low(Low(x, a + b), a) == Low(x, a)
  {
    var d, e := Pow2(a), Pow2(b);
    Pow2Add(a, b);
    DivDiv(x, d, e);
    hide Pow2;
    DivModUnique(x % (d * e), d, x / d % e, x % d);
  }

  /** A number is its high part and its low part. */
  lemma SplitAt(x: nat, k: nat)
    ensures x == Shr(x, k) * Pow2(k) + Low(x, k)
  {
    DivModIdentity(x, Pow2(k));
  }

  lemma JoinParts(high: nat, low: nat, k: nat)
    requires low < Pow2(k)
    ensures Or(high * Pow2(k), low) == high * Pow2(k) + low
    ensures Shr(high * Pow2(k) + low, k) == high && Low(high * Pow2(k) + low, k) == low
  {
    OrDisjoint(low, high, k);
    DivModUnique(high * Pow2(k) + low, Pow2(k), high, low);
  }

  /** `~(2^k - 1)` in a word of `w` bits. */
  function HighMask(w: nat, k: nat): nat
    requires k <= w
  {
    Pow2Mono(k, w);
    Pow2(w) - Pow2(k)
  }

  /** `x & ~(2^k - 1)` clears the low `k` bits. */
  lemma {:induction false} AndHighMask(x: nat, k: nat, w: nat)
    requires k <= w && x < Pow2(w)
    ensures And(x, HighMask(w, k)) == Shr(x, k) * Pow2(k)
  {
    hide And, Pow2, Shr, HighMask;
    if k == 0 {
      AndFullMask(x, w);
    } else {
      var h := HalfBelow(x, w);
      HighMaskHalves(w - 1, k - 1);
      Pow2Next(k - 1);
      AndHighMask(h, k - 1, w - 1);
      ShrHalf(x, k);
      AndEven(x, HighMask(w - 1, k - 1));
      MulSwapTwo(Shr(x, k), Pow2(k - 1));
    }
  }

  lemma AndFullMask(x: nat, w: nat)
    requires x < Pow2(w)
    ensures And(x, HighMask(w, 0)) == Shr(x, 0) * Pow2(0)
  {
    AndMask(x, w);
    SmallMod(x, Pow2(w));
  }

  lemma HalfBelow(x: nat, w: nat) returns (h: nat)
    requires w > 0 && x < Pow2(w)
    ensures h == x / 2 < Pow2(w - 1)
  {
    h := x / 2;
  }

  lemma ShrHalf(x: nat, k: nat)
    requires k > 0
    ensures Shr(x, k) == Shr(x / 2, k - 1)
  {
    hide Shr;
    ShrShr(x, 1, k - 1);
    HalfIsShr(x);
  }

  lemma HighMaskHalves(w: nat, k: nat)
    requires k <= w
    ensures HighMask(w + 1, k + 1) == 2 * HighMask(w, k)
  {
  }

  lemma HalfIsShr(x: nat)
    ensures Shr(x, 1) == x / 2
  {
    SmallPowers();
  }

  lemma AndEven(x: nat, m: nat)
    ensures And(x, 2 * m) == 2 * And(x / 2, m)
  {
  }

  // ---- Bit by bit ----

  lemma BitHalf(x: nat, i: nat)
    ensures Bit(x, i + 1) <==> Bit(x / 2, i)
  {
    DivDiv(x, 2, Pow2(i));
  }

  lemma LowestBit(x: nat)
    ensures Bit(x, 0) <==> x % 2 == 1
  {
    assert Pow2(0) == 1;
  }

  /** The three operators are what their names say of every bit. */
  lemma {:induction false} BitwiseBits(x: nat, y: nat, i: nat)
    ensures Bit(And(x, y), i) <==> Bit(x, i) && Bit(y, i)
    ensures Bit(Or(x, y), i) <==> Bit(x, i) || Bit(y, i)
    ensures Bit(Xor(x, y), i) <==> Bit(x, i) != Bit(y, i)
  {
    hide Bit;
    HalvesOf(x, y);
    if i == 0 {
      LowestBit(x);
      LowestBit(y);
      LowestBit(And(x, y));
      LowestBit(Or(x, y));
      LowestBit(Xor(x, y));
    } else {
      BitwiseBits(x / 2, y / 2, i - 1);
      BitHalf(x, i - 1);
      BitHalf(y, i - 1);
      BitHalf(And(x, y), i - 1);
      BitHalf(Or(x, y), i - 1);
      BitHalf(Xor(x, y), i - 1);
    }
  }

  lemma HalvesOf(x: nat, y: nat)
    ensures And(x, y) / 2 == And(x / 2, y / 2) && (And(x, y) % 2 == 1 <==> x % 2 == 1 && y % 2 == 1)
    ensures Or(x, y) / 2 == Or(x / 2, y / 2) && (Or(x, y) % 2 == 1 <==> x % 2 == 1 || y % 2 == 1)
    ensures Xor(x, y) / 2 == Xor(x / 2, y / 2) && (Xor(x, y) % 2 == 1 <==> x % 2 != y % 2)
  {
    assert And(0, y / 2) == And(x / 2, 0) == 0;
  }

  lemma BitOfShr(x: nat, k: nat, i: nat)
    ensures Bit(Shr(x, k), i) <==> Bit(x, i + k)
  {
    DivDiv(x, Pow2(k), Pow2(i));
    Pow2Add(k, i);
  }

  lemma BitOfLow(x: nat, k: nat, i: nat)
    ensures Bit(Low(x, k), i) <==> i < k && Bit(x, i)
  {
    hide Pow2;
    if i < k {
      Pow2Add(i, k - i);
      Pow2Next(k - i - 1);
      LowKeepsBit(x, Pow2(i), Pow2(k - i - 1));
    } else {
      Pow2Mono(k, i);
      SmallMod(x % Pow2(k), Pow2(i));
    }
  }

  lemma LowKeepsBit(x: nat, d: nat, h: nat)
    requires d > 0 && h > 0
    ensures d * (2 * h) > 0 && (x % (d * (2 * h))) / d % 2 == x / d % 2
  {
    var m := d * (2 * h);
    MulMono(d, 1, 2 * h);
    var q, r := x / m, x % m;
    DivModIdentity(x, m);
    assert m * q == (2 * (h * q)) * d by { MulAssoc(d, 2 * h, q); MulAssoc(2, h, q); }
    ModSelfMultiple(r, 2 * (h * q), d);
    DivModIdentity(r / d, 2);
    DivModUnique(r / d + 2 * (h * q), 2, (r / d) / 2 + h * q, (r / d) % 2);
  }

  // ---- Exclusive or ----

  lemma {:induction false} XorZero(x: nat)
    ensures Xor(x, 0) == x && Xor(0, x) == x && Xor(x, x) == 0
  {
    if x == 0 {
    } else {
      XorZero(x / 2);
    }
  }

  lemma {:induction false} XorComm(x: nat, y: nat)
    ensures Xor(x, y) == Xor(y, x)
  {
    if x == 0 && y == 0 {
    } else {
      XorComm(x / 2, y / 2);
    }
  }

  lemma XorHalf(x: nat, y: nat)
    ensures Xor(x, y) / 2 == Xor(x / 2, y / 2)
    ensures Xor(x, y) % 2 == if x % 2 == y % 2 then 0 else 1
  {
  }

  lemma {:induction false} XorAssoc(x: nat, y: nat, z: nat)
    ensures Xor(Xor(x, y), z) == Xor(x, Xor(y, z))
    decreases x + y + z
  {
    if x == 0 && y == 0 && z == 0 {
    } else {
      XorAssoc(x / 2, y / 2, z / 2);
      XorHalf(x, y);
      XorHalf(y, z);
      XorHalf(Xor(x, y), z);
      XorHalf(x, Xor(y, z));
    }
  }

  /** Applying the same mask twice restores the number. */
  lemma XorCancel(x: nat, y: nat)
    ensures Xor(Xor(x, y), y) == x
  {
    XorAssoc(x, y, y);
    XorZero(y);
    XorZero(x);
  }

  lemma {:induction false} XorShr(x: nat, y: nat, k: nat)
    ensures Shr(Xor(x, y), k) == Xor(Shr(x, k), Shr(y, k))
  {
    if k == 0 {
    } else {
      XorShr(x / 2, y / 2, k - 1);
      XorHalf(x, y);
      HalfIsShr(x);
      HalfIsShr(y);
      HalfIsShr(Xor(x, y));
      ShrShr(x, 1, k - 1);
      ShrShr(y, 1, k - 1);
      ShrShr(Xor(x, y), 1, k - 1);
    }
  }

  lemma {:induction false} XorLow(x: nat, y: nat, k: nat)
    ensures Low(Xor(x, y), k) == Xor(Low(x, k), Low(y, k))
  {
    hide Xor, Low;
    if k == 0 {
      LowZero(x);
      LowZero(y);
      LowZero(Xor(x, y));
      XorZero(0);
    } else {
      XorLow(x / 2, y / 2, k - 1);
      XorHalf(x, y);
      LowNext(x, k - 1);
      LowNext(y, k - 1);
      LowNext(Xor(x, y), k - 1);
      XorBuild(Low(x / 2, k - 1), Low(y / 2, k - 1), x % 2, y % 2);
    }
  }

  lemma LowZero(x: nat)
    ensures Low(x, 0) == 0
  {
  }

  lemma LowNext(x: nat, k: nat)
    ensures Low(x, k + 1) == 2 * Low(x / 2, k) + x % 2
  {
    DivDiv(x, 2, Pow2(k));
  }

  lemma XorBuild(a: nat, b: nat, i: nat, j: nat)
    requires i < 2 && j < 2
    ensures Xor(2 * a + i, 2 * b + j) == 2 * Xor(a, b) + (if i == j then 0 else 1)
  {
    XorHalf(2 * a + i, 2 * b + j);
  }

  lemma XorBound(x: nat, y: nat, k: nat)
    requires x < Pow2(k) && y < Pow2(k)
    ensures Xor(x, y) < Pow2(k)
  {
    XorShr(x, y, k);
    ShrSmall(x, k);
    ShrSmall(y, k);
    ShrSmall(Xor(x, y), k);
  }

  // ---- Bitwise operations by parts ----

  lemma BitwiseBuild(a: nat, b: nat, i: nat, j: nat)
    requires i < 2 && j < 2
    ensures Or(2 * a + i, 2 * b + j) == 2 * Or(a, b) + (if i + j > 0 then 1 else 0)
    ensures And(2 * a + i, 2 * b + j) == 2 * And(a, b) + (if i + j > 1 then 1 else 0)
  {
    DivModUnique(2 * a + i, 2, a, i);
    DivModUnique(2 * b + j, 2, b, j);
  }

  /** Both operations work on the low `e` bits and on the rest separately. */
  lemma {:induction false} BitwiseParts(x0: nat, x1: nat, y0: nat, y1: nat, e: nat)
    requires x0 < Pow2(e) && y0 < Pow2(e)
    ensures Or(x0 + x1 * Pow2(e), y0 + y1 * Pow2(e)) == Or(x0, y0) + Or(x1, y1) * Pow2(e)
    ensures And(x0 + x1 * Pow2(e), y0 + y1 * Pow2(e)) == And(x0, y0) + And(x1, y1) * Pow2(e)
  {
    hide *;
    if e == 0 {
      NoLowBits();
    } else {
      var h, i := HalfAndBit(x0, e);
      var g, j := HalfAndBit(y0, e);
      var p := Pow2(e - 1);
      BitwiseParts(h, x1, g, y1, e - 1);
      BitwiseBuild(h, g, i, j);
      BitwiseBuild(h + x1 * p, g + y1 * p, i, j);
      Pow2Next(e - 1);
      MulSwapTwo(x1, p);
      MulSwapTwo(y1, p);
      MulSwapTwo(Or(x1, y1), p);
      MulSwapTwo(And(x1, y1), p);
    }
  }

  lemma {:induction false} BitwiseBound(x: nat, y: nat, e: nat)
    requires x < Pow2(e) && y < Pow2(e)
    ensures Or(x, y) < Pow2(e) && And(x, y) < Pow2(e)
  {
    hide *;
    if e == 0 {
      NoLowBits();
    } else {
      var h, i := HalfAndBit(x, e);
      var g, j := HalfAndBit(y, e);
      BitwiseBound(h, g, e - 1);
      BitwiseBuild(h, g, i, j);
      Pow2Next(e - 1);
    }
  }

  lemma {:induction false} OrOnes(x: nat, e: nat)
    requires x < Pow2(e)
    ensures Or(x, Pow2(e) - 1) == Pow2(e) - 1
  {
    hide *;
    if e == 0 {
      NoLowBits();
    } else {
      var h, i := HalfAndBit(x, e);
      OrOnes(h, e - 1);
      Pow2Next(e - 1);
      BitwiseBuild(h, Pow2(e - 1) - 1, i, 1);
    }
  }

  lemma NoLowBits()
    ensures Pow2(0) == 1 && Or(0, 0) == 0 && And(0, 0) == 0
  {
  }

  lemma HalfAndBit(x: nat, e: nat) returns (h: nat, i: nat)
    requires e > 0 && x < Pow2(e)
    ensures x == 2 * h + i && i < 2 && h < Pow2(e - 1)
  {
    h, i := x / 2, x % 2;
  }
}
