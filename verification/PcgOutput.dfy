/** base/pcg-random: inverting xorshifts, and the RXS M XS output permutation. */
module PcgOutput {
  import opened Powers
  import opened Bits

  function XorShift(x: nat, shift: nat): nat {
    Xor(x, Shr(x, shift))
  }

  /** Backs out an xorshift of a `bits`-bit number held in a word of `w` bits. */
  function Unxorshift(x: nat, bits: nat, shift: nat, w: nat): nat
    requires shift >= 1 && bits <= w
    decreases bits
  {
    if 2 * shift >= bits then Xor(x, Shr(x, shift))
    else
      var lowmask1 := Pow2(bits - shift * 2) - 1;
      var highmask1 := HighMask(w, bits - shift * 2);
      var top1 := And(Xor(x, Shr(x, shift)), highmask1);
      var bottom1 := And(x, lowmask1);
      var x' := Or(top1, bottom1);
      var lowmask2 := Pow2(bits - shift) - 1;
      var bottom2 := Unxorshift(And(x', lowmask2), bits - shift, shift, w);
      Or(top1, And(bottom2, lowmask1))
  }

  /** Shifting twice by s and mixing cancels the s-shift and leaves a 2s-shift. */
  lemma DoubleXorShift(y: nat, s: nat)
    ensures XorShift(XorShift(y, s), s) == Xor(y, Shr(y, 2 * s))
  {
    hide Xor, Shr;
    var a, b := Shr(y, s), Shr(y, 2 * s);
    XorShr(y, a, s);
    ShrShr(y, s, s);
    XorComm(a, b);
    XorAssoc(Xor(y, a), b, a);
    XorAssoc(y, a, b);
    XorComm(a, b);
    XorAssoc(y, b, a);
    XorCancel(Xor(y, b), a);
  }

  /** The bits above bits - 2s of the double shift are those of y. */
  lemma TopPart(y: nat, bits: nat, s: nat)
    requires y < Pow2(bits) && 2 * s < bits
    ensures Shr(Xor(y, Shr(y, 2 * s)), bits - 2 * s) == Shr(y, bits - 2 * s)
  {
    hide Xor, Shr;
    var k := bits - 2 * s;
    XorShr(y, Shr(y, 2 * s), k);
    ShrShr(y, 2 * s, k);
    ShrSmall(y, bits);
    XorZero(Shr(y, k));
  }

  /** The xorshift of the low bits - s bits: its high s bits are plain, the rest are those of x. */
  lemma BottomPart(y: nat, bits: nat, s: nat)
    requires y < Pow2(bits) && s >= 1 && 2 * s < bits
    ensures var k, low := bits - 2 * s, Low(y, bits - s);
            && Shr(XorShift(low, s), k) == Low(Shr(y, k), s)
            && Low(XorShift(low, s), k) == Low(XorShift(y, s), k)
  {
    hide Xor, Shr, Low, Pow2;
    var k, low := bits - 2 * s, Low(y, bits - s);
    ShrLow(y, k, s);
    XorShr(low, Shr(low, s), k);
    ShrShr(low, s, k);
    ShrSmall(low, bits - s);
    XorZero(Shr(low, k));
    ShrLow(y, s, k);
    XorLow(low, Shr(low, s), k);
    XorLow(y, Shr(y, s), k);
    LowLow(Shr(y, s), k);
  }

  lemma LowLow(x: nat, k: nat)
    ensures Low(Low(x, k), k) == Low(x, k)
  {
    SmallMod(x % Pow2(k), Pow2(k));
  }

  lemma SameParts(u: nat, v: nat, k: nat)
    requires Shr(u, k) == Shr(v, k) && Low(u, k) == Low(v, k)
    ensures u == v
  {
    hide Shr, Low;
    SplitAt(u, k);
    SplitAt(v, k);
  }

  lemma XorShiftBound(y: nat, s: nat, w: nat)
    requires y < Pow2(w)
    ensures XorShift(y, s) < Pow2(w)
  {
    hide Xor;
    DivNonneg(y, Pow2(s));
    ShrAtMost(y, s);
    XorBound(y, Shr(y, s), w);
  }

  lemma ShrAtMost(y: nat, s: nat)
    ensures Shr(y, s) <= y
  {
    MulMono(Shr(y, s), 1, Pow2(s));
    DivModIdentity(y, Pow2(s));
  }

  /** Every xorshift is undone, for every width and every positive shift. */
  lemma {:induction false} UnxorshiftInverts(y: nat, bits: nat, s: nat, w: nat)
    requires s >= 1 && bits <= w && y < Pow2(bits)
    ensures Unxorshift(XorShift(y, s), bits, s, w) == y
    decreases bits
  {
    var x := XorShift(y, s);
    if 2 * s >= bits {
      hide Xor, Shr, Pow2;
      DoubleXorShift(y, s);
      Pow2Mono(bits, 2 * s);
      ShrSmall(y, 2 * s);
      XorZero(y);
    } else {
      var k := bits - 2 * s;
      UnfoldUnxorshift(y, bits, s, w);
      hide Xor, Shr, Pow2, Low, Unxorshift, XorShift;
      UnxorshiftInverts(Low(y, bits - s), bits - s, s, w);
      ShrLow(y, k, s);
      SplitAt(y, k);
    }
  }

  /** What the recursive case computes, in terms of the original number. */
  lemma UnfoldUnxorshift(y: nat, bits: nat, s: nat, w: nat)
    requires s >= 1 && bits <= w && y < Pow2(bits) && 2 * s < bits
    ensures var k := bits - 2 * s;
            Unxorshift(XorShift(y, s), bits, s, w) ==
            Shr(y, k) * Pow2(k) + Low(Unxorshift(XorShift(Low(y, bits - s), s), bits - s, s, w), k)
  {
    hide Xor, Shr, And, Or, Pow2, Low, HighMask;
    var k, x, low := bits - 2 * s, XorShift(y, s), Low(y, bits - s);
    TopMasked(y, bits, s, w);
    LowMasked(x, k);
    JoinParts(Shr(y, k), Low(x, k), k);
    var x' := Shr(y, k) * Pow2(k) + Low(x, k);
    LowMasked(x', bits - s);
    BottomMatches(y, bits, s, x');
    var b := Unxorshift(XorShift(low, s), bits - s, s, w);
    LowMasked(b, k);
    JoinParts(Shr(y, k), Low(b, k), k);
  }

  lemma TopMasked(y: nat, bits: nat, s: nat, w: nat)
    requires bits <= w && y < Pow2(bits) && 2 * s < bits
    ensures var k := bits - 2 * s;
            And(XorShift(XorShift(y, s), s), HighMask(w, k)) == Shr(y, k) * Pow2(k)
  {
    hide Xor, Shr, Pow2, And, HighMask, XorShift;
    var k, x := bits - 2 * s, XorShift(y, s);
    Pow2Mono(bits, w);
    XorShiftBound(y, s, w);
    XorShiftBound(x, s, w);
    DoubleXorShift(y, s);
    TopPart(y, bits, s);
    AndHighMask(XorShift(x, s), k, w);
  }

  lemma LowMasked(x: nat, k: nat)
    ensures And(x, Pow2(k) - 1) == Low(x, k)
  {
    AndMask(x, k);
  }

  lemma BottomMatches(y: nat, bits: nat, s: nat, x: nat)
    requires s >= 1 && y < Pow2(bits) && 2 * s < bits
    requires Shr(x, bits - 2 * s) == Shr(y, bits - 2 * s) && Low(x, bits - 2 * s) == Low(XorShift(y, s), bits - 2 * s)
    ensures Low(x, bits - s) == XorShift(Low(y, bits - s), s)
  {
    hide Xor, Shr, Low, Pow2, XorShift;
    var k := bits - 2 * s;
    ShrLow(x, k, s);
    BottomPart(y, bits, s);
    SameParts(Low(x, bits - s), XorShift(Low(y, bits - s), s), k);
  }

  /** Every number is the xorshift of another: shifting by s twice is shifting by 2s, and far shifts do nothing. */
  lemma {:induction false} XorShiftOnto(x: nat, s: nat, w: nat) returns (y: nat)
    requires s >= 1 && x < Pow2(w)
    ensures y < Pow2(w) && XorShift(y, s) == x
    decreases if s < w then w - s else 0
  {
    hide Xor, Shr, Pow2;
    if s >= w {
      y := x;
      Pow2Mono(w, s);
      ShrSmall(x, s);
      XorZero(x);
    } else {
      var z := XorShiftOnto(x, 2 * s, w);
      y := XorShift(z, s);
      XorShiftBound(z, s, w);
      DoubleXorShift(z, s);
    }
  }

  /** So unxorshift is its inverse on both sides. */
  lemma UnxorshiftIsRightInverse(x: nat, s: nat, w: nat)
    requires s >= 1 && x < Pow2(w)
    ensures Unxorshift(x, w, s, w) < Pow2(w) && XorShift(Unxorshift(x, w, s, w), s) == x
  {
    hide *;
    var y := XorShiftOnto(x, s, w);
    UnxorshiftInverts(y, w, s, w);
  }

  // ---- RXS M XS ----

  /** How many top bits choose the random shift. */
  function OpBits(bits: nat): (r: nat)
    ensures 2 <= r <= 6
  {
    if bits >= 128 then 6 else if bits >= 64 then 5 else if bits >= 32 then 4 else if bits >= 16 then 3 else 2
  }

  /** The shift amount taken from the top bits. */
  function RandomShift(x: nat, w: nat): nat
    requires w >= OpBits(w)
  {
    And(Shr(x, w - OpBits(w)), Pow2(OpBits(w)) - 1)
  }

  /** The output function when state and result have the same width `w`. */
  function Output(state: nat, w: nat, multiplier: nat): nat
    requires w >= OpBits(w)
  {
    var mixed := XorShift(state, OpBits(w) + RandomShift(state, w));
    var product := (mixed * multiplier) % Pow2(w);
    XorShift(product, (2 * w + 2) / 3)
  }

  function Unoutput(output: nat, w: nat, unmultiplier: nat): nat
    requires w >= OpBits(w)
  {
    var product := Unxorshift(output, w, (2 * w + 2) / 3, w);
    var mixed := (product * unmultiplier) % Pow2(w);
    Unxorshift(mixed, w, OpBits(w) + RandomShift(mixed, w), w)
  }

  /** The mixing keeps the top bits, so the shift can be read back. */
  lemma ShiftSurvives(x: nat, w: nat, s: nat)
    requires w >= OpBits(w) && x < Pow2(w) && s >= OpBits(w)
    ensures RandomShift(XorShift(x, s), w) == RandomShift(x, w)
  {
    hide Xor, Shr, And, Pow2;
    var k := w - OpBits(w);
    XorShr(x, Shr(x, s), k);
    ShrShr(x, s, k);
    Pow2Mono(w, s + k);
    ShrSmall(x, s + k);
    XorZero(Shr(x, k));
  }

  /** Multiplying by the inverse undoes the multiplication. */
  lemma Unmultiply(x: nat, m: nat, mul: nat, unmul: nat)
    requires x < m && (mul * unmul) % m == 1 % m
    ensures ((x * mul) % m * unmul) % m == x
  {
    ModMul(x * mul, unmul, m);
    MulAssoc(x, mul, unmul);
    ModProduct(x, x, mul * unmul, 1, m);
    SmallMod(x, m);
  }

  /** The output function is a permutation: every state is recovered from its output. */
  lemma UnoutputInverts(state: nat, w: nat, mul: nat, unmul: nat)
    requires w >= OpBits(w) && state < Pow2(w) && (mul * unmul) % Pow2(w) == 1 % Pow2(w)
    ensures Unoutput(Output(state, w, mul), w, unmul) == state
  {
    hide Xor, Shr, And, Pow2, XorShift, Unxorshift, RandomShift, OpBits;
    var s := OpBits(w) + RandomShift(state, w);
    var mixed := XorShift(state, s);
    XorShiftBound(state, s, w);
    var product := (mixed * mul) % Pow2(w);
    UnxorshiftInverts(product, w, (2 * w + 2) / 3, w);
    Unmultiply(mixed, Pow2(w), mul, unmul);
    ShiftSurvives(state, w, s);
    UnxorshiftInverts(state, w, s, w);
  }

  /** And every output comes from a state: the two functions are inverse on both sides. */
  lemma OutputInverts(output: nat, w: nat, mul: nat, unmul: nat)
    requires w >= OpBits(w) && output < Pow2(w) && (mul * unmul) % Pow2(w) == 1 % Pow2(w)
    ensures Unoutput(output, w, unmul) < Pow2(w) && Output(Unoutput(output, w, unmul), w, mul) == output
  {
    hide Xor, Shr, And, Pow2, XorShift, Unxorshift, RandomShift, OpBits;
    var c := (2 * w + 2) / 3;
    UnxorshiftIsRightInverse(output, c, w);
    var product := Unxorshift(output, w, c, w);
    var mixed := (product * unmul) % Pow2(w);
    assert (unmul * mul) % Pow2(w) == 1 % Pow2(w);
    Unmultiply(product, Pow2(w), unmul, mul);
    var s := OpBits(w) + RandomShift(mixed, w);
    UnxorshiftIsRightInverse(mixed, s, w);
    ShiftSurvives(Unxorshift(mixed, w, s, w), w, s);
  }

  function McgMultiplier(w: nat): nat
    requires IsWordWidth(w)
  {
    if w == 8 then 217
    else if w == 16 then 62169
    else if w == 32 then 277803737
    else if w == 64 then 12605985483714917081
    else 17766728186571221404 * 0x1_0000_0000_0000_0000 + 12605985483714917081
  }

  function McgUnmultiplier(w: nat): nat
    requires IsWordWidth(w)
  {
    if w == 8 then 105
    else if w == 16 then 28009
    else if w == 32 then 2897767785
    else if w == 64 then 15009553638781119849
    else 14422606686972528997 * 0x1_0000_0000_0000_0000 + 15009553638781119849
  }

  /** The published constants are inverse to each other at every width. */
  lemma MultipliersInverse(w: nat)
    requires IsWordWidth(w)
    ensures (McgMultiplier(w) * McgUnmultiplier(w)) % Pow2(w) == 1 % Pow2(w)
    ensures McgMultiplier(w) < Pow2(w) && McgUnmultiplier(w) < Pow2(w)
  {
    hide Pow2;
    WordSizes();
  }

  /** For every word width of the library, output is a bijection of the words and unoutput its inverse. */
  lemma RxsMXsInverts(state: nat, w: nat)
    requires IsWordWidth(w) && state < Pow2(w)
    ensures w >= OpBits(w)
    ensures Unoutput(Output(state, w, McgMultiplier(w)), w, McgUnmultiplier(w)) == state
    ensures Output(Unoutput(state, w, McgUnmultiplier(w)), w, McgMultiplier(w)) == state
  {
    hide Unoutput, Output, Pow2, McgMultiplier, McgUnmultiplier;
    MultipliersInverse(w);
    UnoutputInverts(state, w, McgMultiplier(w), McgUnmultiplier(w));
    OutputInverts(state, w, McgMultiplier(w), McgUnmultiplier(w));
  }

  // ---- What the output is ----

  /** The number of choosing bits is one less than the number of bits in a bit position. */
  lemma OpBitsIs(w: nat)
    requires IsWordWidth(w)
    ensures Pow2(OpBits(w) + 1) == w
  {
    SmallPowers();
    Pow2Add(3, 3);
    Pow2Add(3, 2);
    Pow2Next(3);
    Pow2Next(6);
  }

  lemma XorShiftBits(x: nat, s: nat, i: nat)
    ensures Bit(XorShift(x, s), i) <==> Bit(x, i) != Bit(x, i + s)
  {
    hide Bit, Xor, Shr;
    BitwiseBits(x, Shr(x, s), i);
    BitOfShr(x, s, i);
  }

  /** The top bits of a state choose the shift. */
  lemma RandomShiftIs(x: nat, w: nat)
    requires w >= OpBits(w) && x < Pow2(w)
    ensures RandomShift(x, w) == x / Pow2(w - OpBits(w)) < Pow2(OpBits(w))
  {
    hide Pow2, And;
    var o := OpBits(w);
    AndMask(Shr(x, w - o), o);
    Pow2Add(w - o, o);
    DivLess(x, Pow2(w - o), Pow2(o));
    SmallMod(Shr(x, w - o), Pow2(o));
  }

  /**
   * The output bit by bit. With 2^(o+1) = w, the top o bits of the state are a number r; every bit of the state is
   * mixed with the one o + r above it, the mixed word is multiplied modulo 2^w, and every bit of the product is mixed
   * with the one (2w + 2) / 3 above it.
   */
  lemma OutputBits(state: nat, w: nat, mul: nat, o: nat) returns (r: nat, mixed: nat, product: nat)
    requires IsWordWidth(w) && state < Pow2(w) && Pow2(o + 1) == w
    ensures w >= OpBits(w) && o <= w && r == state / Pow2(w - o) < Pow2(o) && mixed < Pow2(w)
    ensures product == (mixed * mul) % Pow2(w)
    ensures forall i: nat :: Bit(mixed, i) <==> Bit(state, i) != Bit(state, i + (o + r))
    ensures forall i: nat :: Bit(Output(state, w, mul), i) <==> Bit(product, i) != Bit(product, i + (2 * w + 2) / 3)
  {
    hide Bit, XorShift, Pow2, RandomShift;
    OpBitsIs(w);
    SameExponent(o + 1, OpBits(w) + 1);
    RandomShiftIs(state, w);
    r := RandomShift(state, w);
    mixed := XorShift(state, o + r);
    product := (mixed * mul) % Pow2(w);
    XorShiftBound(state, o + r, w);
    forall i: nat ensures Bit(mixed, i) <==> Bit(state, i) != Bit(state, i + (o + r)) {
      XorShiftBits(state, o + r, i);
    }
    forall i: nat ensures Bit(Output(state, w, mul), i) <==> Bit(product, i) != Bit(product, i + (2 * w + 2) / 3) {
      XorShiftBits(product, (2 * w + 2) / 3, i);
    }
  }

  lemma SameExponent(e: nat, f: nat)
    requires Pow2(e) == Pow2(f)
    ensures e == f
  {
    hide Pow2;
    if e < f { Pow2StrictMono(e, f); } else if f < e { Pow2StrictMono(f, e); }
  }

  /** The lowest bit set: the multiplier itself, its top third mixed in. */
  lemma OutputOfOne(w: nat)
    requires IsWordWidth(w)
    ensures w >= OpBits(w)
    ensures w == 8 ==> Output(1, w, McgMultiplier(w)) == XorShift(217, 6)
    ensures w == 16 ==> Output(1, w, McgMultiplier(w)) == XorShift(62169, 11)
    ensures w == 32 ==> Output(1, w, McgMultiplier(w)) == XorShift(277803737, 22)
    ensures w == 64 ==> Output(1, w, McgMultiplier(w)) == XorShift(12605985483714917081, 43)
    ensures w == 128 ==> Output(1, w, McgMultiplier(w)) == XorShift(0xF69019274D7F699CAEF17502108EF2D9, 86)
  {
    hide Pow2, XorShift, RandomShift;
    WordSizes();
    OneUnmixed(w);
    SmallMod(McgMultiplier(w), Pow2(w));
  }

  lemma OneUnmixed(w: nat)
    requires IsWordWidth(w)
    ensures w >= OpBits(w) && RandomShift(1, w) == 0 && XorShift(1, OpBits(w)) == 1
  {
    hide Pow2, Xor, And;
    var o := OpBits(w);
    Pow2StrictMono(0, w - o);
    Pow2StrictMono(0, o);
    SmallPowers();
    Pow2StrictMono(0, w);
    RandomShiftIs(1, w);
    DivModUnique(1, Pow2(w - o), 0, 1);
    DivModUnique(1, Pow2(o), 0, 1);
    XorZero(1);
  }

  lemma {:induction false} XorDisjoint(low: nat, high: nat, k: nat)
    requires low < Pow2(k)
    ensures Xor(high * Pow2(k), low) == high * Pow2(k) + low
  {
    if k == 0 {
      XorZero(high);
    } else {
      var h := high * Pow2(k - 1);
      assert Pow2(k) == 2 * Pow2(k - 1);
      hide *;
      MulSwapTwo(high, Pow2(k - 1));
      XorDisjoint(low / 2, high, k - 1);
      XorBuild(h, low / 2, 0, low % 2);
    }
  }

  /** The state with only its top bit set, where nothing overlaps. */
  lemma OutputOfTopBit(w: nat, o: nat, t: nat, mul: nat, x: nat, s: nat)
    requires IsWordWidth(w) && o == OpBits(w) && w - 1 == t + o + Pow2(o - 1) && s == (2 * w + 2) / 3
    requires ((Pow2(w - 1) + Pow2(t)) * mul) % Pow2(w) == x * Pow2(w - s)
    ensures w >= o && Pow2(w - 1) < Pow2(w)
    ensures Output(Pow2(w - 1), w, mul) == x * Pow2(w - s) + x * Pow2(w - s) / Pow2(s)
  {
    hide Pow2, XorShift, RandomShift;
    Pow2StrictMono(w - 1, w);
    TopBitMixed(w, o, t);
    LastMix(x, w - s, s);
  }

  lemma TopBitMixed(w: nat, o: nat, t: nat)
    requires w >= o == OpBits(w) && w - 1 == t + o + Pow2(o - 1)
    ensures RandomShift(Pow2(w - 1), w) == Pow2(o - 1)
    ensures XorShift(Pow2(w - 1), o + Pow2(o - 1)) == Pow2(w - 1) + Pow2(t)
  {
    hide Pow2, Xor, RandomShift, OpBits;
    Pow2StrictMono(w - 1, w);
    RandomShiftIs(Pow2(w - 1), w);
    PowerQuotient(w - o, o - 1);
    PowerQuotient(o + Pow2(o - 1), t);
    Pow2StrictMono(t, w - 1);
    XorDisjoint(Pow2(t), 1, w - 1);
  }

  lemma PowerQuotient(e: nat, f: nat)
    ensures Pow2(e + f) / Pow2(e) == Pow2(f)
  {
    hide Pow2;
    Pow2Add(e, f);
    DivModUnique(Pow2(e + f), Pow2(e), Pow2(f), 0);
  }

  lemma LastMix(x: nat, e: nat, s: nat)
    requires x * Pow2(e) < Pow2(e + s)
    ensures XorShift(x * Pow2(e), s) == x * Pow2(e) + x * Pow2(e) / Pow2(s)
  {
    hide Pow2, Xor;
    var product := x * Pow2(e);
    Pow2Add(e, s);
    DivLess(product, Pow2(s), Pow2(e));
    DivNonneg(product, Pow2(s));
    XorDisjoint(product / Pow2(s), x, e);
  }

  lemma ExamplePowers()
    ensures Pow2(1) == 2 && Pow2(2) == 4 && Pow2(3) == 8 && Pow2(4) == 16 && Pow2(5) == 32 && Pow2(6) == 64
    ensures Pow2(7) == 128 && Pow2(10) == 1024 && Pow2(11) == 2048 && Pow2(15) == 32768 && Pow2(19) == 524288
    ensures Pow2(21) == 2097152 && Pow2(22) == 4194304 && Pow2(31) == 2147483648
  {
  }

  lemma ExampleWidePowers()
    ensures Pow2(42) == 4398046511104 && Pow2(43) == 8796093022208 && Pow2(63) == 9223372036854775808
    ensures Pow2(86) == 77371252455336267181195264 && Pow2(89) == 618970019642690137449562112
    ensures Pow2(127) == 170141183460469231731687303715884105728
  {
    hide Pow2;
    ExamplePowers();
    Pow2Add(21, 21);
    Pow2Next(42);
    Pow2Add(42, 21);
    Pow2Add(43, 43);
    Pow2Add(86, 3);
    Pow2Add(86, 21);
    Pow2Add(107, 10);
    Pow2Add(117, 10);
  }

  /** Known outputs at the state with only its top bit set. */
  lemma KnownOutputs()
    ensures Output(0x80, 8, McgMultiplier(8)) == 73
    ensures Output(0x8000, 16, McgMultiplier(16)) == 22795
    ensures Output(0x8000_0000, 32, McgMultiplier(32)) == 382206043
    ensures Output(0x8000_0000_0000_0000, 64, McgMultiplier(64)) == 13532019456529103212
    ensures Output(0x8000_0000_0000_0000_0000_0000_0000_0000, 128, McgMultiplier(128))
            == 175630047628156597948219066230697858760
  {
    hide Pow2, Output;
    WordSizes();
    ExamplePowers();
    ExampleWidePowers();
    OutputOfTopBit(8, 2, 3, 217, 18, 6);
    OutputOfTopBit(16, 3, 8, 62169, 712, 11);
    OutputOfTopBit(32, 4, 19, 277803737, 373248, 22);
    OutputOfTopBit(64, 5, 42, 12605985483714917081, 6452569702400, 43);
    OutputOfTopBit(128, 6, 89, 0xF69019274D7F699CAEF17502108EF2D9, 39933649447483866867564544, 86);
  }
}
