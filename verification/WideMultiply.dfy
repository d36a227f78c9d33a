/** The three multiplications of wide::integer, each exact modulo 2^Bits. */
module WideMultiply {
  import opened Powers
  import opened Bits
  import opened Blocks
  import opened BlockLoops
  import opened WideItems

  // ---- The 256-bit product, in halves of two items ----

  lemma Horner(x0: int, x1: int, x2: int, x3: int, b: int)
    ensures x0 + b * (x1 + b * (x2 + b * (x3 + b * 0))) == (x1 * b + x0) + (x3 * b + x2) * (b * b)
  {
    assert b * (x1 + b * (x2 + b * x3)) == b * x1 + b * (b * (x2 + b * x3)) by {
      MulDistrib(b, x1, b * (x2 + b * x3));
    }
    assert b * (b * (x2 + b * x3)) == (x3 * b + x2) * (b * b) by { MulAssoc(b, b, x2 + b * x3); }
  }

  /** An addition that wraps at `h` shows it in the sum being less than an input. */
  function WrapAdd(x: nat, y: nat, h: nat): (r: (nat, bool))
    requires x < h && y < h
    ensures r.0 < h && r.0 + (if r.1 then h else 0) == x + y
  {
    var sum := if x + y < h then x + y else x + y - h;
    (sum, sum < y)
  }

  /** How the pieces of the half-product add up, with base b. */
  lemma HalfProductSum(b: int, a0: int, a1: int, a23: int, b0: int, b1: int, b23: int,
                       i0: int, q0: int, t2: int, t3: int, c: int, w: int, v: int, r12: int, i3: int)
    requires a0 * b0 == q0 * b + i0
    requires a23 * (b1 * b + b0) + (a1 * b + a0) * b23 + a1 * b1 == t3 * b + t2 + v * (b * b)
    requires r12 + c * (b * b) == q0 + t2 * b + a1 * b0 + a0 * b1
    requires i3 + w * b == t3 + c
    ensures ((a1 * b + a0) + a23 * (b * b)) * ((b1 * b + b0) + b23 * (b * b))
         == (i0 + r12 * b + i3 * (b * (b * b))) + (w + v + a23 * b23) * ((b * b) * (b * b))
  {
    var h := b * b;
    var mid := a23 * (b1 * b + b0) + (a1 * b + a0) * b23;
    ProductOfHalves(a1 * b + a0, a23, b1 * b + b0, b23, h);
    ProductOfItems(a0, a1, b0, b1, b);
    assert h * mid + h * (a1 * b1) == h * (t3 * b + t2 + v * h) by { MulDistrib(h, mid, a1 * b1); }
    CollectPieces(b, h, i0, q0, t2, t3, c, w, v, r12, i3, a1 * b0 + a0 * b1);
    assert (w + v + a23 * b23) * (h * h) == (w + v) * (h * h) + (h * h) * (a23 * b23);
  }

  lemma ProductOfHalves(x: int, y: int, z: int, u: int, h: int)
    ensures (x + y * h) * (z + u * h) == x * z + h * (y * z + x * u) + (h * h) * (y * u)
  {
    assert (x + y * h) * (z + u * h) == (x + y * h) * z + (x + y * h) * (u * h);
    assert (x + y * h) * z == x * z + h * (y * z);
    assert (x + y * h) * (u * h) == h * (x * u) + (h * h) * (y * u);
  }

  lemma ProductOfItems(a0: int, a1: int, b0: int, b1: int, b: int)
    ensures (a1 * b + a0) * (b1 * b + b0) == a0 * b0 + b * (a1 * b0 + a0 * b1) + (b * b) * (a1 * b1)
  {
    ProductOfHalves(a0, a1, b0, b1, b);
  }

  lemma CollectPieces(b: int, h: int, i0: int, q0: int, t2: int, t3: int, c: int, w: int,
                      v: int, r12: int, i3: int, xy: int)
    requires h == b * b && r12 + c * h == q0 + t2 * b + xy && i3 + w * b == t3 + c
    ensures q0 * b + i0 + b * xy + h * (t3 * b + t2 + v * h) == i0 + r12 * b + i3 * (b * h) + (w + v) * (h * h)
  {
    assert b * xy == b * r12 + (b * h) * c - b * q0 - h * t2 by {
      assert b * xy == b * (r12 + c * h - q0 - t2 * b);
    }
    assert h * (t3 * b + t2 + v * h) == (b * h) * t3 + h * t2 + v * (h * h);
    assert (b * h) * (t3 + c) == (b * h) * i3 + w * (h * h) by {
      assert (b * h) * (i3 + w * b) == (b * h) * i3 + w * ((b * h) * b);
      assert (b * h) * b == h * h;
    }
    assert (b * h) * (t3 + c) == (b * h) * t3 + (b * h) * c;
  }

  // ---- Arithmetic on halves ----

  function Times(x: nat, y: nat): nat { x * y }

  function Pair(hi: nat, lo: nat): nat { hi * B + lo }

  /** 2^128 for 64-bit items. */
  function HalfRange(): nat { B * B }

  method SplitHalf(x: nat) returns (hi: Blk, lo: Blk)
    requires x < HalfRange()
    ensures x == Pair(hi, lo)
  {
    DivLess(x, B, B);
    DivModIdentity(x, B);
    hi, lo := x / B, x % B;
  }

  method WrapToHalf(x: nat) returns (r: nat, ghost v: nat)
    ensures r < HalfRange() && x == r + Times(v, HalfRange())
  {
    var h := HalfRange();
    assert h > 0;
    DivModIdentity(x, h);
    r, v := x % h, x / h;
  }

  method AddToItem(i: Blk, c: bool) returns (r: Blk, ghost w: nat)
    ensures r as int + Times(w, B) == i as int + Flag(c)
  {
    r, w := i, 0;
    if c {
      r := BlkInc(i);
      w := if i as int + 1 == B then 1 else 0;
    }
  }

  /** `x << N` in a half drops the upper item. */
  method ShiftedHalf(x: nat, ghost hi: Blk, ghost lo: Blk) returns (r: nat)
    requires x == Pair(hi, lo)
    ensures r == Pair(lo, 0)
  {
    ShiftModulo(x, B, B);
    DivModUnique(x, B, hi, lo);
    r := (x * B) % HalfRange();
  }

  lemma HalfBounds(hi: Blk, lo: Blk)
    ensures Pair(hi, lo) < HalfRange() && Times(hi, lo) < HalfRange() && Pair(hi, 0) + lo == Pair(hi, lo)
  {
    DigitBound(lo, hi, B, B);
    ProductBound(hi, lo, B, B);
  }

  lemma TimesZero(x: nat)
    ensures Times(x, 0) == 0 && Times(0, x) == 0 && Pair(0, 0) == 0
  {
  }

  /** Four items as two halves. */
  function InHalves(x: seq<Blk>): nat
    requires |x| == 4
  {
    Pair(x[1], x[0]) + Times(Pair(x[3], x[2]), HalfRange())
  }

  lemma FourItems(x: seq<Blk>)
    requires |x| == 4
    ensures Val(x) == InHalves(x)
    ensures BPow(4) == Times(HalfRange(), HalfRange())
  {
    assert x[0..] == x && Val(x[4..]) == 0;
    BPowAdd(2, 2);
    assert BPow(2) == B * B by { assert BPow(1) == B; }
    hide Val, BPow;
    ValCons(x, 0);
    ValCons(x, 1);
    ValCons(x, 2);
    ValCons(x, 3);
    Horner(x[0], x[1], x[2], x[3], B);
  }

  method HalfProduct(lhs: seq<Blk>, rhs: seq<Blk>) returns (res: seq<Blk>)
    requires |lhs| == 4 && 1 <= |rhs| <= 4
    ensures |res| == 4 && Val(res) == Mod(Val(lhs) * Val(rhs), 4)
  {
    hide Val, BPow, Mod, WrapAdd, Times, Pair, HalfRange;
    var a0: Blk, a1: Blk, b0: Blk, b1: Blk := lhs[0], lhs[1], rhs[0], 0;
    var a01, a23 := Pair(a1, a0), Pair(lhs[3], lhs[2]);
    TimesZero(a0);
    if |rhs| > 1 {
      b1 := rhs[1];
    }
    var b01, b23: nat := Pair(b1, b0), 0;
    if |rhs| > 2 {
      b23 := Pair(Item(rhs, 3), rhs[2]);
    }
    HalfBounds(a0, b0);
    HalfBounds(a1, b0);
    HalfBounds(a0, b1);
    var r23, v := WrapToHalf(Times(a23, b01) + Times(a01, b23) + Times(a1, b1));
    var t3, t2 := SplitHalf(r23);
    var q0, i0 := SplitHalf(Times(a0, b0));
    var shifted := ShiftedHalf(r23, t3, t2);
    HalfBounds(t2, q0);
    var r12 := q0 + shifted;
    var i3, carry1 := t3, false;
    ghost var w1: nat := 0;
    var r12x := Times(a1, b0);
    TimesZero(B);
    if |rhs| > 1 {
      var r12y := Times(a0, b1);
      var sum1 := WrapAdd(r12x, r12y, HalfRange());
      r12x, carry1 := sum1.0, sum1.1;
      i3, w1 := AddToItem(i3, carry1);
    }
    var sum := WrapAdd(r12, r12x, HalfRange());
    r12 := sum.0;
    ghost var w2;
    i3, w2 := AddToItem(i3, sum.1);
    var i2, i1 := SplitHalf(r12);
    res := [i0, i1, i2, i3];
    ghost var m := HalfProductExact(a0, a1, a23, b0, b1, b23, i0, i1, i2, i3, q0, t2, t3, carry1, sum.1, w1, w2, v);
    ResizedItems(rhs);
    HalfProductResult(lhs, rhs, res, m);
  }

  lemma HalfProductResult(lhs: seq<Blk>, rhs: seq<Blk>, res: seq<Blk>, m: nat)
    requires |lhs| == 4 && 1 <= |rhs| <= 4 && |res| == 4
    requires Times(InHalves(lhs), InHalves(Resized(rhs, 4)))
          == InHalves(res) + Times(m, Times(HalfRange(), HalfRange()))
    ensures Val(res) == Mod(Val(lhs) * Val(rhs), 4)
  {
    hide *;
    FourItems(lhs);
    FourItems(Resized(rhs, 4));
    FourItems(res);
    ResizedVal(rhs, 4);
    TimesIs(Val(lhs), Val(rhs));
    TimesIs(m, BPow(4));
    CarryDropped(res, Val(lhs) * Val(rhs), m);
  }

  lemma TimesIs(x: nat, y: nat)
    ensures Times(x, y) == x * y
  {
  }

  lemma ResizedItems(x: seq<Blk>)
    requires 1 <= |x| <= 4
    ensures InHalves(Resized(x, 4)) == Pair(Item(x, 1), x[0]) + Times(Pair(Item(x, 3), Item(x, 2)), HalfRange())
  {
  }

  lemma HalfProductExact(a0: nat, a1: nat, a23: nat, b0: nat, b1: nat, b23: nat, i0: nat, i1: nat, i2: nat, i3: nat,
                         q0: nat, t2: nat, t3: nat, c1: bool, c2: bool, w1: nat, w2: nat, v: nat) returns (m: nat)
    requires Times(a0, b0) == Pair(q0, i0)
    requires Times(a23, Pair(b1, b0)) + Times(Pair(a1, a0), b23) + Times(a1, b1) == Pair(t3, t2) + Times(v, HalfRange())
    requires Pair(i2, i1) + (if c1 then HalfRange() else 0) + (if c2 then HalfRange() else 0)
          == Pair(t2, 0) + q0 + Times(a1, b0) + Times(a0, b1)
    requires i3 + Times(w1, B) + Times(w2, B) == t3 + Flag(c1) + Flag(c2)
    ensures Times(Pair(a1, a0) + Times(a23, HalfRange()), Pair(b1, b0) + Times(b23, HalfRange()))
         == Pair(i1, i0) + Times(Pair(i3, i2), HalfRange()) + Times(m, Times(HalfRange(), HalfRange()))
  {
    hide *;
    var c, w := Flag(c1) + Flag(c2), w1 + w2;
    m := w + v + Times(a23, b23);
    TimesFlags(c1, c2, HalfRange());
    TimesSum(w1, w2, B);
    HalfProductPieces(a0, a1, a23, b0, b1, b23, i0, q0, t2, t3, c, w, v, Pair(i2, i1), i3);
    MiddleItems(i0, i1, i2, i3);
  }

  lemma TimesFlags(c1: bool, c2: bool, h: nat)
    ensures Times(Flag(c1) + Flag(c2), h) == (if c1 then h else 0) + (if c2 then h else 0)
  {
  }

  lemma TimesSum(x: nat, y: nat, z: nat)
    ensures Times(x + y, z) == Times(x, z) + Times(y, z)
  {
  }

  lemma HalfProductPieces(a0: nat, a1: nat, a23: nat, b0: nat, b1: nat, b23: nat,
                          i0: nat, q0: nat, t2: nat, t3: nat, c: nat, w: nat, v: nat, r12: nat, i3: nat)
    requires Times(a0, b0) == Pair(q0, i0)
    requires Times(a23, Pair(b1, b0)) + Times(Pair(a1, a0), b23) + Times(a1, b1) == Pair(t3, t2) + Times(v, HalfRange())
    requires r12 + Times(c, HalfRange()) == Pair(t2, 0) + q0 + Times(a1, b0) + Times(a0, b1)
    requires i3 + Times(w, B) == t3 + c
    ensures Times(Pair(a1, a0) + Times(a23, HalfRange()), Pair(b1, b0) + Times(b23, HalfRange()))
         == i0 + Times(r12, B) + Times(i3, Times(B, HalfRange()))
            + Times(w + v + Times(a23, b23), Times(HalfRange(), HalfRange()))
  {
    HalfProductSum(B, a0, a1, a23, b0, b1, b23, i0, q0, t2, t3, c, w, v, r12, i3);
  }

  lemma MiddleItems(i0: nat, i1: nat, i2: nat, i3: nat)
    ensures i0 + Times(Pair(i2, i1), B) + Times(i3, Times(B, HalfRange()))
            == Pair(i1, i0) + Times(Pair(i3, i2), HalfRange())
  {
    MiddleProducts(i1, i2, i3, B);
  }

  lemma MiddleProducts(i1: int, i2: int, i3: int, b: int)
    ensures (i2 * b + i1) * b + i3 * (b * (b * b)) == i1 * b + (i3 * b + i2) * (b * b)
  {
    assert (i2 * b + i1) * b == i2 * (b * b) + i1 * b;
    assert (i3 * b + i2) * (b * b) == i3 * (b * (b * b)) + i2 * (b * b);
  }

  // ---- Shift and add, by windows of one, two or three bits ----

  /** Any multiple added at bit `pos`, reduced at every step. */
  method AddMultiple(res: seq<Blk>, multiple: seq<Blk>, pos: nat, ghost v: nat) returns (r: seq<Blk>)
    requires |res| == |multiple| >= 1 && pos < N * |res| && Val(multiple) == Mod(v, |res|)
    ensures |r| == |res| && Val(r) == Mod(Val(res) + v * Pow2(pos), |res|)
  {
    hide *;
    var shifted := ShiftLeft(multiple, pos);
    r := Plus(res, shifted);
    ModOfShifted(v, Pow2(pos), |res|);
    ModOfReduced(Val(res), v * Pow2(pos), |res|);
    ModOfReduced(Val(res), Val(multiple) * Pow2(pos), |res|);
  }

  lemma ModOfShifted(v: int, p: int, k: nat)
    ensures Mod(Mod(v, k) * p, k) == Mod(v * p, k)
  {
    hide BPow;
    ModMul(v, p, BPow(k));
  }

  /** A window of `j` bits leaves the rest within what remains of the item. */
  lemma Window(rest: nat, j: nat, e: nat) returns (c: nat)
    requires 1 <= j && rest < Pow2(e) && rest >= 1 && rest >= Pow2(j) - 1
    ensures j <= e && c == rest % Pow2(j) && rest == Shr(rest, j) * Pow2(j) + c
    ensures Shr(rest, j) < Pow2(e - j) && Shr(rest, j) < rest
  {
    hide Pow2;
    if j > e { Pow2StrictMono(e, j); }
    c := rest % Pow2(j);
    DivModIdentity(rest, Pow2(j));
    Pow2Add(j, e - j);
    DivLess(rest, Pow2(j), Pow2(e - j));
    Pow2StrictMono(0, j);
    assert Pow2(0) == 1 by { SmallPowers(); }
    MulMono(Shr(rest, j), 2, Pow2(j));
  }

  /** What is still to be added once a window has been. */
  function Remaining(acc: int, v: int, rest: int, pos: nat): int {
    acc + (v * rest) * Pow2(pos)
  }

  lemma WindowStep(acc: nat, acc': nat, v: nat, rest: nat, rest': nat, c: nat, j: nat, pos: nat, k: nat)
    requires rest == rest' * Pow2(j) + c && acc' == Mod(acc + (c * v) * Pow2(pos), k)
    ensures Mod(Remaining(acc', v, rest', pos + j), k) == Mod(Remaining(acc, v, rest, pos), k)
  {
    hide *;
    var taken := (c * v) * Pow2(pos);
    RemainingParts(acc', v, rest', pos + j);
    RemainingParts(acc, v, rest, pos);
    RemainingAfter(v, rest', c, pos, j);
    ModOfReduced(Remaining(0, v, rest', pos + j), acc + taken, k);
  }

  lemma RemainingParts(acc: int, v: int, rest: int, pos: nat)
    ensures Remaining(acc, v, rest, pos) == acc + Remaining(0, v, rest, pos)
  {
  }

  lemma RemainingAfter(v: int, rest': int, c: int, pos: nat, j: nat)
    ensures Remaining(0, v, rest', pos + j) + (c * v) * Pow2(pos) == Remaining(0, v, rest' * Pow2(j) + c, pos)
  {
    hide Pow2;
    Pow2Add(pos, j);
    WindowProducts(v, rest', c, Pow2(pos), Pow2(j));
  }

  lemma WindowProducts(v: int, rest': int, c: int, p: int, q: int)
    ensures (v * rest') * (p * q) + (c * v) * p == (v * (rest' * q + c)) * p
  {
    assert (v * rest') * (p * q) == (v * (rest' * q)) * p;
    assert v * (rest' * q + c) == v * (rest' * q) + c * v;
  }

  lemma MaskBits(rest: nat)
    ensures And(rest, 7) == rest % Pow2(3) && And(rest, 3) == rest % Pow2(2) && And(rest, 1) == rest % Pow2(1)
    ensures Pow2(3) == 8 && Pow2(2) == 4 && Pow2(1) == 2
  {
    SmallPowers();
    AndMask(rest, 3);
    AndMask(rest, 2);
    AndMask(rest, 1);
  }

  lemma Reduced(x: seq<Blk>)
    ensures Val(x) == Mod(Val(x), |x|)
  {
    hide Val, BPow;
    ValBound(x);
    SmallMod(Val(x), BPow(|x|));
  }

  lemma NothingRemains(acc: int, v: int, pos: nat)
    ensures Remaining(acc, v, 0, pos) == acc && acc + (0 * v) * Pow2(pos) == acc
  {
  }

  /** The next window of three, two or one bits of an item. */
  method AddWindow(acc: seq<Blk>, lhs: seq<Blk>, lhs2: seq<Blk>, lhs3: seq<Blk>, rest: nat, pos: nat, ghost e: nat)
    returns (res: seq<Blk>, rest': nat, pos': nat)
    requires |acc| == |lhs| == |lhs2| == |lhs3| >= 1 && 1 <= rest < Pow2(e) && pos + e <= N * |lhs|
    requires Val(lhs2) == Mod(3 * Val(lhs), |lhs|) && Val(lhs3) == Mod(7 * Val(lhs), |lhs|)
    ensures |res| == |lhs| && pos < pos' <= pos + e && rest' < rest && rest' < Pow2(pos + e - pos')
    ensures Mod(Remaining(Val(res), Val(lhs), rest', pos'), |lhs|)
         == Mod(Remaining(Val(acc), Val(lhs), rest, pos), |lhs|)
  {
    hide *;
    ghost var v, j := Val(lhs), 1;
    Reduced(lhs);
    MaskedWindows(rest);
    SomeBits(rest, e);
    res := acc;
    if And(rest, 7) == 7 {
      j := 3;
      res := AddMultiple(res, lhs3, pos, 7 * v);
      rest', pos' := Shr(rest, 3), pos + 3;
    } else if And(rest, 3) == 3 {
      j := 2;
      res := AddMultiple(res, lhs2, pos, 3 * v);
      rest', pos' := Shr(rest, 2), pos + 2;
    } else {
      if And(rest, 1) != 0 {
        res := AddMultiple(res, lhs, pos, v);
      }
      rest', pos' := Shr(rest, 1), pos + 1;
    }
    ghost var c := Window(rest, j, e);
    Reduced(res);
    NothingRemains(Val(acc), v, pos);
    WindowStep(Val(acc), Val(res), v, rest, rest', c, j, pos, |lhs|);
  }

  /** What the three tests say of the windows. */
  lemma MaskedWindows(rest: nat)
    ensures And(rest, 7) == 7 ==> rest % Pow2(3) == 7 && rest >= Pow2(3) - 1
    ensures And(rest, 3) == 3 ==> rest % Pow2(2) == 3 && rest >= Pow2(2) - 1
    ensures rest % Pow2(1) == (if And(rest, 1) != 0 then 1 else 0) && Pow2(1) == 2
  {
    hide *;
    MaskBits(rest);
    ModAtMost(rest, 8);
    ModAtMost(rest, 4);
    ModAtMost(rest, 2);
  }

  lemma SomeBits(rest: nat, e: nat)
    requires 1 <= rest < Pow2(e)
    ensures e >= 1
  {
  }

  /** One item of the right operand. */
  method AddItemProduct(acc: seq<Blk>, lhs: seq<Blk>, lhs2: seq<Blk>, lhs3: seq<Blk>, item: Blk, i: nat)
    returns (res: seq<Blk>)
    requires i < |acc| == |lhs| == |lhs2| == |lhs3|
    requires Val(lhs2) == Mod(3 * Val(lhs), |lhs|) && Val(lhs3) == Mod(7 * Val(lhs), |lhs|)
    ensures |res| == |lhs| && Val(res) == Mod(Remaining(Val(acc), Val(lhs), item, i * N), |lhs|)
  {
    hide *;
    res := acc;
    var rest: nat, pos: nat := item, i * N;
    ghost var v, end := Val(lhs), i * N + N;
    ItemBelow(item, i, |lhs|);
    while rest != 0
      invariant |res| == |lhs| && pos <= end && rest < Pow2(end - pos)
      invariant Mod(Remaining(Val(res), v, rest, pos), |lhs|) == Mod(Remaining(Val(acc), v, item, i * N), |lhs|)
    {
      res, rest, pos := AddWindow(res, lhs, lhs2, lhs3, rest, pos, end - pos);
    }
    NothingRemains(Val(res), v, pos);
    Reduced(res);
  }

  lemma ItemBelow(item: Blk, i: nat, k: nat)
    requires i < k
    ensures item < Pow2(N) && i * N + N <= N * k
  {
    MulMono(N, i + 1, k);
  }

  method SmallMultiples(lhs: seq<Blk>) returns (lhs2: seq<Blk>, lhs3: seq<Blk>)
    requires |lhs| >= 1 && N >= 3
    ensures |lhs2| == |lhs3| == |lhs|
    ensures Val(lhs2) == Mod(3 * Val(lhs), |lhs|) && Val(lhs3) == Mod(7 * Val(lhs), |lhs|)
  {
    hide *;
    ghost var v, k := Val(lhs), |lhs|;
    TwoBitsFit(k);
    var twice := ShiftLeft(lhs, 1);
    lhs2 := Plus(lhs, twice);
    var fourTimes := ShiftLeft(lhs, 2);
    lhs3 := Plus(lhs2, fourTimes);
    SmallPowers();
    ModOfReduced(v, 2 * v, k);
    ModOfReduced(Val(lhs2), 4 * v, k);
    ModOfReduced(4 * v, 3 * v, k);
  }

  lemma TwoBitsFit(k: nat)
    requires k >= 1 && N >= 3
    ensures 2 < N * k
  {
    MulMono(N, 1, k);
  }

  lemma ItemProductPrefix(v: nat, r: seq<Blk>, i: nat, before: nat, k: nat)
    requires i < |r| && before == Mod(v * Val(r[..i]), k)
    ensures Mod(Remaining(before, v, r[i], i * N), k) == Mod(v * Val(r[..i + 1]), k)
  {
    hide Val, BPow, Pow2, Mod;
    ValTake(r, i);
    BPowIsPow2(i);
    var x: int, p := r[i], Pow2(i * N);
    assert (v * x) * p == v * (x * p) by { MulAssoc(v, x, p); }
    MulDistrib(v, Val(r[..i]), x * p);
    ModOfReduced((v * x) * p, v * Val(r[..i]), k);
  }

  method WindowProduct(lhs: seq<Blk>, rhs: seq<Blk>) returns (res: seq<Blk>)
    requires |lhs| >= 1 && N >= 3
    ensures |res| == |lhs| && Val(res) == Mod(Val(lhs) * Val(rhs), |lhs|)
  {
    hide *;
    var k := |lhs|;
    ghost var v := Val(lhs);
    ghost var r := Resized(rhs, k);
    var lhs2, lhs3 := SmallMultiples(lhs);
    res := Zero(k);
    EmptyProduct(v, r, k);
    for i := 0 to k
      invariant |res| == k && Val(res) == Mod(v * Val(r[..i]), k)
    {
      ghost var before := Val(res);
      res := AddItemProduct(res, lhs, lhs2, lhs3, Item(rhs, i), i);
      ResizedItem(rhs, k, i);
      ItemProductPrefix(v, r, i, before, k);
    }
    WholeProduct(v, rhs, k, r[..k]);
  }

  lemma EmptyProduct(v: nat, r: seq<Blk>, k: nat)
    ensures Mod(v * Val(r[..0]), k) == 0
  {
    assert Val([]) == 0;
    hide BPow;
    SmallMod(0, BPow(k));
  }

  lemma ResizedItem(x: seq<Blk>, k: nat, i: nat)
    requires i < k
    ensures Resized(x, k)[i] == Item(x, i)
  {
  }

  lemma WholeProduct(v: nat, rhs: seq<Blk>, k: nat, r: seq<Blk>)
    requires r == Resized(rhs, k)[..k]
    ensures Mod(v * Val(r), k) == Mod(v * Val(rhs), k)
  {
    hide *;
    assert r == Resized(rhs, k);
    ResizedVal(rhs, k);
    ModOfShifted(Val(rhs), v, k);
  }

  // ---- Dispatch ----

  /** The widths handed to the compiler's own 128-bit integers. */
  predicate Native128(k: nat) {
    k == 2 && N == 64
  }

  lemma TwoItems(x: seq<Blk>)
    requires |x| == 2
    ensures Val(x) == Pair(x[1], x[0]) && BPow(2) == HalfRange()
  {
    assert x[0..] == x && Val(x[2..]) == 0;
    assert BPow(1) == B;
    hide Val;
    ValCons(x, 0);
    ValCons(x, 1);
  }

  method NativeProduct(lhs: seq<Blk>, rhs: seq<Blk>) returns (res: seq<Blk>)
    requires |lhs| == |rhs| == 2
    ensures |res| == 2 && Val(res) == Mod(Val(lhs) * Val(rhs), 2)
  {
    hide *;
    var c, v := WrapToHalf(Times(Pair(lhs[1], lhs[0]), Pair(rhs[1], rhs[0])));
    var hi, lo := SplitHalf(c);
    res := [lo, hi];
    TwoItems(lhs);
    TwoItems(rhs);
    TwoItems(res);
    TimesIs(Val(lhs), Val(rhs));
    TimesIs(v, BPow(2));
    CarryDropped(res, Val(lhs) * Val(rhs), v);
  }

  method Multiply(lhs: seq<Blk>, rhs: seq<Blk>) returns (res: seq<Blk>)
    requires 1 <= |rhs| <= |lhs| && N >= 3
    ensures |res| == |lhs| && Val(res) == Mod(Val(lhs) * Val(rhs), |lhs|)
  {
    hide *;
    if |lhs| == 4 && N == 64 {
      res := HalfProduct(lhs, rhs);
    } else if Native128(|lhs|) {
      NativeIsTwo(|lhs|);
      ResizedVal(rhs, 2);
      res := NativeProduct(lhs, Resized(rhs, 2));
    } else {
      res := WindowProduct(lhs, rhs);
    }
  }

  lemma NativeIsTwo(k: nat)
    requires Native128(k)
    ensures k == 2
  {
  }
}
