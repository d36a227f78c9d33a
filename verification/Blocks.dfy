/** Numbers written as little-endian sequences of N-bit blocks. */
module Blocks {
  import opened Powers
  import opened Bits

  type Width = n: nat | n >= 1 witness 64

  /** Bits per block. Left symbolic: every result holds for any block type. */
  const N: Width

  /** The base of the block representation. */
  const B: nat := Pow2(N)

  type Blk = x: nat | x < B

  function BPow(i: nat): (r: nat)
    ensures r >= 1
  {
    if i == 0 then 1 else PowPositive(B, i); B * BPow(i - 1)
  }

  /** What a block is worth at position `k`. */
  function At(x: int, k: nat): int {
    x * BPow(k)
  }

  /** What the product of two numbers is worth at position `k`. */
  function AtProduct(x: int, y: int, k: nat): int {
    At(x * y, k)
  }

  /** The number a block sequence stands for. */
  function Val(s: seq<Blk>): nat {
    if s == [] then 0
    else Val(s[..|s| - 1]) + At(s[|s| - 1], |s| - 1)
  }

  /** The length is such that the most significant block is nonzero. */
  predicate Canonical(s: seq<Blk>) {
    s != [] ==> s[|s| - 1] != 0
  }

  // ---- Unsigned block arithmetic with wrap-around ----

  function BlkAdd(x: Blk, y: Blk): Blk {
    if x + y < B then x + y else x + y - B
  }

  function BlkSub(x: Blk, y: Blk): Blk {
    if x >= y then x - y else x + B - y
  }

  function BlkInc(x: Blk): Blk {
    if x + 1 < B then x + 1 else 0
  }

  function BlkDec(x: Blk): Blk {
    if x > 0 then x - 1 else B - 1
  }

  // ---- Laws of Val ----

  lemma BPowNext(i: nat)
    ensures BPow(i + 1) == B * BPow(i)
  {
  }

  lemma {:induction false} BPowAdd(i: nat, j: nat)
    ensures BPow(i + j) == BPow(i) * BPow(j)
  {
    if i == 0 {
    } else {
      BPowAdd(i - 1, j);
      MulAssoc(B, BPow(i - 1), BPow(j));
    }
  }

  lemma {:induction false} BPowMono(i: nat, j: nat)
    requires i <= j
    ensures BPow(i) <= BPow(j)
  {
    BPowAdd(i, j - i);
    MulMono(BPow(i), 1, BPow(j - i));
  }

  lemma {:induction false} BPowIsPow2(i: nat)
    ensures BPow(i) == Pow2(N * i)
  {
    if i == 0 {
    } else {
      BPowIsPow2(i - 1);
      assert N * i == N + N * (i - 1);
      Pow2Add(N, N * (i - 1));
    }
  }

  lemma Pow2At(e: nat, k: nat)
    ensures At(Pow2(e), k) == Pow2(N * k + e) && At(1, k) == BPow(k)
  {
    hide BPow, Pow2;
    BPowIsPow2(k);
    Pow2Add(N * k, e);
  }

  lemma AtSum(x: int, y: int, k: nat)
    ensures At(x + y, k) == At(x, k) + At(y, k)
  {
  }

  lemma AtDiff(x: int, y: int, k: nat)
    ensures At(x - y, k) == At(x, k) - At(y, k)
  {
  }

  lemma AtProductSum(x: int, y: int, z: int, k: nat)
    ensures AtProduct(x, y + z, k) == AtProduct(x, y, k) + AtProduct(x, z, k)
  {
    hide At;
    MulDistrib(x, y, z);
    AtSum(x * y, x * z, k);
  }

  lemma AtAt(x: int, j: nat, k: nat)
    ensures At(At(x, j), k) == At(x, k + j)
  {
    hide BPow;
    BPowAdd(k, j);
    MulRotate(BPow(k), BPow(j), x);
  }

  lemma ValSnoc(s: seq<Blk>, x: Blk)
    ensures Val(s + [x]) == Val(s) + At(x, |s|)
  {
    assert (s + [x])[..|s|] == s;
  }

  lemma ValTake(s: seq<Blk>, i: nat)
    requires i < |s|
    ensures Val(s[..i + 1]) == Val(s[..i]) + At(s[i], i)
  {
    hide *;
    assert s[..i + 1] == s[..i] + [s[i]];
    ValSnoc(s[..i], s[i]);
  }

  lemma {:induction false} ValBound(s: seq<Blk>)
    ensures Val(s) < BPow(|s|)
  {
    if s == [] {
    } else {
      var n := |s| - 1;
      ValBound(s[..n]);
      DigitBound(Val(s[..n]), s[n], BPow(n), B);
    }
  }

  lemma {:induction false} ValConcat(s: seq<Blk>, t: seq<Blk>)
    ensures Val(s + t) == Val(s) + At(Val(t), |s|)
  {
    if t == [] {
      assert s + t == s;
    } else {
      hide *;
      var n := |t| - 1;
      assert s + t == (s + t[..n]) + [t[n]] && t == t[..n + 1];
      ValSnoc(s + t[..n], t[n]);
      ValTake(t, n);
      ValConcat(s, t[..n]);
      AtSum(Val(t[..n]), At(t[n], n), |s|);
      AtAt(t[n], n, |s|);
    }
  }

  lemma ValSmall(s: seq<Blk>)
    ensures s == [] ==> Val(s) == 0
    ensures |s| == 1 ==> Val(s) == s[0]
  {
    if |s| == 1 { assert s[..0] == [] && BPow(0) == 1; }
  }

  lemma AtFirst(v: int)
    ensures At(v, 1) == B * v
  {
    assert BPow(1) == B * BPow(0);
  }

  lemma ValPrepend(x: Blk, s: seq<Blk>)
    ensures Val([x] + s) == x + B * Val(s)
  {
    hide Val, At, BPow;
    ValConcat([x], s);
    ValSmall([x]);
    AtFirst(Val(s));
  }

  lemma ValCons(s: seq<Blk>, i: nat)
    requires i < |s|
    ensures Val(s[i..]) == s[i] + B * Val(s[i + 1..])
  {
    hide *;
    assert s[i..] == [s[i]] + s[i + 1..];
    ValPrepend(s[i], s[i + 1..]);
  }

  lemma AtNonneg(x: nat, k: nat)
    ensures At(x, k) >= 0
  {
    MulMono(BPow(k), 0, x);
  }

  lemma AtMono(x: int, y: int, k: nat)
    requires x <= y
    ensures At(x, k) <= At(y, k)
  {
    hide BPow;
    MulMono(BPow(k), x, y);
  }

  lemma ValSplit(s: seq<Blk>, i: nat)
    requires i <= |s|
    ensures Val(s) == Val(s[..i]) + At(Val(s[i..]), i)
  {
    hide *;
    assert s == s[..i] + s[i..];
    ValConcat(s[..i], s[i..]);
  }

  lemma ValDivMod(s: seq<Blk>, i: nat)
    requires i <= |s|
    ensures Val(s) / BPow(i) == Val(s[i..]) && Val(s) % BPow(i) == Val(s[..i])
  {
    hide Val, BPow;
    ValSplit(s, i);
    ValBound(s[..i]);
    DivModUnique(Val(s), BPow(i), Val(s[i..]), Val(s[..i]));
  }

  lemma ValUpdate(s: seq<Blk>, i: nat, x: Blk)
    requires i < |s|
    ensures Val(s[i := x]) == Val(s) - At(s[i], i) + At(x, i)
  {
    hide *;
    var t := s[i := x];
    ValSplit(s, i + 1);
    ValSplit(t, i + 1);
    assert t[i + 1..] == s[i + 1..];
    ValTake(s, i);
    ValTake(t, i);
    assert t[..i] == s[..i];
  }

  lemma {:induction false} ValZeros(s: seq<Blk>)
    requires forall i :: 0 <= i < |s| ==> s[i] == 0
    ensures Val(s) == 0
  {
    if s == [] {
    } else {
      ValZeros(s[..|s| - 1]);
    }
  }

  /** A nonzero top block bounds the number from below. */
  lemma ValTop(s: seq<Blk>)
    requires s != [] && s[|s| - 1] != 0
    ensures Val(s) >= BPow(|s| - 1)
  {
    MulMono(BPow(|s| - 1), 1, s[|s| - 1]);
  }

  /** Conversely, a number that large has a nonzero top block. */
  lemma CanonicalTop(s: seq<Blk>)
    requires s != [] ==> Val(s) >= BPow(|s| - 1)
    ensures Canonical(s)
  {
    if s != [] { ValBound(s[..|s| - 1]); }
  }

  lemma DropTopZero(s: seq<Blk>)
    requires s != [] && s[|s| - 1] == 0
    ensures Val(s[..|s| - 1]) == Val(s)
  {
  }

  /** A number this large is canonical after dropping at most one leading zero. */
  lemma TopOrNext(s: seq<Blk>)
    requires |s| >= 2 && Val(s) >= BPow(|s| - 2)
    ensures Canonical(s) || Canonical(s[..|s| - 1])
  {
    hide Val, BPow;
    if s[|s| - 1] == 0 {
      DropTopZero(s);
      CanonicalTop(s[..|s| - 1]);
    }
  }

  lemma CanonicalLength(s: seq<Blk>, n: nat)
    requires Canonical(s)
    ensures |s| <= n <==> Val(s) < BPow(n)
  {
    if |s| <= n {
      ValBound(s);
      BPowMono(|s|, n);
    } else {
      ValTop(s);
      BPowMono(n, |s| - 1);
    }
  }

  /** Sequences of one length are ordered by their highest differing block. */
  lemma ValOrder(s: seq<Blk>, t: seq<Blk>, i: nat)
    requires i < |s| == |t| && s[i] < t[i] && s[i + 1..] == t[i + 1..]
    ensures Val(s) < Val(t)
  {
    hide Val, BPow;
    ValSplit(s, i + 1);
    ValSplit(t, i + 1);
    ValTake(s, i);
    ValTake(t, i);
    ValBound(s[..i]);
    MulMono(BPow(i), s[i] + 1, t[i]);
    MulDistrib(BPow(i), s[i], 1);
  }

  /** Changing only the blocks in [i, k) changes the number by a multiple of B^i. */
  lemma WindowChange(s: seq<Blk>, t: seq<Blk>, i: nat, k: nat)
    requires i <= k <= |s| == |t| && Val(s[..i]) == Val(t[..i]) && Val(s[k..]) == Val(t[k..])
    ensures Val(t) == Val(s) + At(Val(t[i..k]) - Val(s[i..k]), i)
  {
    hide *;
    ValWindow(s, i, k);
    ValWindow(t, i, k);
    AtDiff(Val(t[i..k]), Val(s[i..k]), i);
  }

  lemma ValWindow(s: seq<Blk>, i: nat, k: nat)
    requires i <= k <= |s|
    ensures Val(s) == Val(s[..i]) + At(Val(s[i..k]), i) + At(Val(s[k..]), k)
  {
    hide *;
    assert s == s[..i] + s[i..k] + s[k..];
    ValConcat3(s[..i], s[i..k], s[k..]);
  }

  lemma ValConcat3(s: seq<Blk>, t: seq<Blk>, u: seq<Blk>)
    ensures Val(s + t + u) == Val(s) + At(Val(t), |s|) + At(Val(u), |s| + |t|)
  {
    hide *;
    ValConcat(s + t, u);
    ValConcat(s, t);
  }

  lemma {:induction false} ValInjective(s: seq<Blk>, t: seq<Blk>)
    requires |s| == |t| && Val(s) == Val(t)
    ensures s == t
  {
    if s == [] {
    } else {
      var n := |s| - 1;
      ValBound(s[..n]);
      ValBound(t[..n]);
      DigitUnique(Val(s[..n]), s[n], Val(t[..n]), t[n], BPow(n));
      ValInjective(s[..n], t[..n]);
      assert s == s[..n] + [s[n]] && t == t[..n] + [t[n]];
    }
  }

  /** Canonical representations are unique. */
  lemma CanonicalUnique(s: seq<Blk>, t: seq<Blk>)
    requires Canonical(s) && Canonical(t) && Val(s) == Val(t)
    ensures s == t
  {
    CanonicalLength(s, |t|);
    CanonicalLength(t, |s|);
    ValBound(s);
    ValBound(t);
    ValInjective(s, t);
  }

  // ---- Shifting by less than a block ----

  /** The x'th block of `s << y`. */
  function ShiftedBlock(s: seq<Blk>, x: nat, y: nat): (r: Blk)
    requires x <= |s| && y < N
    ensures r == HighBits(s, x, y) + (if x == |s| then 0 else s[x] % Pow2(N - y) * Pow2(y))
  {
    var part1 := if x == 0 || y == 0 then 0 else s[x - 1] / Pow2(N - y);
    var part2 := if x == |s| then 0 else (s[x] * Pow2(y)) % B;
    ShiftedBlockParts(s, x, y);
    Or(part1, part2)
  }

  /** The high `y` bits of the block below `x`, which `<< y` moves into block `x`. */
  function HighBits(s: seq<Blk>, x: nat, y: nat): nat
    requires x <= |s| && y < N
  {
    if x == 0 then 0 else s[x - 1] / Pow2(N - y)
  }

  lemma ShiftLeftWithinBlock(b: Blk, y: nat)
    requires y < N
    ensures b / Pow2(N - y) < Pow2(y)
    ensures b * Pow2(y) == b / Pow2(N - y) * B + b % Pow2(N - y) * Pow2(y)
    ensures b % Pow2(N - y) * Pow2(y) + Pow2(y) <= B
    ensures (b * Pow2(y)) % B == b % Pow2(N - y) * Pow2(y)
  {
    hide Pow2;
    Pow2Add(N - y, y);
    ShiftSplit(b, Pow2(N - y), Pow2(y));
  }

  lemma ShiftedBlockParts(s: seq<Blk>, x: nat, y: nat)
    requires x <= |s| && y < N
    ensures var part1 := if x == 0 || y == 0 then 0 else s[x - 1] / Pow2(N - y);
            var part2 := if x == |s| then 0 else (s[x] * Pow2(y)) % B;
            && part1 == HighBits(s, x, y)
            && Or(part1, part2) == part1 + part2 < B
            && (x < |s| ==> part2 == s[x] % Pow2(N - y) * Pow2(y))
  {
    hide Or, Pow2;
    if x > 0 {
      ShiftLeftWithinBlock(s[x - 1], y);
      if y == 0 { SmallMod(s[x - 1], B); }
    }
    var part1 := if x == 0 || y == 0 then 0 else s[x - 1] / Pow2(N - y);
    if x < |s| {
      ShiftLeftWithinBlock(s[x], y);
      OrDisjoint(part1, s[x] % Pow2(N - y), y);
    } else {
      OrZero(part1);
      Pow2Mono(y, N);
    }
  }

  /** All blocks of `s << y`, including the one nudged past the end. */
  function Shifted(s: seq<Blk>, y: nat): (r: seq<Blk>)
    requires y < N
    ensures |r| == |s| + 1
  {
    seq(|s| + 1, x requires 0 <= x <= |s| => ShiftedBlock(s, x, y))
  }

  lemma ShiftedTake(s: seq<Blk>, y: nat, x: nat)
    requires y < N && x <= |s|
    ensures Val(Shifted(s, y)[..x + 1]) == Val(Shifted(s, y)[..x]) + At(ShiftedBlock(s, x, y), x)
  {
    ValTake(Shifted(s, y), x);
  }

  /** One block of the shift: what leaves the top of a block enters the next one. */
  lemma ShiftStep(v: int, d: int, p: int, y: int, hi: int, base: int, lo: int, w: int, hi0: int)
    requires w + hi0 * p == v * y
    requires d * y == hi * base + lo
    ensures w + (hi0 + lo) * p + hi * (base * p) == (v + d * p) * y
  {
    assert (v + d * p) * y == v * y + (d * y) * p;
    assert (hi * base + lo) * p == hi * (base * p) + lo * p;
    assert (hi0 + lo) * p == hi0 * p + lo * p;
  }

  lemma {:induction false} ShiftedPrefix(s: seq<Blk>, y: nat, x: nat)
    requires y < N && x <= |s|
    ensures Val(Shifted(s, y)[..x]) + HighBits(s, x, y) * BPow(x) == Val(s[..x]) * Pow2(y)
  {
    if x == 0 {
    } else {
      var h, p, hi, lo := Shifted(s, y), BPow(x - 1), HighBits(s, x, y), s[x - 1] % Pow2(N - y) * Pow2(y);
      hide Val, Pow2;
      ShiftedPrefix(s, y, x - 1);
      ValTake(h, x - 1);
      ValTake(s, x - 1);
      ShiftLeftWithinBlock(s[x - 1], y);
      ShiftStep(Val(s[..x - 1]), s[x - 1], p, Pow2(y), hi, B, lo, Val(h[..x - 1]), HighBits(s, x - 1, y));
    }
  }

  /** Shifting left by `y` bits multiplies by 2^y, with nothing lost. */
  lemma ShiftedVal(s: seq<Blk>, y: nat)
    requires y < N
    ensures Val(Shifted(s, y)) == Val(s) * Pow2(y)
  {
    var h := Shifted(s, y);
    ShiftedPrefix(s, y, |s|);
    ValTake(h, |s|);
    assert h[..|s| + 1] == h && s[..|s|] == s;
  }
}
