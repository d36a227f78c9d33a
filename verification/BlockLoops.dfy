/** The block loops of BigUnsigned.cc, each proved against the value of the blocks it writes. */
module BlockLoops {
  import opened Powers
  import opened Bits
  import opened Blocks

  /** Decrementing leaves at most one leading zero block. */
  lemma PredecessorTop(s: seq<Blk>)
    requires s != [] && Val(s) + 1 >= BPow(|s| - 1)
    ensures Canonical(s) || Canonical(s[..|s| - 1])
  {
    var n := |s| - 1;
    if n >= 1 {
      assert BPow(n) == B * BPow(n - 1) && B == 2 * Pow2(N - 1);
      hide Val, BPow, Pow2;
      MulMono(BPow(n - 1), 2, B);
      TopOrNext(s);
    }
  }

  method IncrementBlocks(dst: array<Blk>, len: nat) returns (carry: bool)
    requires len <= dst.Length
    modifies dst
    ensures Val(dst[..len]) + Carry(carry, len) == old(Val(dst[..len])) + 1
  {
    ghost var s := dst[..len];
    assert Val([]) == 0 && Carry(true, 0) == 1;
    hide Val, BPow, At;
    var i := 0;
    carry := true;
    while i < len && carry
      invariant i <= len && forall m :: i <= m < len ==> dst[m] == s[m]
      invariant Val(dst[..i]) + Carry(carry, i) == Val(s[..i]) + 1
    {
      var temp := BlkInc(dst[i]);
      carry := temp == 0;
      CarryStep(temp, carry, s[i], 0, true, i);
      PutBlock(dst, i, temp);
      ValTake(s, i);
      i := i + 1;
    }
    SameTail(s, dst[..len], i);
    assert dst[..len][..i] == dst[..i];
  }

  /** The loop of `--` has no bound check: a nonzero number stops the borrow. */
  method DecrementBlocks(dst: array<Blk>, ghost len: nat)
    requires len <= dst.Length && Val(dst[..len]) > 0
    modifies dst
    ensures Val(dst[..len]) == old(Val(dst[..len])) - 1
  {
    ghost var s := dst[..len];
    assert Val([]) == 0 && Carry(true, 0) == 1 && s[..len] == s;
    hide Val, BPow, At;
    var i, borrow := 0, true;
    while borrow
      invariant i <= len && forall m :: i <= m < len ==> dst[m] == s[m]
      invariant Val(dst[..i]) + 1 == Val(s[..i]) + Carry(borrow, i)
      decreases len - i
    {
      ValBound(dst[..i]);
      if i == len { assert false; }
      var temp := BlkDec(dst[i]);
      borrow := dst[i] == 0;
      CarryStep(s[i], borrow, temp, 0, true, i);
      PutBlock(dst, i, temp);
      ValTake(s, i);
      i := i + 1;
    }
    SameTail(s, dst[..len], i);
    assert dst[..len][..i] == dst[..i];
  }

  /** Sequences with the same blocks from `i` on differ by what their prefixes differ. */
  lemma SameTail(s: seq<Blk>, t: seq<Blk>, i: nat)
    requires i <= |s| == |t| && s[i..] == t[i..]
    ensures Val(t) - Val(s) == Val(t[..i]) - Val(s[..i])
  {
    hide *;
    ValSplit(s, i);
    ValSplit(t, i);
  }

  function Flag(c: bool): nat { if c then 1 else 0 }

  /** What a carry into, or a borrow from, block `k` is worth. */
  function Carry(c: bool, k: nat): nat { if c then BPow(k) else 0 }

  lemma NoColumns()
    ensures Val([]) == 0 && Carry(false, 0) == 0
  {
  }

  /** One column of an addition, at its weight. */
  lemma CarryStep(t: int, c': bool, x: int, y: int, c: bool, k: nat)
    requires t + (if c' then B else 0) == x + y + Flag(c)
    ensures At(t, k) + Carry(c', k + 1) == At(x, k) + At(y, k) + Carry(c, k)
    ensures At(0, k) == 0
  {
    ScaleColumn(t, Flag(c'), x, y, Flag(c), B, BPow(k));
  }

  lemma ScaleColumn(t: int, c': int, x: int, y: int, c: int, base: int, p: int)
    requires t + c' * base == x + y + c
    ensures t * p + c' * (base * p) == x * p + y * p + c * p
  {
    assert (t + c' * base) * p == t * p + c' * (base * p);
    assert (x + y + c) * p == x * p + y * p + c * p;
  }

  /** A column of `add` and `multiply`: a rollover shows in the sum being less than an input. */
  function AddColumn(x: Blk, y: Blk, carryIn: bool): (r: (Blk, bool))
    ensures r.0 + (if r.1 then B else 0) == x + y + Flag(carryIn)
  {
    var temp := BlkAdd(x, y);
    var carryOut := temp < x;
    if carryIn then (BlkInc(temp), carryOut || BlkInc(temp) == 0) else (temp, carryOut)
  }

  /** First loop of `add`. */
  method AddColumns(dst: array<Blk>, a: array<Blk>, b: array<Blk>, n: nat) returns (carryIn: bool)
    requires n <= dst.Length && n <= a.Length && n <= b.Length && dst != a && dst != b
    modifies dst
    ensures Val(dst[..n]) + Carry(carryIn, n) == Val(a[..n]) + Val(b[..n])
  {
    assert Val([]) == 0;
    hide Val, BPow, At;
    carryIn := false;
    for i := 0 to n
      invariant Val(dst[..i]) + Carry(carryIn, i) == Val(a[..i]) + Val(b[..i])
    {
      var (temp, carryOut) := AddColumn(a[i], b[i], carryIn);
      CarryStep(temp, carryOut, a[i], b[i], carryIn, i);
      PutBlock(dst, i, temp);
      ValTake(a[..], i);
      ValTake(b[..], i);
      carryIn := carryOut;
    }
  }

  /** Second and third loop of `add`. */
  method CopyWithCarry(dst: array<Blk>, a: array<Blk>, from: nat, to: nat, carry: bool) returns (carryIn: bool)
    requires from <= to <= dst.Length && to <= a.Length && dst != a
    modifies dst
    ensures Val(dst[..to]) + Carry(carryIn, to) + Val(a[..from]) ==
            old(Val(dst[..from])) + Carry(carry, from) + Val(a[..to])
  {
    hide Val, BPow, At;
    carryIn := carry;
    var i := from;
    while i < to && carryIn
      invariant from <= i <= to
      invariant Val(dst[..i]) + Carry(carryIn, i) + Val(a[..from]) ==
                old(Val(dst[..from])) + Carry(carry, from) + Val(a[..i])
    {
      var temp := BlkInc(a[i]);
      carryIn := temp == 0;
      CarryStep(temp, carryIn, a[i], 0, true, i);
      PutBlock(dst, i, temp);
      ValTake(a[..], i);
      i := i + 1;
    }
    while i < to
      invariant from <= i <= to
      invariant carryIn ==> i == to
      invariant Val(dst[..i]) + Carry(carryIn, i) + Val(a[..from]) ==
                old(Val(dst[..from])) + Carry(carry, from) + Val(a[..i])
    {
      PutBlock(dst, i, a[i]);
      ValTake(a[..], i);
      i := i + 1;
    }
  }

  /** `dst[i] = x`, with its effect on the value of the prefix up to it. */
  method PutBlock(dst: array<Blk>, i: nat, x: Blk)
    requires i < dst.Length
    modifies dst
    ensures dst[..] == old(dst[..])[i := x]
    ensures Val(dst[..i + 1]) == old(Val(dst[..i])) + At(x, i)
  {
    dst[i] := x;
    assert dst[..i] == old(dst[..i]);
    ValTake(dst[..], i);
    assert dst[..][..i + 1] == dst[..i + 1] && dst[..][..i] == dst[..i];
  }

  /** The copying loops of NumberlikeArray. */
  method CopyBlocks(dst: array<Blk>, src: array<Blk>, n: nat)
    requires n <= dst.Length && n <= src.Length && dst != src
    modifies dst
    ensures dst[..n] == src[..n]
  {
    for i := 0 to n
      invariant dst[..i] == src[..i]
    {
      dst[i] := src[i];
    }
  }

  // ---- Subtraction ----

  /** A column of `subtract` and `divideWithRemainder`. */
  function SubColumn(x: Blk, y: Blk, borrowIn: bool): (r: (Blk, bool))
    ensures r.0 + y + Flag(borrowIn) == x + (if r.1 then B else 0)
  {
    var temp := BlkSub(x, y);
    var borrowOut := temp > x;
    if borrowIn then (BlkDec(temp), borrowOut || temp == 0) else (temp, borrowOut)
  }

  /** The loops of `subtract`; false is the case where it throws. */
  method SubtractBlocks(dst: array<Blk>, a: array<Blk>, aLen: nat, b: array<Blk>, bLen: nat) returns (ok: bool)
    requires bLen <= aLen <= dst.Length && aLen <= a.Length && bLen <= b.Length && dst != a && dst != b
    modifies dst
    ensures ok <==> Val(a[..aLen]) >= Val(b[..bLen])
    ensures ok ==> Val(dst[..aLen]) == Val(a[..aLen]) - Val(b[..bLen])
  {
    assert Val([]) == 0 && Carry(false, 0) == 0;
    hide Val, BPow, At, SubColumn;
    var borrowIn := false;
    for i := 0 to bLen
      invariant Val(dst[..i]) + Val(b[..i]) == Val(a[..i]) + Carry(borrowIn, i)
    {
      var (temp, borrowOut) := SubColumn(a[i], b[i], borrowIn);
      CarryStep(a[i], borrowOut, temp, b[i], borrowIn, i);
      PutBlock(dst, i, temp);
      ValTake(a[..], i);
      ValTake(b[..], i);
      borrowIn := borrowOut;
    }
    borrowIn := CopyWithBorrow(dst, a, bLen, aLen, borrowIn);
    ok := !borrowIn;
    ValBound(dst[..aLen]);
    assert borrowIn ==> Carry(borrowIn, aLen) == BPow(aLen);
  }

  /** Second and third loop of `subtract`; a borrow that is left over makes it throw. */
  method CopyWithBorrow(dst: array<Blk>, a: array<Blk>, from: nat, to: nat, borrow: bool) returns (borrowIn: bool)
    requires from <= to <= dst.Length && to <= a.Length && dst != a
    modifies dst
    ensures Val(dst[..to]) + Val(a[..from]) + Carry(borrow, from) ==
            old(Val(dst[..from])) + Val(a[..to]) + Carry(borrowIn, to)
  {
    hide Val, BPow, At;
    borrowIn := borrow;
    var i := from;
    while i < to && borrowIn
      invariant from <= i <= to
      invariant Val(dst[..i]) + Val(a[..from]) + Carry(borrow, from) ==
                old(Val(dst[..from])) + Val(a[..i]) + Carry(borrowIn, i)
    {
      var temp := BlkDec(a[i]);
      borrowIn := a[i] == 0;
      CarryStep(a[i], borrowIn, temp, 0, true, i);
      PutBlock(dst, i, temp);
      ValTake(a[..], i);
      i := i + 1;
    }
    if borrowIn { return; }
    while i < to
      invariant from <= i <= to
      invariant Val(dst[..i]) + Val(a[..from]) + Carry(borrow, from) == old(Val(dst[..from])) + Val(a[..i])
    {
      PutBlock(dst, i, a[i]);
      ValTake(a[..], i);
      i := i + 1;
    }
  }

  // ---- Multiplication ----

  /** `dst[k] = x`, with its effect on the value of the window that starts at `i`. */
  method PutInWindow(dst: array<Blk>, ghost i: nat, k: nat, x: Blk)
    requires i <= k < dst.Length
    modifies dst
    ensures forall m :: 0 <= m < dst.Length && m != k ==> dst[m] == old(dst[m])
    ensures dst[k] == x
    ensures Val(dst[i..k + 1]) == old(Val(dst[i..k])) + At(x, k - i)
  {
    dst[k] := x;
    assert dst[i..k + 1] == old(dst[i..k]) + [x];
    ValSnoc(old(dst[i..k]), x);
  }

  lemma WindowTake(s: seq<Blk>, i: nat, k: nat)
    requires i <= k < |s|
    ensures Val(s[i..k + 1]) == Val(s[i..k]) + At(s[k], k - i)
  {
    assert s[i..k + 1] == s[i..k] + [s[k]];
    ValSnoc(s[i..k], s[k]);
  }

  /** Adds `b << (i blocks and i2 bits)` to the first `len` blocks of `dst`. */
  method AddShifted(dst: array<Blk>, len: nat, b: array<Blk>, bLen: nat, i: nat, i2: nat)
    requires dst != b && bLen <= b.Length && i + bLen < len <= dst.Length && i2 < N
    requires Val(dst[..len]) + At(Val(b[..bLen]) * Pow2(i2), i) < BPow(len)
    modifies dst
    ensures Val(dst[..len]) == old(Val(dst[..len])) + At(Val(b[..bLen]) * Pow2(i2), i)
  {
    hide *;
    ghost var s, v := dst[..len], Val(b[..bLen]) * Pow2(i2);
    ghost var from := i + bLen + 1;
    ShiftedVal(b[..bLen], i2);
    var carryIn := AddShiftedColumns(dst, len, b, bLen, i, i2);
    CarryFits(s, i, v);
    assert s[i..from] == old(dst[i..from]) && dst[from..len] == s[from..];
    ghost var k := RollCarry(dst, len, i, i + bLen + 1, carryIn, s, v);
    assert dst[..len][i..k] == dst[i..k] && dst[..len][..i] == s[..i] && dst[..len][k..] == s[k..];
    WindowChange(s, dst[..len], i, k);
  }

  /** The loop over the blocks of `b`, which runs once more for the bits shifted past its end. */
  method AddShiftedColumns(dst: array<Blk>, ghost len: nat, b: array<Blk>, bLen: nat, i: nat, i2: nat)
    returns (carryIn: bool)
    requires dst != b && bLen <= b.Length && i + bLen < len <= dst.Length && i2 < N
    modifies dst
    ensures forall m :: 0 <= m < i || i + bLen < m < len ==> dst[m] == old(dst[m])
    ensures Val(dst[i..i + bLen + 1]) + Carry(carryIn, bLen + 1) ==
            old(Val(dst[i..i + bLen + 1])) + Val(Shifted(b[..bLen], i2))
  {
    hide *;
    var bs := b[..bLen];
    ghost var s, h := dst[..], Shifted(bs, i2);
    NoColumns();
    assert dst[i..i] == [] && s[i..i] == [] && h[..0] == [];
    carryIn := false;
    for j := 0 to bLen + 1
      invariant forall m :: 0 <= m < i || i + j <= m < len ==> dst[m] == s[m]
      invariant Val(dst[i..i + j]) + Carry(carryIn, j) == Val(s[i..i + j]) + Val(h[..j])
    {
      carryIn := AddShiftedColumn(dst, bs, i, i2, j, carryIn);
      WindowTake(s, i, i + j);
      ShiftedTake(bs, i2, j);
    }
    assert h[..bLen + 1] == h;
  }

  method AddShiftedColumn(dst: array<Blk>, b: seq<Blk>, i: nat, i2: nat, j: nat, carryIn: bool) returns (carryOut: bool)
    requires i2 < N && j <= |b| && i + j < dst.Length
    modifies dst
    ensures forall m :: 0 <= m < dst.Length && m != i + j ==> dst[m] == old(dst[m])
    ensures Val(dst[i..i + j + 1]) + Carry(carryOut, j + 1) ==
            old(Val(dst[i..i + j])) + At(old(dst[i + j]), j) + At(ShiftedBlock(b, j, i2), j) + Carry(carryIn, j)
  {
    hide Val, BPow, At, Carry, ShiftedBlock, AddColumn;
    var k, y := i + j, ShiftedBlock(b, j, i2);
    var (temp, c) := AddColumn(dst[k], y, carryIn);
    CarryStep(temp, c, dst[k], y, carryIn, j);
    PutInWindow(dst, i, k, temp);
    carryOut := c;
  }

  /** The loop without a bound check: the sum fitting in `len` blocks is what stops it. */
  method RollCarry(dst: array<Blk>, ghost len: nat, ghost i: nat, from: nat, carry: bool,
                   ghost s: seq<Blk>, ghost v: nat)
    returns (ghost k: nat)
    requires i <= from <= len <= dst.Length && |s| == len
    requires dst[..i] == s[..i] && dst[from..len] == s[from..]
    requires Val(dst[i..from]) + Carry(carry, from - i) == Val(s[i..from]) + v
    requires Val(s[i..]) + v < BPow(len - i)
    modifies dst
    ensures from <= k <= len && dst[..i] == s[..i] && dst[k..len] == s[k..]
    ensures Val(dst[i..k]) == Val(s[i..k]) + v
  {
    hide Val, BPow, At;
    var m, carryIn := from, carry;
    while carryIn
      invariant from <= m <= len
      invariant dst[..i] == s[..i] && forall x :: m <= x < len ==> dst[x] == s[x]
      invariant Val(dst[i..m]) + Carry(carryIn, m - i) == Val(s[i..m]) + v
      decreases len - m
    {
      assert s[i..len] == s[i..];
      if m == len { assert false; }
      assert dst[m] == s[m];
      var temp := BlkInc(dst[m]);
      carryIn := temp == 0;
      CarryStep(temp, carryIn, s[m], 0, true, m - i);
      PutInWindow(dst, i, m, temp);
      WindowTake(s, i, m);
      m := m + 1;
    }
    assert dst[m..len] == s[m..len] == s[m..];
    k := m;
  }

  /** No carry can leave the buffer when the sum fits in it. */
  lemma CarryFits(s: seq<Blk>, i: nat, v: nat)
    requires i <= |s| && Val(s) + At(v, i) < BPow(|s|)
    ensures Val(s[i..]) + v < BPow(|s| - i)
  {
    hide Val, BPow;
    ValSplit(s, i);
    BPowAdd(i, |s| - i);
    AtSum(Val(s[i..]), v, i);
    if Val(s[i..]) + v >= BPow(|s| - i) {
      MulMono(BPow(i), BPow(|s| - i), Val(s[i..]) + v);
      assert false;
    }
  }

  /** Adds `x * b`, shifted left `i` blocks, one 1-bit of the block `x` at a time. */
  method AddBlockTimes(dst: array<Blk>, len: nat, x: Blk, b: array<Blk>, bLen: nat, i: nat)
    requires dst != b && bLen <= b.Length && i + bLen < len <= dst.Length
    requires Val(dst[..len]) + At(Val(b[..bLen]) * x, i) < BPow(len)
    modifies dst
    ensures Val(dst[..len]) == old(Val(dst[..len])) + At(Val(b[..bLen]) * x, i)
  {
    ghost var v, bv := Val(dst[..len]), Val(b[..bLen]);
    for i2 := 0 to N
      invariant Val(dst[..len]) == v + At(bv * (x % Pow2(i2)), i)
    {
      ModNextBit(x, i2);
      AndBit(x, i2);
      if And(x, Pow2(i2)) != 0 {
        PartialProduct(x, i2, i, bv);
        AddShifted(dst, len, b, bLen, i, i2);
      }
    }
    SmallMod(x, B);
  }

  lemma PartialProduct(x: nat, k: nat, i: nat, v: nat)
    requires Bit(x, k)
    ensures At(v * (x % Pow2(k)), i) + At(v * Pow2(k), i) == At(v * (x % Pow2(k + 1)), i) <= At(v * x, i)
  {
    hide BPow, Pow2, Bit;
    ModNextBit(x, k);
    ModAtMost(x, Pow2(k + 1));
    PartialProductInts(x % Pow2(k), Pow2(k), x % Pow2(k + 1), x, v, BPow(i));
  }

  lemma PartialProductInts(r: nat, d: nat, m: nat, x: nat, v: nat, p: nat)
    requires m == r + d && m <= x
    ensures (v * r) * p + (v * d) * p == (v * m) * p <= (v * x) * p
  {
    MulDistrib(v, r, d);
    MulDistrib(p, v * r, v * d);
    MulMono(v, m, x);
    MulMono(p, v * m, v * x);
  }

  /** The loops of `multiply`. */
  method MultiplyBlocks(dst: array<Blk>, a: array<Blk>, aLen: nat, b: array<Blk>, bLen: nat)
    requires aLen <= a.Length && bLen <= b.Length && aLen + bLen <= dst.Length && dst != a && dst != b
    modifies dst
    ensures Val(dst[..aLen + bLen]) == Val(a[..aLen]) * Val(b[..bLen])
  {
    var len := aLen + bLen;
    for i := 0 to len
      invariant forall j :: 0 <= j < i ==> dst[j] == 0
    {
      dst[i] := 0;
    }
    ValZeros(dst[..len]);
    hide *;
    ghost var bv := Val(b[..bLen]);
    for i := 0 to aLen
      invariant Val(dst[..len]) == Val(a[..i]) * bv
    {
      ProductPrefix(a[..aLen], i, b[..bLen]);
      assert a[..aLen][..i] == a[..i] && a[..aLen][..i + 1] == a[..i + 1];
      AddBlockTimes(dst, len, a[i], b, bLen, i);
    }
  }

  lemma ProductPrefix(a: seq<Blk>, i: nat, b: seq<Blk>)
    requires i < |a|
    ensures Val(a[..i]) * Val(b) + At(Val(b) * a[i], i) == Val(a[..i + 1]) * Val(b) < BPow(|a| + |b|)
  {
    hide Val, BPow;
    ValTake(a, i);
    DigitProduct(Val(a[..i]), a[i], BPow(i), Val(b));
    ValBound(a[..i + 1]);
    ValBound(b);
    BPowMono(i + 1, |a|);
    BPowAdd(|a|, |b|);
    ProductBound(Val(a[..i + 1]), Val(b), BPow(|a|), BPow(|b|));
  }

  lemma DigitProduct(x: int, d: int, p: int, y: int)
    ensures (x + d * p) * y == x * y + (y * d) * p
  {
  }

  /** At most one leading block of a product is zero. */
  lemma ProductTop(a: seq<Blk>, b: seq<Blk>, s: seq<Blk>)
    requires a != [] && b != [] && Canonical(a) && Canonical(b)
    requires |s| == |a| + |b| && Val(s) == Val(a) * Val(b)
    ensures Canonical(s) || Canonical(s[..|s| - 1])
  {
    hide *;
    ProductLowerBound(a, b);
    TopOrNext(s);
  }

  lemma ProductLowerBound(a: seq<Blk>, b: seq<Blk>)
    requires a != [] && b != [] && Canonical(a) && Canonical(b)
    ensures Val(a) * Val(b) >= BPow(|a| + |b| - 2)
  {
    hide Val, BPow;
    ValTop(a);
    ValTop(b);
    BPowAdd(|a| - 1, |b| - 1);
    ProductMono(BPow(|a| - 1), BPow(|b| - 1), Val(a), Val(b));
  }

  // ---- Division ----

  /** Writes `cur - (b << (i blocks and i2 bits))` to blocks [i, i + bLen] of `buf`. */
  method SubShiftedColumns(buf: array<Blk>, cur: array<Blk>, b: array<Blk>, bLen: nat, i: nat, i2: nat)
    returns (borrowIn: bool)
    requires buf != cur && buf != b && bLen <= b.Length && i2 < N
    requires i + bLen < cur.Length && i + bLen < buf.Length
    modifies buf
    ensures Val(buf[i..i + bLen + 1]) + Val(Shifted(b[..bLen], i2)) ==
            Val(cur[i..i + bLen + 1]) + Carry(borrowIn, bLen + 1)
  {
    hide *;
    var bs := b[..bLen];
    ghost var s, h := cur[..], Shifted(bs, i2);
    NoColumns();
    assert buf[i..i] == [] && s[i..i] == [] && h[..0] == [];
    borrowIn := false;
    for j := 0 to bLen + 1
      invariant Val(buf[i..i + j]) + Val(h[..j]) == Val(s[i..i + j]) + Carry(borrowIn, j)
    {
      var k, y := i + j, ShiftedBlock(bs, j, i2);
      var (temp, borrowOut) := SubColumn(cur[k], y, borrowIn);
      CarryStep(cur[k], borrowOut, temp, y, borrowIn, j);
      PutInWindow(buf, i, k, temp);
      WindowTake(s, i, k);
      ShiftedTake(bs, i2, j);
      borrowIn := borrowOut;
    }
    assert h[..bLen + 1] == h;
    assert s[i..i + bLen + 1] == cur[i..i + bLen + 1];
  }

  /** Rolls a borrow through the remaining blocks below `origLen`. */
  method RollBorrow(buf: array<Blk>, cur: array<Blk>, ghost i: nat, from: nat, origLen: nat, borrow: bool, ghost v: nat)
    returns (k: nat, borrowIn: bool)
    requires buf != cur && i <= from <= origLen + 1 <= cur.Length && origLen < buf.Length
    requires Val(buf[i..from]) + v == Val(cur[i..from]) + Carry(borrow, from - i)
    modifies buf
    ensures from <= k <= origLen + 1 && (borrowIn ==> k >= origLen)
    ensures Val(buf[i..k]) + v == Val(cur[i..k]) + Carry(borrowIn, k - i)
  {
    hide Val, BPow, At, Carry;
    k, borrowIn := from, borrow;
    while k < origLen && borrowIn
      invariant from <= k <= origLen + 1
      invariant Val(buf[i..k]) + v == Val(cur[i..k]) + Carry(borrowIn, k - i)
    {
      borrowIn := cur[k] == 0;
      CarryStep(cur[k], borrowIn, BlkDec(cur[k]), 0, true, k - i);
      PutInWindow(buf, i, k, BlkDec(cur[k]));
      WindowTake(cur[..], i, k);
      k := k + 1;
    }
  }

  /** A borrow left over means the shifted divisor exceeds the current remainder. */
  lemma BorrowMeansLess(s: seq<Blk>, w: seq<Blk>, i: nat, k: nat, v: nat)
    requires s != [] && s[|s| - 1] == 0 && i <= k <= |s| <= k + 1 && |w| == k - i
    requires Val(w) + v == Val(s[i..k]) + BPow(k - i)
    ensures Val(s) < At(v, i)
  {
    assert At(1, i) == BPow(i) && At(0, k) == 0;
    hide Val, BPow, At;
    ValBound(w);
    ValWindow(s, i, k);
    if k < |s| { ValZeros(s[k..]); } else { ValZeros([]); }
    ValBound(s[..i]);
    AtSum(Val(s[i..k]), 1, i);
    AtMono(Val(s[i..k]) + 1, v, i);
  }

  lemma NoBorrowMeansFits(s: seq<Blk>, w: seq<Blk>, i: nat, k: nat, v: nat)
    requires i <= k <= |s| && |w| == k - i && Val(w) + v == Val(s[i..k])
    ensures Val(s) >= At(v, i)
    ensures Val(s[..i] + w + s[k..]) == Val(s) - At(v, i)
  {
    hide *;
    ValWindow(s, i, k);
    ValConcat3(s[..i], w, s[k..]);
    AtSum(Val(w), v, i);
  }

  /** One trial subtraction: on success `cur` is reduced, otherwise it keeps its value. */
  method TrySubtractShifted(cur: array<Blk>, origLen: nat, b: array<Blk>, bLen: nat, i: nat, i2: nat, buf: array<Blk>)
    returns (fits: bool)
    requires cur != b && buf != cur && buf != b && bLen <= b.Length && i2 < N
    requires origLen < cur.Length && origLen < buf.Length && i + bLen <= origLen && cur[origLen] == 0
    modifies cur, buf
    ensures fits <==> old(Val(cur[..origLen + 1])) >= AtProduct(Val(b[..bLen]), Pow2(i2), i)
    ensures Val(cur[..origLen + 1]) ==
            old(Val(cur[..origLen + 1])) - if fits then AtProduct(Val(b[..bLen]), Pow2(i2), i) else 0
    ensures cur[origLen] == 0
  {
    hide *;
    ghost var s, v := cur[..origLen + 1], Val(b[..bLen]) * Pow2(i2);
    ShiftedVal(b[..bLen], i2);
    AtProductDef(Val(b[..bLen]), Pow2(i2), i);
    var borrowIn := SubShiftedColumns(buf, cur, b, bLen, i, i2);
    var k;
    k, borrowIn := RollBorrow(buf, cur, i, i + bLen + 1, origLen, borrowIn, v);
    fits := !borrowIn;
    CarryCases(borrowIn, k - i);
    assert s[i..k] == cur[i..k];
    if fits {
      NoBorrowMeansFits(s, buf[i..k], i, k, v);
      AtNonneg(v, i);
      CopyBack(cur, buf, i, k);
      assert cur[..origLen + 1] == s[..i] + buf[i..k] + s[k..];
      RemainderKeepsZero(s, cur[..origLen + 1]);
    } else {
      BorrowMeansLess(s, buf[i..k], i, k, v);
      assert cur[..origLen + 1] == s;
    }
  }

  lemma AtProductDef(x: int, y: int, k: nat)
    ensures AtProduct(x, y, k) == At(x * y, k)
  {
  }

  lemma CarryCases(c: bool, k: nat)
    ensures Carry(c, k) == if c then BPow(k) else 0
  {
  }

  /** The block added above the dividend is zero again after a successful subtraction. */
  lemma RemainderKeepsZero(s: seq<Blk>, t: seq<Blk>)
    requires |s| == |t| > 0 && s[|s| - 1] == 0 && Val(t) <= Val(s)
    ensures t[|t| - 1] == 0
  {
    var n := |s| - 1;
    DropTopZero(s);
    ValBound(s[..n]);
    if t[n] != 0 { ValTop(t); assert false; }
  }

  /** Copies blocks [i, k) downwards. */
  method CopyBack(cur: array<Blk>, buf: array<Blk>, i: nat, k: nat)
    requires cur != buf && i <= k <= cur.Length && k <= buf.Length
    modifies cur
    ensures forall m :: 0 <= m < cur.Length ==> cur[m] == if i <= m < k then buf[m] else old(cur[m])
  {
    var m := k;
    while m > i
      invariant i <= m <= k
      invariant forall n :: 0 <= n < cur.Length ==> cur[n] == if m <= n < k then buf[n] else old(cur[n])
    {
      m := m - 1;
      cur[m] := buf[m];
    }
  }

  /** All bits of one quotient block, from the most significant down. */
  method DivideBlock(cur: array<Blk>, origLen: nat, b: array<Blk>, bLen: nat, i: nat, q: array<Blk>, buf: array<Blk>)
    requires cur != b && buf != cur && buf != b && q != cur && q != b && q != buf && bLen <= b.Length
    requires origLen < cur.Length && origLen < buf.Length && i + bLen <= origLen && cur[origLen] == 0 && i < q.Length
    requires Val(cur[..origLen + 1]) < At(Val(b[..bLen]), i + 1)
    modifies cur, q, buf
    ensures forall m :: 0 <= m < q.Length && m != i ==> q[m] == old(q[m])
    ensures old(Val(cur[..origLen + 1])) == Val(cur[..origLen + 1]) + AtProduct(Val(b[..bLen]), q[i], i)
    ensures Val(cur[..origLen + 1]) < At(Val(b[..bLen]), i)
    ensures cur[origLen] == 0
  {
    ghost var bs := b[..bLen];
    q[i] := 0;
    var i2: nat := N;
    TopPlace(Val(bs), i);
    hide *;
    while i2 > 0
      invariant i2 <= N && cur[origLen] == 0 && b[..bLen] == bs
      invariant forall m :: 0 <= m < q.Length && m != i ==> q[m] == old(q[m])
      invariant Val(cur[..origLen + 1]) + AtProduct(Val(bs), q[i], i) == old(Val(cur[..origLen + 1]))
      invariant Val(cur[..origLen + 1]) < AtProduct(Val(bs), Pow2(i2), i)
      invariant RoomForBit(q[i], i2)
    {
      i2 := i2 - 1;
      QuotientBit(q[i], i2);
      AtProductSum(Val(bs), q[i], Pow2(i2), i);
      AtProductSum(Val(bs), Pow2(i2), Pow2(i2), i);
      var fits := TrySubtractShifted(cur, origLen, b, bLen, i, i2, buf);
      if fits {
        q[i] := Or(q[i], Pow2(i2));
      }
    }
    BottomPlace(Val(bs), i);
  }

  /** Only bits at `k` and above are set, and one more bit can be set below them. */
  ghost predicate RoomForBit(q: nat, k: nat) {
    q % Pow2(k) == 0 && q + Pow2(k) <= B
  }

  lemma TopPlace(v: nat, i: nat)
    ensures At(v, i + 1) == AtProduct(v, Pow2(N), i) && AtProduct(v, 0, i) == 0
    ensures RoomForBit(0, N)
  {
    MulAssoc(v, B, BPow(i));
    SmallMod(0, B);
  }

  lemma BottomPlace(v: nat, i: nat)
    ensures AtProduct(v, Pow2(0), i) == At(v, i)
  {
  }

  /** Setting quotient bit `k` below the bits already decided. */
  lemma QuotientBit(q: Blk, k: nat)
    requires k < N && RoomForBit(q, k + 1)
    ensures RoomForBit(q, k) && RoomForBit(q + Pow2(k), k)
    ensures Or(q, Pow2(k)) == q + Pow2(k) < B
    ensures Pow2(k + 1) == Pow2(k) + Pow2(k)
  {
    var p, c := Pow2(k), q / Pow2(k + 1);
    assert Pow2(k + 1) == 2 * p && q == c * Pow2(k + 1);
    OrDisjoint(p, c, k + 1);
    QuotientBitInts(q, c, p);
  }

  lemma QuotientBitInts(q: int, c: int, p: int)
    requires p > 0 && q == c * (2 * p)
    ensures q % p == 0 && (q + p) % p == 0
  {
    ModSelfMultiple(0, 2 * c, p);
    ModSelfMultiple(0, 2 * c + 1, p);
    SmallMod(0, p);
  }

  /** The loop over quotient blocks. */
  method DivideBlocks(cur: array<Blk>, origLen: nat, b: array<Blk>, bLen: nat, q: array<Blk>, qLen: nat)
    requires cur != b && q != cur && q != b && bLen <= b.Length && qLen <= q.Length
    requires origLen < cur.Length && qLen + bLen == origLen + 1 && cur[origLen] == 0
    requires Val(cur[..origLen + 1]) < At(Val(b[..bLen]), qLen)
    modifies cur, q
    ensures old(Val(cur[..origLen + 1])) == Val(cur[..origLen + 1]) + Val(b[..bLen]) * Val(q[..qLen])
    ensures Val(cur[..origLen + 1]) < Val(b[..bLen]) && cur[origLen] == 0
  {
    hide *;
    ghost var bv, a := Val(b[..bLen]), Val(cur[..origLen + 1]);
    var subtractBuf := new Blk[origLen + 1];
    ZeroOut(q, qLen);
    NoQuotientYet(bv, qLen);
    var i := qLen;
    assert q[i..qLen] == [] && cur[..origLen + 1] == old(cur[..origLen + 1]) && b[..bLen] == old(b[..bLen]);
    while i > 0
      invariant i <= qLen && cur[origLen] == 0
      invariant Val(cur[..origLen + 1]) + AtProduct(bv, Val(q[i..qLen]), i) == a
      invariant Val(cur[..origLen + 1]) < At(bv, i)
    {
      i := i - 1;
      ghost var high := q[i + 1..qLen];
      assert b[..bLen] == old(b[..bLen]);
      DivideBlock(cur, origLen, b, bLen, i, q, subtractBuf);
      forall m | 0 <= m < |high| ensures q[i + 1 + m] == high[m] {}
      assert q[i + 1..qLen] == high;
      assert q[i..qLen] == [q[i]] + high;
      ValPrepend(q[i], high);
      PrependQuotient(bv, q[i], Val(high), i);
    }
    AllQuotient(bv, Val(q[0..qLen]));
    assert q[0..qLen] == q[..qLen] && b[..bLen] == old(b[..bLen]);
  }

  method ZeroOut(q: array<Blk>, n: nat)
    requires n <= q.Length
    modifies q
    ensures forall j :: 0 <= j < n ==> q[j] == 0
  {
    for j := 0 to n
      invariant forall m :: 0 <= m < j ==> q[m] == 0
    {
      q[j] := 0;
    }
  }

  lemma NoQuotientYet(v: nat, i: nat)
    ensures AtProduct(v, Val([]), i) == 0
  {
  }

  lemma AllQuotient(v: nat, q: nat)
    ensures AtProduct(v, q, 0) == v * q && At(v, 0) == v
  {
  }

  lemma PrependQuotient(v: nat, x: nat, q: nat, i: nat)
    ensures AtProduct(v, x + B * q, i) == AtProduct(v, x, i) + AtProduct(v, q, i + 1)
  {
    AtProductSum(v, x, B * q, i);
    BPowNext(i);
    hide BPow, Pow2;
    MulSwap(v, B, q, BPow(i));
  }

  lemma MulSwap(v: int, b: int, q: int, p: int)
    ensures (v * (b * q)) * p == (v * q) * (b * p)
  {
  }

  /** Shifted by the number of quotient blocks, the divisor exceeds the dividend. */
  lemma DividendBound(a: seq<Blk>, b: seq<Blk>)
    requires |a| >= |b| > 0 && Canonical(b)
    ensures Val(a) < At(Val(b), |a| - |b| + 1)
  {
    hide Val, BPow;
    ValTop(b);
    ValBound(a);
    BPowAdd(|b| - 1, |a| - |b| + 1);
    MulMono(BPow(|a| - |b| + 1), BPow(|b| - 1), Val(b));
  }

  /** At most one leading block of the quotient is zero. */
  lemma QuotientTop(a: seq<Blk>, b: seq<Blk>, q: seq<Blk>, r: nat)
    requires |a| >= |b| > 0 && |q| == |a| - |b| + 1 && Canonical(a)
    requires Val(a) == r + Val(b) * Val(q) && r < Val(b)
    ensures Canonical(q) || Canonical(q[..|q| - 1])
  {
    hide Val, BPow;
    if |q| >= 2 {
      ValTop(a);
      ValBound(b);
      BPowAdd(|b|, |q| - 2);
      QuotientLowerBound(Val(a), Val(b), Val(q), r, BPow(|b|), BPow(|q| - 2));
      TopOrNext(q);
    }
  }

  lemma QuotientLowerBound(a: int, b: int, q: int, r: int, p: int, m: int)
    requires a == r + b * q && 0 <= r < b < p && a >= p * m && q >= 0 && m >= 0
    ensures q >= m
  {
    if q < m {
      MulMono(p, q + 1, m);
      MulMono(q + 1, b, p);
      MulDistrib(b, q, 1);
      assert false;
    }
  }

  // ---- Bits of block numbers ----

  lemma DivPositive(x: nat, d: nat)
    requires d > 0 && x / d != 0
    ensures d <= x
  {
    MulMono(d, 1, x / d);
  }

  lemma DivZero(x: nat, d: nat)
    requires d > 0 && x / d == 0
    ensures x < d
  {
  }

  /** Bits of the top block, counted above the whole blocks below it. */
  lemma TopBlockBits(s: seq<Blk>, k: nat, n: nat)
    requires |s| == k + 1 && n > 0 && Pow2(n - 1) <= s[k] < Pow2(n)
    ensures Pow2(N * k + (n - 1)) <= Val(s) < Pow2(N * k + n)
  {
    assert s[..k + 1] == s;
    hide *;
    ValTake(s, k);
    ValBound(s[..k]);
    Pow2At(n, k);
    Pow2At(n - 1, k);
    var top: int := s[k];
    AtMono(Pow2(n - 1), top, k);
    AtSum(top, 1, k);
    AtMono(top + 1, Pow2(n), k);
  }

  lemma BitOfBlock(s: seq<Blk>, i: nat, j: nat)
    requires j < N
    ensures Bit(Val(s), N * i + j) <==> i < |s| && Bit(s[i], j)
  {
    hide Val, BPow, Pow2;
    BPowIsPow2(i);
    Pow2Add(N * i, j);
    DivDiv(Val(s), BPow(i), Pow2(j));
    if i < |s| {
      ValDivMod(s, i);
      ValCons(s, i);
      BitOfLowBlock(s[i], Val(s[i + 1..]), j);
    } else {
      ValBound(s);
      BPowMono(|s|, i);
      SmallMod(Val(s), BPow(i));
      SmallMod(0, Pow2(j));
    }
  }

  lemma NoBits(j: nat)
    ensures !Bit(0, j)
  {
    SmallMod(0, Pow2(j));
  }

  lemma BitOfLowBlock(x: Blk, high: nat, j: nat)
    requires j < N
    ensures (x + B * high) / Pow2(j) % 2 == x / Pow2(j) % 2
  {
    Pow2Add(j, N - 1 - j);
    assert B == 2 * (Pow2(j) * Pow2(N - 1 - j));
    hide *;
    LowBitInts(x, high, Pow2(j), Pow2(N - 1 - j), B);
  }

  lemma LowBitInts(x: int, high: int, d: int, e: int, base: int)
    requires d > 0 && base == 2 * (d * e)
    ensures (x + base * high) / d % 2 == x / d % 2
  {
    assert base * high == (2 * (e * high)) * d by {
      MulAssoc(2, d * e, high);
      Regroup(high, d, e);
      MulAssoc(2, e * high, d);
    }
    ModSelfMultiple(x, 2 * (e * high), d);
    EvenAdded(x / d, e * high);
  }

  lemma EvenAdded(x: int, k: int)
    ensures (x + 2 * k) % 2 == x % 2
  {
  }

  // ---- Shifts ----

  /** The loops of `bitShiftLeft`. */
  method WriteShifted(dst: array<Blk>, a: array<Blk>, aLen: nat, shiftBlocks: nat, shiftBits: nat)
    requires dst != a && aLen <= a.Length && aLen + shiftBlocks < dst.Length && shiftBits < N
    modifies dst
    ensures Val(dst[..shiftBlocks]) == 0
    ensures dst[shiftBlocks..shiftBlocks + aLen + 1] == Shifted(a[..aLen], shiftBits)
  {
    hide ShiftedBlock, Val;
    for i := 0 to shiftBlocks
      invariant forall m :: 0 <= m < i ==> dst[m] == 0
    {
      dst[i] := 0;
    }
    var as_ := a[..aLen];
    for j := 0 to aLen + 1
      invariant a[..aLen] == as_
      invariant forall m :: 0 <= m < shiftBlocks ==> dst[m] == 0
      invariant forall m :: 0 <= m < j ==> dst[shiftBlocks + m] == ShiftedBlock(as_, m, shiftBits)
    {
      dst[shiftBlocks + j] := ShiftedBlock(as_, j, shiftBits);
    }
    ValZeros(dst[..shiftBlocks]);
  }

  /** A shift amount in whole blocks and left-over bits. */
  method SplitShift(b: nat) returns (blocks: nat, bits: nat)
    ensures b == N * blocks + bits && bits < N && (blocks == 0 <==> b < N)
  {
    blocks, bits := b / N, b % N;
    DivModIdentity(b, N);
    if b < N { SmallMod(b, N); }
  }

  lemma ShiftLeftResult(a: seq<Blk>, b: nat, k: nat, y: nat, s: seq<Blk>)
    requires Canonical(a) && y < N && b == N * k + y && |s| == |a| + k + 1
    requires Val(s[..k]) == 0 && s[k..] == Shifted(a, y)
    ensures Val(s) == Val(a) * Pow2(b)
    ensures (Canonical(s) || Canonical(s[..|s| - 1])) <==> a != [] || k == 0
  {
    hide *;
    ValSmall(a);
    ValSplit(s, k);
    ShiftedVal(a, y);
    ShiftAmounts(Val(a), y, k);
    if a != [] {
      ShiftedTop(a, y, k);
      TopOrNext(s);
    } else {
      EmptyShift(k, s);
    }
  }

  lemma ShiftAmounts(v: nat, y: nat, k: nat)
    ensures At(v * Pow2(y), k) == v * Pow2(N * k + y)
  {
    hide BPow, Pow2;
    BPowIsPow2(k);
    Pow2Add(y, N * k);
    MulAssoc(v, Pow2(y), BPow(k));
  }

  lemma ShiftedTop(a: seq<Blk>, y: nat, k: nat)
    requires a != [] && Canonical(a)
    ensures At(Val(a) * Pow2(y), k) >= BPow(|a| + k - 1)
  {
    hide Val, BPow, Pow2;
    ValTop(a);
    BPowAdd(|a| - 1, k);
    MulMono(Val(a), 1, Pow2(y));
    ProductMono(BPow(|a| - 1), BPow(k), Val(a) * Pow2(y), BPow(k));
  }

  /** Shifting zero by whole blocks leaves zero blocks in place. */
  lemma EmptyShift(k: nat, s: seq<Blk>)
    requires |s| == k + 1 && Val(s) == 0
    ensures (Canonical(s) || Canonical(s[..k])) <==> k == 0
  {
    hide Val, BPow;
    if s[k] != 0 { ValTop(s); assert false; }
    if k > 0 {
      DropTopZero(s);
      if s[k - 1] != 0 { ValTop(s[..k]); assert false; }
    }
  }

  /** A right shift as a whole number of blocks, less a left shift within blocks. */
  method RoundUpShift(b: nat) returns (blocks: nat, bits: nat)
    ensures b + bits == N * blocks && bits < N
  {
    blocks := (b + N - 1) / N;
    DivModIdentity(b + N - 1, N);
    bits := N * blocks - b;
  }

  lemma ShiftedAway(a: seq<Blk>, b: nat, k: nat, y: nat)
    requires b + y == N * k && y < N && k >= |a| + 1
    ensures Val(a) / Pow2(b) == 0
  {
    AwayInts(N, |a|, k, b);
    hide Val, BPow, Pow2;
    ValBound(a);
    BPowIsPow2(|a|);
    Pow2Mono(N * |a|, b);
    SmallMod(Val(a), Pow2(b));
  }

  lemma AwayInts(n: nat, len: nat, k: nat, b: nat)
    requires k >= len + 1 && n * k < b + n
    ensures n * len <= b
  {
    MulMono(n, len, k - 1);
    MulDistrib(n, k, -1);
  }

  lemma ShiftRightResult(a: seq<Blk>, b: nat, k: nat, y: nat, s: seq<Blk>)
    requires Canonical(a) && y < N && b + y == N * k && k <= |a| && |s| == |a| + 1 - k
    requires s == Shifted(a, y)[k..]
    ensures Val(s) == Val(a) / Pow2(b)
    ensures Canonical(s) || Canonical(s[..|s| - 1])
  {
    if |s| == 1 { assert Canonical(s[..0]); }
    hide *;
    ShiftedRightValue(a, b, k, y);
    if |s| >= 2 {
      ShiftedRightTop(a, b, k, y);
      TopOrNext(s);
    }
  }

  lemma ShiftedRightValue(a: seq<Blk>, b: nat, k: nat, y: nat)
    requires y < N && k <= |a| + 1 && b + y == N * k
    ensures Val(Shifted(a, y)[k..]) == (Val(a) * Pow2(y)) / BPow(k) == Val(a) / Pow2(b)
  {
    hide *;
    ValDivMod(Shifted(a, y), k);
    ShiftedVal(a, y);
    BPowIsPow2(k);
    Pow2Add(b, y);
    DivCancel(Val(a), Pow2(b), Pow2(y));
  }

  lemma ShiftedRightTop(a: seq<Blk>, b: nat, k: nat, y: nat)
    requires y < N && k < |a| && b + y == N * k && Canonical(a)
    ensures Val(a) / Pow2(b) >= BPow(|a| - 1 - k)
  {
    hide Val, BPow, Pow2;
    ShiftedRightValue(a, b, k, y);
    ValTop(a);
    MulMono(Val(a), 1, Pow2(y));
    BPowAdd(k, |a| - 1 - k);
    DivModUnique(BPow(|a| - 1), BPow(k), BPow(|a| - 1 - k), 0);
    DivMono(BPow(|a| - 1), Val(a) * Pow2(y), BPow(k));
  }

  /** The loop of `bitShiftRight`. */
  method WriteShiftedFrom(dst: array<Blk>, a: array<Blk>, aLen: nat, shiftBlocks: nat, shiftBits: nat)
    requires dst != a && aLen <= a.Length && shiftBlocks <= aLen && shiftBits < N && aLen - shiftBlocks < dst.Length
    modifies dst
    ensures dst[..aLen - shiftBlocks + 1] == Shifted(a[..aLen], shiftBits)[shiftBlocks..]
  {
    hide ShiftedBlock;
    var as_ := a[..aLen];
    for i := 0 to aLen - shiftBlocks + 1
      invariant a[..aLen] == as_
      invariant forall m :: 0 <= m < i ==> dst[m] == ShiftedBlock(as_, shiftBlocks + m, shiftBits)
    {
      dst[i] := ShiftedBlock(as_, shiftBlocks + i, shiftBits);
    }
  }
}
