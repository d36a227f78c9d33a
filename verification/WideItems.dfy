/** The item loops of wide::integer: numbers modulo 2^Bits, kept in a fixed count of N-bit items. */
module WideItems {
  import opened Powers
  import opened Bits
  import opened Blocks
  import opened BlockLoops

  /** Reduction to `k` items. */
  function Mod(x: int, k: nat): (r: nat)
    ensures r < BPow(k)
  {
    x % BPow(k)
  }

  /** An item of an operand that may be narrower than the result. */
  function Item(x: seq<Blk>, i: nat): Blk {
    if i < |x| then x[i] else 0
  }

  function Resized(x: seq<Blk>, k: nat): (r: seq<Blk>)
    ensures |r| == k
  {
    seq(k, i requires 0 <= i < k => Item(x, i))
  }

  lemma ResizedVal(x: seq<Blk>, k: nat)
    ensures Val(Resized(x, k)) == Mod(Val(x), k)
    ensures |x| <= k ==> Val(Resized(x, k)) == Val(x)
  {
    hide Val, BPow;
    ValBound(x);
    if k <= |x| {
      assert Resized(x, k) == x[..k];
      ValDivMod(x, k);
      if k == |x| { assert x[..k] == x; }
    } else {
      PaddedVal(x, k, Resized(x, k));
      BPowMono(|x|, k);
      SmallMod(Val(x), BPow(k));
    }
  }

  lemma PaddedVal(x: seq<Blk>, k: nat, y: seq<Blk>)
    requires |x| <= k == |y| && y[..|x|] == x && forall i :: |x| <= i < k ==> y[i] == 0
    ensures Val(y) == Val(x)
  {
    assert At(0, |x|) == 0;
    hide Val, At;
    ValSplit(y, |x|);
    ValZeros(y[|x|..]);
  }

  function Zero(k: nat): (r: seq<Blk>)
    ensures |r| == k && Val(r) == 0
  {
    ResizedVal([], k);
    Resized([], k)
  }

  // ---- Addition and subtraction in two passes ----

  /** A number that is `v` up to one carry out of the last item. */
  lemma CarryDropped(x: seq<Blk>, v: int, c: int)
    requires v == Val(x) + c * BPow(|x|)
    ensures Val(x) == Mod(v, |x|)
  {
    hide Val, BPow;
    ValBound(x);
    ModSelfMultiple(Val(x), c, BPow(|x|));
    SmallMod(Val(x), BPow(|x|));
  }

  lemma ModOfReduced(x: int, y: int, k: nat)
    ensures Mod(x + Mod(y, k), k) == Mod(x + y, k)
    ensures Mod(x - Mod(y, k), k) == Mod(x - y, k)
    ensures Mod(Mod(x, k), k) == Mod(x, k)
  {
    hide BPow;
    ModTwice(x, BPow(k));
    ModAdd(y, x, BPow(k));
    var q := ModDifference(y, y % BPow(k), BPow(k)) by { ModTwice(y, BPow(k)); }
    ModSelfMultiple(x - y, q, BPow(k));
  }

  method AddItems(items: array<Blk>, overflows: array<bool>, rhs: seq<Blk>)
    requires items.Length == overflows.Length && forall i :: 0 <= i < overflows.Length ==> !overflows[i]
    modifies items, overflows
    ensures forall i :: 0 <= i < items.Length ==> items[i] == BlkAdd(old(items[i]), Item(rhs, i))
    ensures forall i :: 0 <= i < items.Length ==> overflows[i] == (old(items[i]) + Item(rhs, i) >= B)
  {
    var opItems := if items.Length < |rhs| then items.Length else |rhs|;
    for i := 0 to opItems
      invariant forall j :: 0 <= j < i ==> items[j] == BlkAdd(old(items[j]), rhs[j])
      invariant forall j :: 0 <= j < i ==> overflows[j] == (old(items[j]) + rhs[j] >= B)
      invariant forall j :: i <= j < items.Length ==> items[j] == old(items[j]) && !overflows[j]
    {
      items[i] := BlkAdd(items[i], rhs[i]);
      overflows[i] := items[i] < rhs[i];
    }
  }

  /** An item that overflowed in the first pass cannot overflow again. */
  method PropagateOverflows(items: array<Blk>, overflows: array<bool>, ghost lhs: seq<Blk>, ghost rhs: seq<Blk>)
    requires items.Length == overflows.Length == |lhs| == |rhs| >= 1
    requires forall i :: 0 <= i < |lhs| ==> items[i] == BlkAdd(lhs[i], rhs[i])
    requires forall i :: 0 <= i < |lhs| ==> overflows[i] == (lhs[i] + rhs[i] >= B)
    modifies items, overflows
    ensures Val(items[..]) + Carry(overflows[|lhs| - 1], |lhs|) == Val(lhs) + Val(rhs)
  {
    hide Val, At, BPow, Carry;
    FirstColumn(items[0], overflows[0], lhs, rhs);
    assert items[..1] == [items[0]];
    for i := 1 to items.Length
      invariant Val(items[..i]) + Carry(overflows[i - 1], i) == Val(lhs[..i]) + Val(rhs[..i])
      invariant forall j :: i <= j < |lhs| ==> items[j] == BlkAdd(lhs[j], rhs[j])
      invariant forall j :: i <= j < |lhs| ==> overflows[j] == (lhs[j] + rhs[j] >= B)
    {
      var c := overflows[i - 1];
      if c {
        PutBlock(items, i, BlkInc(items[i]));
        if items[i] == 0 {
          overflows[i] := true;
        }
      } else {
        PutBlock(items, i, items[i]);
      }
      CarryStep(items[i], overflows[i], lhs[i], rhs[i], c, i);
      ValTake(lhs, i);
      ValTake(rhs, i);
    }
    assert items[..items.Length] == items[..] && lhs[..|lhs|] == lhs && rhs[..|rhs|] == rhs;
  }

  lemma FirstColumn(t: Blk, c: bool, x: seq<Blk>, y: seq<Blk>)
    requires |x| >= 1 && |y| >= 1 && t as int + (if c then B else 0) == x[0] as int + y[0]
    ensures Val([t]) + Carry(c, 1) == Val(x[..1]) + Val(y[..1])
  {
    assert Val([]) == 0;
    assert x[..0] == [] && y[..0] == [] && [t][..0] == [] && [t][..1] == [t];
    hide Val, At, BPow, Carry;
    CarryStep(t, c, x[0], y[0], false, 0);
    assert Carry(false, 0) == 0 by { NoCarry(0); }
    ValTake(x, 0);
    ValTake(y, 0);
    ValTake([t], 0);
  }

  lemma NoCarry(k: nat)
    ensures Carry(false, k) == 0 && Carry(true, k) == BPow(k)
  {
  }

  method Plus(lhs: seq<Blk>, rhs: seq<Blk>) returns (res: seq<Blk>)
    requires |lhs| >= 1
    ensures |res| == |lhs| && Val(res) == Mod(Val(lhs) + Val(rhs), |lhs|)
  {
    hide Val, BPow, Mod, BlkAdd, BlkInc;
    var items := new Blk[|lhs|](i requires 0 <= i < |lhs| => lhs[i]);
    var overflows := new bool[|lhs|](_ => false);
    AddItems(items, overflows, rhs);
    PropagateOverflows(items, overflows, lhs, Resized(rhs, |lhs|));
    res := items[..];
    ResizedVal(rhs, |lhs|);
    CarryDropped(res, Val(lhs) + Val(Resized(rhs, |lhs|)), Flag(overflows[|lhs| - 1]));
    ModOfReduced(Val(lhs), Val(rhs), |lhs|);
  }

  method SubtractItems(items: array<Blk>, underflows: array<bool>, rhs: seq<Blk>)
    requires items.Length == underflows.Length && forall i :: 0 <= i < underflows.Length ==> !underflows[i]
    modifies items, underflows
    ensures forall i :: 0 <= i < items.Length ==> items[i] == BlkSub(old(items[i]), Item(rhs, i))
    ensures forall i :: 0 <= i < items.Length ==> underflows[i] == (old(items[i]) < Item(rhs, i))
  {
    var opItems := if items.Length < |rhs| then items.Length else |rhs|;
    for i := 0 to opItems
      invariant forall j :: 0 <= j < i ==> items[j] == BlkSub(old(items[j]), rhs[j])
      invariant forall j :: 0 <= j < i ==> underflows[j] == (old(items[j]) < rhs[j])
      invariant forall j :: i <= j < items.Length ==> items[j] == old(items[j]) && !underflows[j]
    {
      underflows[i] := items[i] < rhs[i];
      items[i] := BlkSub(items[i], rhs[i]);
    }
  }

  method PropagateUnderflows(items: array<Blk>, underflows: array<bool>, ghost lhs: seq<Blk>, ghost rhs: seq<Blk>)
    requires items.Length == underflows.Length == |lhs| == |rhs| >= 1
    requires forall i :: 0 <= i < |lhs| ==> items[i] == BlkSub(lhs[i], rhs[i])
    requires forall i :: 0 <= i < |lhs| ==> underflows[i] == (lhs[i] < rhs[i])
    modifies items, underflows
    ensures Val(items[..]) + Val(rhs) == Val(lhs) + Carry(underflows[|lhs| - 1], |lhs|)
  {
    hide Val, At, BPow, Carry;
    FirstBorrow(items[0], underflows[0], lhs, rhs);
    assert items[..1] == [items[0]];
    for i := 1 to items.Length
      invariant Val(items[..i]) + Val(rhs[..i]) == Val(lhs[..i]) + Carry(underflows[i - 1], i)
      invariant forall j :: i <= j < |lhs| ==> items[j] == BlkSub(lhs[j], rhs[j])
      invariant forall j :: i <= j < |lhs| ==> underflows[j] == (lhs[j] < rhs[j])
    {
      var c := underflows[i - 1];
      if c {
        if items[i] == 0 {
          underflows[i] := true;
        }
        PutBlock(items, i, BlkDec(items[i]));
      } else {
        PutBlock(items, i, items[i]);
      }
      CarryStep(lhs[i], underflows[i], items[i], rhs[i], c, i);
      ValTake(lhs, i);
      ValTake(rhs, i);
    }
    assert items[..items.Length] == items[..] && lhs[..|lhs|] == lhs && rhs[..|rhs|] == rhs;
  }

  lemma FirstBorrow(t: Blk, c: bool, x: seq<Blk>, y: seq<Blk>)
    requires |x| >= 1 && |y| >= 1 && t as int + y[0] == x[0] as int + (if c then B else 0)
    ensures Val([t]) + Val(y[..1]) == Val(x[..1]) + Carry(c, 1)
  {
    hide Val, At, BPow, Carry;
    FirstColumn(x[0], c, [t], y);
    assert [t][..1] == [t] && x[..1] == [x[0]];
  }

  method Minus(lhs: seq<Blk>, rhs: seq<Blk>) returns (res: seq<Blk>)
    requires |lhs| >= 1
    ensures |res| == |lhs| && Val(res) == Mod(Val(lhs) - Val(rhs), |lhs|)
  {
    hide Val, BPow, Mod, BlkSub, BlkDec;
    var items := new Blk[|lhs|](i requires 0 <= i < |lhs| => lhs[i]);
    var underflows := new bool[|lhs|](_ => false);
    SubtractItems(items, underflows, rhs);
    PropagateUnderflows(items, underflows, lhs, Resized(rhs, |lhs|));
    res := items[..];
    ResizedVal(rhs, |lhs|);
    CarryDropped(res, Val(lhs) - Val(Resized(rhs, |lhs|)), -(Flag(underflows[|lhs| - 1]) as int));
    ModOfReduced(Val(lhs), Val(rhs), |lhs|);
  }

  // ---- Shifts ----

  lemma ShiftFits(n: nat, blocks: nat, bits: nat, k: nat)
    requires n == N * blocks + bits && n < N * k
    ensures blocks < k
  {
    if blocks >= k {
      MulMono(N, k, blocks);
      assert false;
    }
  }

  /** What an item keeps of itself when shifted left. */
  function LowPart(x: seq<Blk>, j: nat, y: nat): Blk
    requires j < |x|
  {
    (x[j] * Pow2(y)) % B
  }

  /** What an item shifted right keeps of itself. */
  function HighPart(x: seq<Blk>, j: nat, y: nat): Blk
    requires j < |x|
  {
    DivNonneg(x[j], Pow2(y));
    DivShrinks(x[j], Pow2(y));
    x[j] / Pow2(y)
  }

  lemma JoinShifted(x: seq<Blk>, j: nat, y: nat)
    requires 1 <= j < |x| && 0 < y < N
    ensures Or(LowPart(x, j, y), HighPart(x, j - 1, N - y)) == ShiftedBlock(x, j, y)
    ensures Or(HighPart(x, j - 1, N - y), LowPart(x, j, y)) == ShiftedBlock(x, j, y)
  {
    hide Or, Pow2;
    OrComm(LowPart(x, j, y), HighPart(x, j - 1, N - y));
  }

  lemma EndShifted(x: seq<Blk>, y: nat)
    requires |x| >= 1 && 0 < y < N
    ensures LowPart(x, 0, y) == ShiftedBlock(x, 0, y)
    ensures HighPart(x, |x| - 1, N - y) == ShiftedBlock(x, |x|, y)
  {
    hide Or, Pow2;
    OrZero(LowPart(x, 0, y));
    OrZero(HighPart(x, |x| - 1, N - y));
  }

  lemma UnshiftedItem(x: seq<Blk>, j: nat)
    requires j < |x|
    ensures ShiftedBlock(x, j, 0) == x[j]
  {
    assert Pow2(0) == 1;
    hide Or, Pow2;
    SmallMod(x[j], B);
    OrZero(x[j]);
  }

  method ShiftItemsLeft(lhs: array<Blk>, rhs: seq<Blk>, s: nat, y: nat)
    requires lhs.Length == |rhs| && s < |rhs| && 0 < y < N
    modifies lhs
    ensures forall j :: s <= j < |rhs| ==> lhs[j] == ShiftedBlock(rhs, j - s, y)
  {
    hide ShiftedBlock, LowPart, HighPart, Or, Pow2;
    var k := |rhs|;
    lhs[k - 1] := LowPart(rhs, k - 1 - s, y);
    for i := 1 to k - s
      invariant lhs[k - i] == LowPart(rhs, k - i - s, y)
      invariant forall j :: k - i < j < k ==> lhs[j] == ShiftedBlock(rhs, j - s, y)
    {
      JoinShifted(rhs, k - i - s, y);
      lhs[k - i] := Or(lhs[k - i], HighPart(rhs, k - 1 - s - i, N - y));
      lhs[k - 1 - i] := LowPart(rhs, k - 1 - s - i, y);
    }
    EndShifted(rhs, y);
  }

  method ShiftLeft(rhs: seq<Blk>, n: nat) returns (res: seq<Blk>)
    requires n < N * |rhs|
    ensures |res| == |rhs| && Val(res) == Mod(Val(rhs) * Pow2(n), |rhs|)
  {
    hide Val, Pow2, At, BPow, Mod, ShiftedBlock, Shifted;
    var k := |rhs|;
    var lhs := new Blk[k];
    var s, y := SplitShift(n);
    ShiftFits(n, s, y, k);
    if y != 0 {
      ShiftItemsLeft(lhs, rhs, s, y);
    } else {
      for i := 0 to k - s
        invariant forall j :: k - i <= j < k ==> lhs[j] == ShiftedBlock(rhs, j - s, y)
      {
        lhs[k - 1 - i] := rhs[k - 1 - s - i];
        UnshiftedItem(rhs, k - 1 - s - i);
      }
    }
    for i := 0 to s
      invariant forall j :: 0 <= j < i ==> lhs[j] == 0
      invariant forall j :: s <= j < k ==> lhs[j] == ShiftedBlock(rhs, j - s, y)
    {
      lhs[i] := 0;
    }
    res := lhs[..];
    ShiftedLeftValue(rhs, res, n, s, y);
  }

  lemma ShiftedLeftValue(x: seq<Blk>, r: seq<Blk>, n: nat, s: nat, y: nat)
    requires s < |x| == |r| && y < N && n == N * s + y
    requires forall j :: 0 <= j < s ==> r[j] == 0
    requires forall j :: s <= j < |x| ==> r[j] == ShiftedBlock(x, j - s, y)
    ensures Val(r) == Mod(Val(x) * Pow2(n), |x|)
  {
    hide *;
    ShiftedSlice(x, r, s, y);
    ValZeros(r[..s]);
    ValSplit(r, s);
    ValDivMod(Shifted(x, y), |x| - s);
    ShiftedVal(x, y);
    ShiftAmounts(Val(x), y, s);
    TruncatedShift(Val(x) * Pow2(y), s, |x|);
  }

  lemma ShiftedSlice(x: seq<Blk>, r: seq<Blk>, s: nat, y: nat)
    requires s < |x| == |r| && y < N
    requires forall j :: s <= j < |x| ==> r[j] == ShiftedBlock(x, j - s, y)
    ensures Shifted(x, y)[..|x| - s] == r[s..]
  {
    hide ShiftedBlock;
  }

  lemma TruncatedShift(v: nat, s: nat, k: nat)
    requires s <= k
    ensures Mod(At(v, s), k) == At(v % BPow(k - s), s)
  {
    hide BPow;
    BPowAdd(k - s, s);
    var d, p := BPow(k - s), BPow(s);
    ShiftModulo(v, d, p);
  }

  method ShiftItemsRight(lhs: array<Blk>, rhs: seq<Blk>, s: nat, y: nat)
    requires lhs.Length == |rhs| && s < |rhs| && 0 < y < N
    modifies lhs
    ensures forall j :: 0 <= j < |rhs| - s ==> lhs[j] == ShiftedBlock(rhs, s + j + 1, N - y)
  {
    hide ShiftedBlock, LowPart, HighPart, Or, Pow2;
    var k := |rhs|;
    lhs[0] := HighPart(rhs, s, y);
    for i := 1 to k - s
      invariant lhs[i - 1] == HighPart(rhs, s + i - 1, y)
      invariant forall j :: 0 <= j < i - 1 ==> lhs[j] == ShiftedBlock(rhs, s + j + 1, N - y)
    {
      JoinShifted(rhs, s + i, N - y);
      lhs[i - 1] := Or(lhs[i - 1], LowPart(rhs, s + i, N - y));
      lhs[i] := HighPart(rhs, s + i, y);
    }
    EndShifted(rhs, N - y);
  }

  method LogicalShiftRight(lhs: array<Blk>, rhs: seq<Blk>, n: nat, s: nat, y: nat)
    requires lhs.Length == |rhs| && s < |rhs| && y < N && n == N * s + y
    modifies lhs
    ensures Val(lhs[..|rhs| - s]) == Val(rhs) / Pow2(n)
    ensures lhs[|rhs| - 1 - s] == HighPart(rhs, |rhs| - 1, y)
  {
    hide Val, Pow2, BPow, ShiftedBlock, HighPart;
    if y != 0 {
      ShiftItemsRight(lhs, rhs, s, y);
      assert lhs[..|rhs| - s] == Shifted(rhs, N - y)[s + 1..];
      ShiftedRightValue(rhs, n, s + 1, N - y);
      EndShifted(rhs, N - y);
    } else {
      for i := 0 to |rhs| - s
        invariant forall j :: 0 <= j < i ==> lhs[j] == rhs[s + j]
      {
        lhs[i] := rhs[s + i];
      }
      assert lhs[..|rhs| - s] == rhs[s..];
      ValDivMod(rhs, s);
      BPowIsPow2(s);
      WholeItem(rhs, |rhs| - 1);
    }
  }

  lemma WholeItem(x: seq<Blk>, j: nat)
    requires j < |x|
    ensures HighPart(x, j, 0) == x[j]
  {
    assert Pow2(0) == 1;
  }

  lemma HighPartBound(x: seq<Blk>, j: nat, y: nat)
    requires j < |x| && y < N
    ensures HighPart(x, j, y) < Pow2(N - y)
  {
    hide Pow2;
    Pow2Add(y, N - y);
    DivLess(x[j], Pow2(y), Pow2(N - y));
  }

  /** The `y` highest bits of an item, as `max << (N - y)`. */
  function TopMask(y: nat): Blk
    requires y <= N
  {
    ((B - 1) * Pow2(N - y)) % B
  }

  lemma SetTopBits(t: nat, y: nat)
    requires y < N && t < Pow2(N - y)
    ensures Or(t, TopMask(y)) == t + B - Pow2(N - y) < B
  {
    hide Pow2, Or;
    Pow2Add(y, N - y);
    var q, p := Pow2(y), Pow2(N - y);
    AllOnes(q, p);
    OrDisjoint(t, q - 1, N - y);
  }

  lemma AllOnes(q: int, p: int)
    requires q > 0 && p > 0
    ensures q * p > 0 && ((q * p - 1) * p) % (q * p) == (q - 1) * p
  {
    DivModUnique(q * p - 1, q, p - 1, q - 1);
    ShiftModulo(q * p - 1, q, p);
  }

  lemma {:induction false} ValOnes(x: seq<Blk>)
    requires forall i :: 0 <= i < |x| ==> x[i] == B - 1
    ensures Val(x) == BPow(|x|) - 1
  {
    hide Val, At, BPow;
    if x == [] {
      ValZeros(x);
      AtPowers(0, 0);
    } else {
      var n := |x| - 1;
      ValOnes(x[..n]);
      assert x[..n + 1] == x;
      ValTake(x, n);
      AtDiff(B, 1, n);
      AtPowers(n, 0);
    }
  }

  lemma TopItem(x: seq<Blk>, t: Blk)
    requires x != []
    ensures Val(x[|x| - 1 := t]) == Val(x) + At(t - x[|x| - 1], |x| - 1)
  {
    hide Val, BPow;
    ValUpdate(x, |x| - 1, t);
  }

  /** The sign extension of an arithmetic shift. */
  method FillSign(lhs: array<Blk>, s: nat, y: nat)
    requires s < lhs.Length && y < N && lhs[lhs.Length - 1 - s] < Pow2(N - y)
    modifies lhs
    ensures Val(lhs[..]) == old(Val(lhs[..lhs.Length - s])) + BPow(lhs.Length) - At(Pow2(N - y), lhs.Length - 1 - s)
  {
    hide Val, At, BPow, Pow2, Or, TopMask;
    var k := lhs.Length;
    ghost var low := lhs[..k - s];
    ghost var t := lhs[k - 1 - s] + B - Pow2(N - y);
    if y != 0 {
      SetTopBits(lhs[k - 1 - s], y);
      lhs[k - 1 - s] := Or(lhs[k - 1 - s], TopMask(y));
    }
    assert lhs[k - 1 - s] == t by { assert y == 0 ==> Pow2(N - y) == B; }
    assert lhs[..k - s] == low[k - 1 - s := t];
    for i := 0 to s
      invariant lhs[..k - s] == low[k - 1 - s := t]
      invariant forall j :: k - i <= j < k ==> lhs[j] == B - 1
    {
      lhs[k - 1 - i] := B - 1;
    }
    TopItem(low, t);
    ValSplit(lhs[..], k - s);
    assert lhs[..][..k - s] == lhs[..k - s];
    ValOnes(lhs[..][k - s..]);
    SignFillSum(s, k, Pow2(N - y));
  }

  lemma SignFillSum(s: nat, k: nat, p: nat)
    requires s < k
    ensures At(B - p, k - 1 - s) + At(BPow(s) - 1, k - s) == BPow(k) - At(p, k - 1 - s)
  {
    hide BPow, At;
    AtDiff(B, p, k - 1 - s);
    AtDiff(BPow(s), 1, k - s);
    AtPowers(k - 1 - s, s);
    AtPowers(k - s, s);
  }

  lemma AtPowers(j: nat, s: nat)
    ensures At(1, j) == BPow(j) && At(B, j) == BPow(j + 1) && At(BPow(s), j) == BPow(s + j) && BPow(0) == 1
  {
    BPowAdd(s, j);
  }

  method FillZeros(lhs: array<Blk>, s: nat)
    requires s < lhs.Length
    modifies lhs
    ensures Val(lhs[..]) == old(Val(lhs[..lhs.Length - s]))
  {
    hide Val;
    var k := lhs.Length;
    for i := 0 to s
      invariant lhs[..k - s] == old(lhs[..k - s])
      invariant forall j :: k - i <= j < k ==> lhs[j] == 0
    {
      lhs[k - 1 - i] := 0;
    }
    PaddedVal(old(lhs[..k - s]), k, lhs[..]);
  }

  // ---- Signs ----

  /** Half of the range: 2^(Bits-1). */
  function Half(k: nat): (r: nat)
    requires k >= 1
    ensures 2 * r == BPow(k)
  {
    assert Pow2(N) == 2 * Pow2(N - 1);
    Doubling(Pow2(N - 1), BPow(k - 1));
    Pow2(N - 1) * BPow(k - 1)
  }

  lemma Doubling(x: nat, y: nat)
    ensures 2 * (x * y) == (2 * x) * y && x * y >= 0
  {
  }

  /** The integer that the items stand for. */
  function Value(signed: bool, x: seq<Blk>): int
    requires |x| >= 1
  {
    if signed && Val(x) >= Half(|x|) then Val(x) - BPow(|x|) else Val(x)
  }

  predicate IsNegative(signed: bool, x: seq<Blk>)
    requires |x| >= 1
    ensures IsNegative(signed, x) <==> Value(signed, x) < 0
  {
    SignItem(x);
    signed && x[|x| - 1] >= Pow2(N - 1)
  }

  lemma SignItem(x: seq<Blk>)
    requires |x| >= 1
    ensures x[|x| - 1] >= Pow2(N - 1) <==> Val(x) >= Half(|x|)
    ensures Val(x) < BPow(|x|)
  {
    var k := |x| - 1;
    assert x[..k + 1] == x;
    hide Val, BPow, Pow2;
    ValBound(x);
    ValTake(x, k);
    ValBound(x[..k]);
    TopDigit(Val(x[..k]), x[k], BPow(k), Pow2(N - 1));
  }

  lemma TopDigit(low: int, t: int, p: int, h: int)
    requires 0 <= low < p
    ensures t >= h <==> low + t * p >= h * p
  {
    if t >= h {
      MulMono(p, h, t);
    } else {
      MulMono(p, t + 1, h);
    }
  }

  /** Every integer in range has exactly one representation; the others wrap. */
  lemma ValueMod(signed: bool, x: seq<Blk>)
    requires |x| >= 1
    ensures Val(x) == Mod(Value(signed, x), |x|)
    ensures if signed then -(Half(|x|) as int) <= Value(signed, x) < Half(|x|) else 0 <= Value(signed, x) < BPow(|x|)
  {
    hide Val, BPow, Half;
    SignItem(x);
    SmallMod(Val(x), BPow(|x|));
    ModSelfMultiple(Val(x), -1, BPow(|x|));
  }

  lemma ValueUnique(signed: bool, x: seq<Blk>, v: int)
    requires |x| >= 1 && Val(x) == Mod(v, |x|)
    requires if signed then -(Half(|x|) as int) <= v < Half(|x|) else 0 <= v < BPow(|x|)
    ensures Value(signed, x) == v
  {
    hide Val, BPow, Half;
    if v >= 0 {
      SmallMod(v, BPow(|x|));
    } else {
      ModSelfMultiple(v, 1, BPow(|x|));
      SmallMod(v + BPow(|x|), BPow(|x|));
    }
  }

  /** Signed shifts floor, as two's complement does. */
  method ShiftRight(signed: bool, rhs: seq<Blk>, n: nat) returns (res: seq<Blk>)
    requires n < N * |rhs|
    ensures |res| == |rhs| >= 1 && Value(signed, res) == Value(signed, rhs) / Pow2(n)
  {
    hide *;
    var k := |rhs|;
    var lhs := new Blk[k];
    var s, y := SplitShift(n);
    ShiftFits(n, s, y, k);
    LogicalShiftRight(lhs, rhs, n, s, y);
    HighPartBound(rhs, k - 1, y);
    if IsNegative(signed, rhs) {
      FillSign(lhs, s, y);
      res := lhs[..];
      NegativeIsSigned(signed, rhs);
      NegativeShift(rhs, res, n, s, y);
    } else {
      FillZeros(lhs, s);
      res := lhs[..];
      PositiveShift(signed, rhs, res, n);
    }
  }

  lemma NegativeIsSigned(signed: bool, x: seq<Blk>)
    requires |x| >= 1 && IsNegative(signed, x)
    ensures signed
  {
  }

  lemma PositiveShift(signed: bool, x: seq<Blk>, r: seq<Blk>, n: nat)
    requires |x| == |r| >= 1 && Value(signed, x) >= 0 && Val(r) == Val(x) / Pow2(n)
    ensures Value(signed, r) == Value(signed, x) / Pow2(n)
  {
    hide Val, Pow2, BPow, Half;
    SignItem(x);
    DivShrinks(Val(x), Pow2(n));
  }

  lemma NegativeShift(x: seq<Blk>, r: seq<Blk>, n: nat, s: nat, y: nat)
    requires s < |x| == |r| && Value(true, x) < 0 && y < N && n == N * s + y
    requires Val(r) == Val(x) / Pow2(n) + BPow(|x|) - At(Pow2(N - y), |x| - 1 - s)
    ensures Value(true, r) == Value(true, x) / Pow2(n)
  {
    hide Val, Pow2, BPow, Half, At;
    var k, p := |x|, At(Pow2(N - y), |x| - 1 - s);
    SignItem(x);
    SignUnit(n, s, y, k);
    NegativeQuotient(Val(x), BPow(k), Pow2(n), p);
    SignItem(r);
  }

  lemma SignUnit(n: nat, s: nat, y: nat, k: nat)
    requires s < k && y < N && n == N * s + y
    ensures At(Pow2(N - y), k - 1 - s) * Pow2(n) == BPow(k)
  {
    hide Pow2, BPow;
    BPowIsPow2(k - 1 - s);
    BPowIsPow2(k);
    Pow2Add(N - y, N * (k - 1 - s));
    ItemBits(k, s);
    Pow2Add(N - y + N * (k - 1 - s), n);
  }

  lemma ItemBits(k: int, s: int)
    ensures N * (k - 1 - s) + N + N * s == N * k
  {
  }

  /** With m = p * d: dividing v - m by d is dividing v and taking p off, and stays in range. */
  lemma NegativeQuotient(v: int, m: int, d: int, p: int)
    requires d > 0 && m == p * d && v < m <= 2 * v
    ensures (v - m) / d == v / d - p
    ensures v / d < p <= m && 2 * (p - v / d) <= m
  {
    ModSelfMultiple(v - p * d, p, d);
    var q := v / d;
    assert v == d * q + v % d;
    DivLess(v, d, p);
    assert p >= 1;
    MulMono(p, 1, d);
    HalfQuotient(v, m, d, p, q);
  }

  lemma HalfQuotient(v: int, m: int, d: int, p: int, q: int)
    requires d > 0 && m == p * d && d * q <= v < d * q + d && m <= 2 * v && 0 <= q < p
    ensures 2 * (p - q) <= m
  {
    if d >= 2 {
      MulMono(p, 2, d);
      WindowBound(v, m, d, p, q);
    } else {
      assert d * q == q && p * d == p;
    }
  }

  lemma WindowBound(v: int, m: int, d: int, p: int, q: int)
    requires d > 0 && m == p * d && v < d * q + d && m <= 2 * v
    ensures 2 * (p - q) - 2 < p
  {
    var w := 2 * (p - q) - 2;
    assert d * w == 2 * m - 2 * (d * q) - 2 * d;
    if w >= p { MulMono(d, p, w); }
  }
}
