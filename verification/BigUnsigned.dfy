/** base/libbiginteger: NumberlikeArray and BigUnsigned. */
module BigUnsigneds {
  import opened Powers
  import opened Bits
  import opened Blocks
  import opened BlockLoops

  datatype CmpRes = Less | Equal | Greater

  class BigUnsigned {
    var len: nat
    var blk: array<Blk>

    /** The canonical-form invariant. The capacity is `blk.Length`. */
    ghost predicate Valid()
      reads this, blk
    {
      len <= blk.Length && Canonical(blk[..len])
    }

    ghost function Value(): nat
      reads this, blk
      requires len <= blk.Length
    {
      Val(blk[..len])
    }

    /** Distinct objects own distinct buffers. */
    ghost predicate Apart(x: BigUnsigned)
      reads this, x
    {
      this != x ==> blk != x.blk
    }

    // ---- Storage (NumberlikeArray) ----

    constructor ()
      ensures Valid() && Value() == 0 && fresh(blk)
    {
      len := 0;
      blk := new Blk[0];
    }

    constructor Copy(x: BigUnsigned)
      requires x.Valid()
      ensures Valid() && Value() == x.Value() && fresh(blk)
    {
      len := x.len;
      blk := new Blk[x.len];
      new;
      CopyBlocks(blk, x.blk, len);
      assert blk[..len] == x.blk[..len];
    }

    /** May destroy the contents. */
    method Allocate(c: nat)
      modifies this`blk
      ensures blk.Length >= c
      ensures if c <= old(blk.Length) then blk == old(blk) else fresh(blk)
    {
      if c > blk.Length {
        blk := new Blk[c];
      }
    }

    /** Keeps the contents. */
    method AllocateAndCopy(c: nat)
      requires len <= blk.Length
      modifies this`blk
      ensures blk.Length >= c && len <= blk.Length
      ensures if c <= old(blk.Length) then blk == old(blk) else fresh(blk)
      ensures blk[..len] == old(blk[..len])
    {
      if c > blk.Length {
        var oldBlk := blk;
        blk := new Blk[c];
        CopyBlocks(blk, oldBlk, len);
      }
    }

    method Assign(x: BigUnsigned)
      requires x.Valid() && Apart(x)
      modifies this, blk
      ensures Valid() && Value() == old(x.Value())
      ensures blk == old(blk) || fresh(blk)
    {
      if this == x { return; }
      len := x.len;
      Allocate(len);
      CopyBlocks(blk, x.blk, len);
      assert blk[..len] == x.blk[..len];
    }

    /** Assignment from a primitive integer that fits in a block. */
    method AssignPrimitive(x: Blk)
      modifies this, blk
      ensures Valid() && Value() == x
      ensures blk == old(blk) || fresh(blk)
    {
      hide Val;
      if x == 0 {
        len := 0;
      } else {
        len := 1;
        Allocate(1);
        blk[0] := x;
      }
      ValSmall(blk[..len]);
    }

    /** Assignment of blocks that may have leading zeros. */
    method AssignBlocks(x: BigUnsigned)
      requires x.len <= x.blk.Length && this != x && blk != x.blk
      modifies this, blk
      ensures len == x.len <= blk.Length && blk[..len] == x.blk[..x.len]
      ensures blk == old(blk) || fresh(blk)
    {
      len := x.len;
      Allocate(len);
      CopyBlocks(blk, x.blk, len);
    }

    method ZapLeadingZeros()
      requires len <= blk.Length
      modifies this`len
      ensures Valid() && Value() == old(Value()) && len <= old(len)
    {
      while len > 0 && blk[len - 1] == 0
        invariant len <= old(len)
        invariant Val(blk[..len]) == old(Value())
      {
        assert blk[..len][..len - 1] == blk[..len - 1];
        len := len - 1;
      }
    }

    /** "Zap possible leading zero": drops at most one block. */
    method ZapLeadingZero()
      requires 0 < len <= blk.Length
      modifies this`len
      ensures len == old(len) - (if blk[old(len) - 1] == 0 then 1 else 0)
      ensures Value() == old(Value())
      ensures Valid() <==> old(Canonical(blk[..len]) || Canonical(blk[..len - 1]))
    {
      if blk[len - 1] == 0 {
        DropTopZero(blk[..len]);
        assert blk[..len][..len - 1] == blk[..len - 1];
        len := len - 1;
      } else {
        assert Canonical(blk[..len]);
      }
    }

    // ---- Arithmetic ----

    method Add(a: BigUnsigned, b: BigUnsigned)
      requires a.Valid() && b.Valid() && Apart(a) && Apart(b)
      modifies this, blk
      ensures Valid() && Value() == old(a.Value() + b.Value())
      ensures blk == old(blk) || fresh(blk)
      decreases if this == a || this == b then 1 else 0
    {
      if this == a || this == b {
        var tmpThis := new BigUnsigned();
        tmpThis.Add(a, b);
        Assign(tmpThis);
        return;
      }
      if a.len == 0 {
        Assign(b);
        return;
      } else if b.len == 0 {
        Assign(a);
        return;
      }
      if a.len >= b.len { AddShorter(a, b); } else { AddShorter(b, a); }
    }

    /** The rest of `add`: `a2` is the longer input. */
    method AddShorter(a2: BigUnsigned, b2: BigUnsigned)
      requires a2.Valid() && b2.Valid() && a2.len >= b2.len > 0
      requires this != a2 && this != b2 && blk != a2.blk && blk != b2.blk
      modifies this, blk
      ensures Valid() && Value() == a2.Value() + b2.Value()
      ensures blk == old(blk) || fresh(blk)
    {
      hide Val, BPow, At;
      ghost var as_, bs := a2.blk[..a2.len], b2.blk[..b2.len];
      ValTop(as_);
      Pow2At(0, a2.len);
      len := a2.len + 1;
      Allocate(len);
      var carry := AddColumns(blk, a2.blk, b2.blk, b2.len);
      carry := CopyWithCarry(blk, a2.blk, b2.len, a2.len, carry);
      assert Val(blk[..a2.len]) + Carry(carry, a2.len) == Val(as_) + Val(bs);
      if carry {
        PutBlock(blk, a2.len, 1);
      } else {
        len := len - 1;
        CanonicalTop(blk[..len]);
      }
    }

    method Subtract(a: BigUnsigned, b: BigUnsigned) returns (ok: bool)
      requires a.Valid() && b.Valid() && Apart(a) && Apart(b)
      modifies this, blk
      ensures ok <==> old(a.Value() >= b.Value())
      ensures ok ==> Valid() && Value() == old(a.Value() - b.Value())
      ensures blk == old(blk) || fresh(blk)
      ensures !ok ==> if this == a || this == b || a.len < b.len
                      then len == old(len) && blk == old(blk) && blk[..] == old(blk[..])
                      else Valid() && Value() == 0
      decreases if this == a || this == b then 1 else 0
    {
      if this == a || this == b {
        var tmpThis := new BigUnsigned();
        ok := tmpThis.Subtract(a, b);
        if ok { Assign(tmpThis); }
        return;
      }
      if b.len == 0 {
        Assign(a);
        return true;
      } else if a.len < b.len {
        ValTop(b.blk[..b.len]);
        CanonicalLength(a.blk[..a.len], b.len - 1);
        return false;
      }
      ok := SubtractInto(a, b);
    }

    method SubtractInto(a: BigUnsigned, b: BigUnsigned) returns (ok: bool)
      requires a.Valid() && b.Valid() && a.len >= b.len > 0
      requires this != a && this != b && blk != a.blk && blk != b.blk
      modifies this, blk
      ensures ok <==> a.Value() >= b.Value()
      ensures Valid() && Value() == if ok then a.Value() - b.Value() else 0
      ensures blk == old(blk) || fresh(blk)
    {
      len := a.len;
      Allocate(len);
      ok := SubtractBlocks(blk, a.blk, a.len, b.blk, b.len);
      if ok { ZapLeadingZeros(); } else { len := 0; }
    }

    method Multiply(a: BigUnsigned, b: BigUnsigned)
      requires a.Valid() && b.Valid() && Apart(a) && Apart(b)
      modifies this, blk
      ensures Valid() && Value() == old(a.Value() * b.Value())
      ensures blk == old(blk) || fresh(blk)
      decreases if this == a || this == b then 1 else 0
    {
      if this == a || this == b {
        var tmpThis := new BigUnsigned();
        tmpThis.Multiply(a, b);
        Assign(tmpThis);
        return;
      }
      if a.len == 0 || b.len == 0 {
        len := 0;
        return;
      }
      MultiplyInto(a, b);
    }

    method MultiplyInto(a: BigUnsigned, b: BigUnsigned)
      requires a.Valid() && b.Valid() && a.len > 0 && b.len > 0
      requires this != a && this != b && blk != a.blk && blk != b.blk
      modifies this, blk
      ensures Valid() && Value() == a.Value() * b.Value()
      ensures blk == old(blk) || fresh(blk)
    {
      hide Val;
      ghost var as_, bs := a.blk[..a.len], b.blk[..b.len];
      len := a.len + b.len;
      Allocate(len);
      MultiplyBlocks(blk, a.blk, a.len, b.blk, b.len);
      ProductTop(as_, bs, blk[..len]);
      assert blk[..len][..len - 1] == blk[..len - 1];
      ZapLeadingZero();
    }

    /** Mods this by `b` and stores the quotient in `q`; division by zero leaves this and zeroes `q`. */
    method DivideWithRemainder(b: BigUnsigned, q: BigUnsigned) returns (ok: bool)
      requires Valid() && b.Valid() && Apart(b) && Apart(q) && q.Apart(b)
      modifies this, blk, q, q.blk
      ensures ok <==> this != q
      ensures !ok ==> len == old(len) && blk == old(blk) && blk[..] == old(blk[..])
      ensures ok ==> Valid() && q.Valid() && Apart(q)
      ensures ok && old(b.Value()) == 0 ==> Value() == old(Value()) && q.Value() == 0
      ensures ok && old(b.Value()) > 0 ==>
                Value() == old(Value()) % old(b.Value()) && q.Value() == old(Value()) / old(b.Value())
      ensures blk == old(blk) || fresh(blk)
      ensures q.blk == old(q.blk) || fresh(q.blk)
      decreases if this == b || q == b then 1 else 0
    {
      if this == q { return false; }
      ok := true;
      if this == b || q == b {
        var tmpB := new BigUnsigned.Copy(b);
        var _ := DivideWithRemainder(tmpB, q);
        return;
      }
      if b.len == 0 {
        q.len := 0;
        return;
      }
      ValTop(b.blk[..b.len]);
      if len < b.len {
        CanonicalLength(blk[..len], b.len - 1);
        SmallMod(Value(), b.Value());
        q.len := 0;
        return;
      }
      DivideInto(b, q);
      DivModUnique(old(Value()), b.Value(), q.Value(), Value());
    }

    /** Makes sure there is an extra zero block just past the value. */
    method ExtendByZero()
      requires len <= blk.Length
      modifies this, blk
      ensures len == old(len) + 1 <= blk.Length && blk[len - 1] == 0
      ensures Val(blk[..len]) == old(Value())
      ensures blk == old(blk) || fresh(blk)
    {
      AllocateAndCopy(len + 1);
      len := len + 1;
      PutBlock(blk, len - 1, 0);
    }

    /** The rest of `divideWithRemainder`. */
    method DivideInto(b: BigUnsigned, q: BigUnsigned)
      requires Valid() && b.Valid() && len >= b.len > 0
      requires this != b && this != q && q != b && blk != b.blk && blk != q.blk && q.blk != b.blk
      modifies this, blk, q, q.blk
      ensures Valid() && q.Valid() && blk != q.blk
      ensures old(Value()) == Value() + b.Value() * q.Value() && Value() < b.Value()
      ensures blk == old(blk) || fresh(blk)
      ensures q.blk == old(q.blk) || fresh(q.blk)
    {
      hide Val, BPow, At;
      ghost var as_, bs := blk[..len], b.blk[..b.len];
      var origLen := len;
      ExtendByZero();
      q.len := origLen - b.len + 1;
      q.Allocate(q.len);
      DividendBound(as_, bs);
      assert b.blk[..b.len] == bs;
      DivideBlocks(blk, origLen, b.blk, b.len, q.blk, q.len);
      ghost var r, qs := blk[..len], q.blk[..q.len];
      assert b.blk[..b.len] == bs;
      QuotientTop(as_, bs, qs, Val(r));
      assert qs[..q.len - 1] == q.blk[..q.len - 1];
      q.ZapLeadingZero();
      ZapLeadingZeros();
    }

    // ---- Increment, decrement ----

    method Increment()
      requires Valid()
      modifies this, blk
      ensures Valid() && Value() == old(Value()) + 1
      ensures blk == old(blk) || fresh(blk)
    {
      ghost var s := blk[..len];
      if s != [] { ValTop(s); }
      assert At(1, len) == BPow(len);
      hide Val, BPow, At;
      var carry := IncrementBlocks(blk, len);
      if carry {
        AllocateAndCopy(len + 1);
        len := len + 1;
        PutBlock(blk, len - 1, 1);
      } else {
        CanonicalTop(blk[..len]);
      }
    }

    method Decrement() returns (ok: bool)
      requires Valid()
      modifies this, blk
      ensures blk == old(blk)
      ensures ok <==> old(Value()) > 0
      ensures Valid() && Value() == if ok then old(Value()) - 1 else 0
    {
      if len == 0 { return false; }
      ValTop(blk[..len]);
      hide Val, BPow;
      DecrementBlocks(blk, len);
      PredecessorTop(blk[..len]);
      assert blk[..len][..len - 1] == blk[..len - 1];
      ZapLeadingZero();
      ok := true;
    }

    // ---- Comparison and bits ----

    method CompareTo(x: BigUnsigned) returns (r: CmpRes)
      requires Valid() && x.Valid()
      ensures r.Less? <==> Value() < x.Value()
      ensures r.Equal? <==> Value() == x.Value()
      ensures r.Greater? <==> Value() > x.Value()
    {
      hide Val, BPow;
      ghost var s, t := blk[..len], x.blk[..x.len];
      ValBound(s);
      ValBound(t);
      if len < x.len {
        ValTop(t);
        BPowMono(len, x.len - 1);
        return Less;
      } else if len > x.len {
        ValTop(s);
        BPowMono(x.len, len - 1);
        return Greater;
      }
      var i := len;
      while i > 0
        invariant 0 <= i <= len && forall m :: i <= m < len ==> s[m] == t[m]
      {
        i := i - 1;
        assert s[i + 1..] == t[i + 1..];
        if blk[i] == x.blk[i] {
          continue;
        } else if blk[i] > x.blk[i] {
          ValOrder(t, s, i);
          return Greater;
        } else {
          ValOrder(s, t, i);
          return Less;
        }
      }
      assert s == t;
      return Equal;
    }

    /** `==` compares lengths and blocks; for canonical numbers that is equality of values. */
    method Equals(x: BigUnsigned) returns (r: bool)
      requires Valid() && x.Valid()
      ensures r <==> Value() == x.Value()
    {
      if Value() == x.Value() { CanonicalUnique(blk[..len], x.blk[..x.len]); }
      if len != x.len { return false; }
      for i := 0 to len
        invariant blk[..i] == x.blk[..i]
      {
        if blk[i] != x.blk[i] {
          assert blk[..len][i] != x.blk[..len][i];
          return false;
        }
      }
      return true;
    }

    method BitLength() returns (n: nat)
      requires Valid()
      ensures Value() < Pow2(n)
      ensures n > 0 ==> Pow2(n - 1) <= Value()
      ensures n == 0 <==> Value() == 0
    {
      if len == 0 { return 0; }
      ghost var s := blk[..len];
      ValTop(s);
      var leftmostBlock, leftmostBlockLen := blk[len - 1], 0;
      ghost var top := blk[len - 1];
      while leftmostBlock != 0
        invariant leftmostBlock == top / Pow2(leftmostBlockLen)
        invariant leftmostBlockLen > 0 ==> Pow2(leftmostBlockLen - 1) <= top
      {
        DivDiv(top, Pow2(leftmostBlockLen), 2);
        DivPositive(top, Pow2(leftmostBlockLen));
        leftmostBlock := leftmostBlock / 2;
        leftmostBlockLen := leftmostBlockLen + 1;
      }
      DivZero(top, Pow2(leftmostBlockLen));
      var blocksBelow := len - 1;
      n := leftmostBlockLen + N * blocksBelow;
      TopBlockBits(s, blocksBelow, leftmostBlockLen);
    }

    /** Bit `bi`, which is worth 2^bi; bits beyond the number's length are 0. */
    method GetBit(bi: nat) returns (r: bool)
      requires Valid()
      ensures r <==> Bit(Value(), bi)
    {
      var i, j := bi / N, bi % N;
      DivModIdentity(bi, N);
      NoBits(j);
      hide *;
      var block: Blk := if i >= len then 0 else blk[i];
      r := And(block, Pow2(j)) != 0;
      AndBit(block, j);
      BitOfBlock(blk[..len], i, j);
    }

    // ---- Shifts ----

    /** Throws only for the shift amount whose negation overflows. */
    method BitShiftLeft(a: BigUnsigned, b: int) returns (ok: bool)
      requires a.Valid() && Apart(a) && -0x8000_0000 <= b < 0x8000_0000
      modifies this, blk
      ensures ok <==> b != -0x8000_0000
      ensures !ok ==> len == old(len) && blk == old(blk) && blk[..] == old(blk[..])
      ensures ok ==> len <= blk.Length
      ensures ok && b >= 0 ==> Value() == old(a.Value()) * Pow2(b)
      ensures ok && b >= 0 ==> (Valid() <==> old(a.Value()) != 0 || b < N)
      ensures ok && b < 0 ==> Valid() && Value() == old(a.Value()) / Pow2(-b)
      ensures blk == old(blk) || fresh(blk)
      decreases if this == a then 1 else 0
    {
      if this == a {
        var tmpThis := new BigUnsigned();
        ok := tmpThis.BitShiftLeft(a, b);
        if ok { AssignBlocks(tmpThis); }
        return;
      }
      if b < 0 {
        if b == -0x8000_0000 { return false; }
        ShiftRightInto(a, -b);
      } else {
        ShiftLeftInto(a, b);
      }
      ok := true;
    }

    method BitShiftRight(a: BigUnsigned, b: int) returns (ok: bool)
      requires a.Valid() && Apart(a) && -0x8000_0000 <= b < 0x8000_0000
      modifies this, blk
      ensures ok <==> b != -0x8000_0000
      ensures !ok ==> len == old(len) && blk == old(blk) && blk[..] == old(blk[..])
      ensures ok ==> len <= blk.Length
      ensures ok && b >= 0 ==> Valid() && Value() == old(a.Value()) / Pow2(b)
      ensures ok && b < 0 ==> Value() == old(a.Value()) * Pow2(-b)
      ensures ok && b < 0 ==> (Valid() <==> old(a.Value()) != 0 || -b < N)
      ensures blk == old(blk) || fresh(blk)
      decreases if this == a then 1 else 0
    {
      if this == a {
        var tmpThis := new BigUnsigned();
        ok := tmpThis.BitShiftRight(a, b);
        if ok { AssignBlocks(tmpThis); }
        return;
      }
      if b < 0 {
        if b == -0x8000_0000 { return false; }
        ShiftLeftInto(a, -b);
      } else {
        ShiftRightInto(a, b);
      }
      ok := true;
    }

    method ShiftLeftInto(a: BigUnsigned, b: nat)
      requires a.Valid() && this != a && blk != a.blk
      modifies this, blk
      ensures len <= blk.Length && Value() == a.Value() * Pow2(b)
      ensures Valid() <==> a.Value() != 0 || b < N
      ensures blk == old(blk) || fresh(blk)
    {
      hide Val, BPow, At, Pow2, Shifted, Canonical;
      ghost var as_ := a.blk[..a.len];
      var shiftBlocks, shiftBits := SplitShift(b);
      ZeroIsEmpty(as_);
      len := a.len + shiftBlocks + 1;
      Allocate(len);
      WriteShifted(blk, a.blk, a.len, shiftBlocks, shiftBits);
      ghost var s := blk[..len];
      assert s[..shiftBlocks] == blk[..shiftBlocks] && s[shiftBlocks..] == blk[shiftBlocks..len];
      ShiftLeftResult(as_, b, shiftBlocks, shiftBits, s);
      assert blk[..len][..len - 1] == blk[..len - 1];
      ZapLeadingZero();
    }

    method ShiftRightInto(a: BigUnsigned, b: nat)
      requires a.Valid() && this != a && blk != a.blk
      modifies this, blk
      ensures Valid() && Value() == a.Value() / Pow2(b)
      ensures blk == old(blk) || fresh(blk)
    {
      ghost var as_ := a.blk[..a.len];
      var rightShiftBlocks, leftShiftBits := RoundUpShift(b);
      if rightShiftBlocks >= a.len + 1 {
        ShiftedAway(as_, b, rightShiftBlocks, leftShiftBits);
        len := 0;
        return;
      }
      hide *;
      len := a.len + 1 - rightShiftBlocks;
      Allocate(len);
      WriteShiftedFrom(blk, a.blk, a.len, rightShiftBlocks, leftShiftBits);
      ShiftRightResult(as_, b, rightShiftBlocks, leftShiftBits, blk[..len]);
      assert blk[..len][..len - 1] == blk[..len - 1];
      ZapLeadingZero();
    }
  }

  lemma ZeroIsEmpty(s: seq<Blk>)
    requires Canonical(s)
    ensures s == [] <==> Val(s) == 0
  {
    if s != [] { ValTop(s); }
  }

  /** Zero shifted left by one whole block is still zero, but holds a leading zero block. */
  method ZeroShiftedByABlock() returns (z: BigUnsigned)
    ensures fresh(z) && fresh(z.blk) && z.len <= z.blk.Length
    ensures z.Value() == 0 && !z.Valid()
  {
    hide Val, Canonical, Pow2;
    var zero := new BigUnsigned();
    z := new BigUnsigned();
    z.ShiftLeftInto(zero, N);
  }
}
