/** Mapping a hash to one of n buckets so that growing n moves values only into new buckets. */
module ConsistentHashing {
  import opened Powers
  import opened Bits

  // ---- Bit counts ----

  /** The number of digits of `v` in base two. */
  function BitCount(v: nat): (r: nat)
    ensures v == 0 <==> r == 0
    ensures v > 0 ==> Pow2(r - 1) <= v < Pow2(r)
  {
    if v == 0 then 0 else
      assert Pow2(0) == 1;
      1 + BitCount(v / 2)
  }

  function PopCount(v: nat): nat {
    if v == 0 then 0 else v % 2 + PopCount(v / 2)
  }

  /** The positions of the one bits. */
  function OneBits(v: nat): set<nat> {
    set i: nat | i < BitCount(v) && Bit(v, i)
  }

  lemma BitsAbove(v: nat, i: nat)
    requires i >= BitCount(v)
    ensures !Bit(v, i)
  {
    if v > 0 { Pow2Mono(BitCount(v), i); }
    SmallMod(0, Pow2(i));
    DivModUnique(v, Pow2(i), 0, v);
  }

  /** A position is in the set exactly when the bit there is one. */
  lemma InOneBits(v: nat, i: nat)
    ensures i in OneBits(v) <==> Bit(v, i)
  {
    if i >= BitCount(v) { BitsAbove(v, i); }
  }

  function Shifted(s: set<nat>): set<nat> {
    set i | i in s :: i + 1
  }

  lemma {:induction false} ShiftedSize(s: set<nat>)
    ensures |Shifted(s)| == |s|
    decreases |s|
  {
    if s == {} {
    } else {
      var i :| i in s;
      ShiftedSize(s - {i});
      forall j: nat ensures j in Shifted(s) <==> j in Shifted(s - {i}) || j == i + 1 {
        InShifted(s, j);
        InShifted(s - {i}, j);
      }
      InShifted(s - {i}, i + 1);
      assert Shifted(s) == Shifted(s - {i}) + {i + 1};
    }
  }

  lemma InShifted(s: set<nat>, j: nat)
    ensures j in Shifted(s) <==> j >= 1 && j - 1 in s
  {
    if j >= 1 && j - 1 in s { assert (j - 1) + 1 in Shifted(s); }
  }

  /** PopCount counts the one bits. */
  lemma {:induction false} PopCountIsOneBits(v: nat)
    ensures PopCount(v) == |OneBits(v)|
  {
    hide BitCount, Bit;
    if v == 0 {
      assert OneBits(v) == {};
    } else {
      PopCountIsOneBits(v / 2);
      var rest := Shifted(OneBits(v / 2));
      ShiftedSize(OneBits(v / 2));
      forall i: nat ensures i in OneBits(v) <==> i in rest || (i == 0 && v % 2 == 1) {
        InOneBits(v, i);
        LowestBit(v);
        if i > 0 {
          BitHalf(v, i - 1);
          InOneBits(v / 2, i - 1);
          InShifted(OneBits(v / 2), i);
        }
      }
      assert OneBits(v) == if v % 2 == 1 then rest + {0} else rest;
    }
  }

  // ---- The scheme, for words of w bits ----

  function PowerOf2(k: nat, w: nat): nat {
    Pow2(k) % Pow2(w)
  }

  function SelectAOrBBlock(a: nat, b: nat, cBlock: nat): nat {
    if PopCount(cBlock) % 2 == 0 then a else b
  }

  /** The bucket among 2^k, given k2 = 2^k. */
  function ForPowersOf2(w: nat, a: nat, b: nat, c: nat, k2: nat): nat
    requires k2 > 0
  {
    var cBlock := And(c, k2 - 1);
    if cBlock < 2 then cBlock
    else
      var y2 := PowerOf2(BitCount(cBlock) - 1, w);
      y2 + And(SelectAOrBBlock(a, b, cBlock), if y2 == 0 then 0 else y2 - 1)
  }

  /** The bits that the blocks do not use, packed into 64 bits; `d << shift` wraps at 32. */
  function GetAsteriskBits(w: nat, a: nat, b: nat, c: nat, d: nat, k: nat): nat
    requires 1 <= k <= w
  {
    var shift := w - k;
    var word := Pow2(64);
    var res1 := Or((d * Pow2(shift)) % Pow2(32), Shr(c, k));
    var res2 := Or((res1 * Pow2(shift + 1)) % word, Shr(b, k - 1));
    Or((res2 * Pow2(shift + 1)) % word, Shr(a, k - 1))
  }

  /** The unused bits as one number: those of d, c, b and a, the highest first. */
  function Packed(a: nat, b: nat, dc: nat, k: nat, m: nat): nat
    requires k >= 1
  {
    Join(Join(dc, Shr(b, k - 1), m), Shr(a, k - 1), m)
  }

  function Join(x: nat, y: nat, m: nat): nat {
    x * Pow2(m) + y
  }

  datatype Result = Bucket(id: nat) | Failure(error: string)

  function Impl(w: nat, a: nat, b: nat, c: nat, d: nat, n: nat): Result
    requires w >= 1 && n <= Pow2(w - 1)
  {
    if n == 0 then Failure("Can't map consistently to a zero values.")
    else Bucket(BucketOf(w, a, b, c, d, n))
  }

  /** The k with 2^(k-1) < n <= 2^k. */
  lemma BlockBits(w: nat, n: nat)
    requires w >= 1 && 2 <= n <= Pow2(w - 1)
    ensures var k := BitCount(n - 1);
            1 <= k < w && Pow2(k - 1) < n <= Pow2(k) && PowerOf2(k, w) == Pow2(k) && PowerOf2(k - 1, w) == Pow2(k - 1)
  {
    hide Pow2;
    var k := BitCount(n - 1);
    if k > w - 1 { Pow2Mono(w - 1, k - 1); }
    Pow2StrictMono(k, w);
    Pow2StrictMono(k - 1, w);
    SmallMod(Pow2(k), Pow2(w));
    SmallMod(Pow2(k - 1), Pow2(w));
  }

  function BucketOf(w: nat, a: nat, b: nat, c: nat, d: nat, n: nat): nat
    requires w >= 1 && 1 <= n <= Pow2(w - 1)
  {
    if n == 1 then 0
    else
      var k := BitCount(n - 1);
      BlockBits(w, n);
      var k2, k21 := PowerOf2(k, w), PowerOf2(k - 1, w);
      var largeValue := ForPowersOf2(w, a, b, c, k2);
      if largeValue < n then largeValue
      else
        var largeValue2 := SmoothMove(GetAsteriskBits(w, a, b, c, d, k), largeValue, k2) + k21;
        if largeValue2 < n then largeValue2 else ForPowersOf2(w, a, b, c, k21)
  }

  /** Where between 2^(k-1) and 2^k a value of the large scheme moves meanwhile. */
  function SmoothMove(bits: nat, largeValue: nat, k2: nat): nat
    requires largeValue >= 1 && k2 >= 1
  {
    DivisorPositive(largeValue);
    var s := bits % (largeValue * (largeValue + 1));
    DivNonneg(s, k2);
    s / k2
  }

  lemma DivisorPositive(x: nat)
    requires x >= 1
    ensures x * (x + 1) > 0
  {
    MulMono(x, 1, x + 1);
  }

  // ---- The unused bits ----

  /** A shift and an or, in a word of `w` bits, append bits. */
  lemma AppendBits(x: nat, y: nat, m: nat, w: nat)
    requires m <= w && y < Pow2(m)
    ensures Or((x * Pow2(m)) % Pow2(w), y) == Low(Join(x, y, m), w)
  {
    hide Pow2, Or;
    Pow2Add(w - m, m);
    var d, p := Pow2(w - m), Pow2(m);
    var z := x % d;
    ShiftModulo(x, d, p);
    OrDisjoint(y, z, m);
    AppendedModulo(x, d, p, y);
  }

  lemma JoinLow(x: nat, y: nat, m: nat, w: nat)
    ensures Low(Join(Low(x, w), y, m), w) == Low(Join(x, y, m), w)
  {
    hide Pow2;
    var p, q := Pow2(w), Pow2(m);
    ModMul(x, q, p);
    ModAdd(x % p * q, y, p);
    ModAdd(x * q, y, p);
  }

  lemma AppendedModulo(x: nat, d: nat, p: nat, y: nat)
    requires d > 0 && p > 0 && y < p
    ensures d * p > 0 && (x * p + y) % (d * p) == x % d * p + y
  {
    var q, r := x / d, x % d;
    DivModIdentity(x, d);
    ShiftSplitParts(x, d, p, q, r);
    MulMono(d, 1, p);
    DivModUnique(x * p + y, d * p, q, r * p + y);
  }

  lemma ShrBelow(x: nat, j: nat, m: nat)
    requires x < Pow2(j + m)
    ensures Shr(x, j) < Pow2(m)
  {
    hide Pow2;
    Pow2Add(j, m);
    DivLess(x, Pow2(j), Pow2(m));
  }

  /** The packing wraps `d` at 32 bits and the whole at 64; with 16-bit words nothing is lost. */
  lemma AsteriskBits(w: nat, a: nat, b: nat, c: nat, d: nat, k: nat)
    requires 1 <= k < w <= 32 && a < Pow2(w) && b < Pow2(w) && c < Pow2(w) && d < Pow2(w)
    ensures var dc, m := Join(d, Shr(c, k), w - k), w - k + 1;
            && GetAsteriskBits(w, a, b, c, d, k) == Packed(a, b, Low(dc, 32), k, m) % Pow2(64)
            && (w <= 16 ==> GetAsteriskBits(w, a, b, c, d, k) == Packed(a, b, dc, k, m))
  {
    hide Pow2, Or, Shr, Join, Low;
    var s, m := w - k, w - k + 1;
    var dc, b', a' := Join(d, Shr(c, k), s), Shr(b, k - 1), Shr(a, k - 1);
    ShrBelow(c, k, s);
    ShrBelow(b, k - 1, m);
    ShrBelow(a, k - 1, m);
    AppendBits(d, Shr(c, k), s, 32);
    var x := Low(dc, 32);
    AppendBits(x, b', m, 64);
    AppendBits(Low(Join(x, b', m), 64), a', m, 64);
    JoinLow(Join(x, b', m), a', m, 64);
    LowIs(Packed(a, b, x, k, m), 64);
    if w <= 16 { ShortWords(w, k, d, Shr(c, k), b', a'); }
  }

  lemma LowIs(x: nat, k: nat)
    ensures Low(x, k) == x % Pow2(k) && (x < Pow2(k) ==> Low(x, k) == x)
  {
    hide Pow2;
    if x < Pow2(k) { SmallMod(x, Pow2(k)); }
  }

  lemma ShortWords(w: nat, k: nat, d: nat, c': nat, b': nat, a': nat)
    requires 1 <= k < w <= 16 && d < Pow2(w) && c' < Pow2(w - k) && b' < Pow2(w - k + 1) && a' < Pow2(w - k + 1)
    ensures var dc, m := Join(d, c', w - k), w - k + 1;
            Low(dc, 32) == dc && Low(Join(Join(dc, b', m), a', m), 64) == Join(Join(dc, b', m), a', m)
  {
    hide Pow2, Join, Low;
    var s, m := w - k, w - k + 1;
    var dc := Join(d, c', s);
    Concatenated(d, c', w, s);
    Pow2Mono(w + s, 32);
    LowIs(dc, 32);
    Concatenated(dc, b', w + s, m);
    Concatenated(Join(dc, b', m), a', w + s + m, m);
    Pow2Mono(w + s + m + m, 64);
    LowIs(Join(Join(dc, b', m), a', m), 64);
  }

  lemma Concatenated(x: nat, y: nat, i: nat, j: nat)
    requires x < Pow2(i) && y < Pow2(j)
    ensures Join(x, y, j) < Pow2(i + j)
  {
    hide Pow2;
    Pow2Add(i, j);
    DigitBound(y, x, Pow2(j), Pow2(i));
  }

  // ---- Buckets among powers of two ----

  lemma FitsWidth(y: nat, w: nat)
    requires y < w
    ensures PowerOf2(y, w) == Pow2(y)
  {
    hide Pow2;
    Pow2StrictMono(y, w);
    SmallMod(Pow2(y), Pow2(w));
  }

  lemma MaskIsLow(x: nat, k: nat)
    ensures And(x, Pow2(k) - 1) == Low(x, k)
  {
    hide And, Pow2;
    AndMask(x, k);
  }

  /** What the large scheme computes: c picks the group [2^y, 2^(y+1)), a or b the place in it. */
  lemma LargeScheme(w: nat, a: nat, b: nat, c: nat, k: nat)
    requires k < w
    ensures var g, r := Low(c, k), ForPowersOf2(w, a, b, c, Pow2(k));
            && (g < 2 ==> r == g)
            && (g >= 2 ==>
                 var y, word := BitCount(g) - 1, if PopCount(g) % 2 == 0 then a else b;
                 r == Pow2(y) + Low(word, y))
  {
    hide Pow2, And, BitCount, PopCount, Low, PowerOf2;
    MaskIsLow(c, k);
    var g := Low(c, k);
    if g >= 2 {
      var y := BitCount(g) - 1;
      if y >= k { Pow2Mono(k, y); }
      FitsWidth(y, w);
      MaskIsLow(SelectAOrBBlock(a, b, g), y);
    }
  }

  /** The same, by the number of one bits of the c-block. */
  lemma PowerBuckets(w: nat, a: nat, b: nat, c: nat, k: nat)
    requires k < w
    ensures var g, r := c % Pow2(k), ForPowersOf2(w, a, b, c, Pow2(k));
            && (g < 2 ==> r == g)
            && (g >= 2 ==>
                 exists y: nat :: Pow2(y) <= g < Pow2(y + 1)
                   && r == Pow2(y) + (if |OneBits(g)| % 2 == 0 then a else b) % Pow2(y))
  {
    hide Pow2, ForPowersOf2, BitCount, PopCount;
    LargeScheme(w, a, b, c, k);
    var g := Low(c, k);
    PopCountIsOneBits(g);
    if g >= 2 {
      var y := BitCount(g) - 1;
      assert Pow2(y) <= g < Pow2(y + 1);
    }
  }

  /** The bucket and the c-block have the same number of digits. */
  lemma BucketGroup(w: nat, a: nat, b: nat, c: nat, k: nat, y: nat)
    requires k < w
    ensures Pow2(y) <= ForPowersOf2(w, a, b, c, Pow2(k)) < Pow2(y + 1) <==> Pow2(y) <= Low(c, k) < Pow2(y + 1)
    ensures ForPowersOf2(w, a, b, c, Pow2(k)) < Pow2(k)
  {
    hide *;
    LargeScheme(w, a, b, c, k);
    var g := Low(c, k);
    if g >= 2 {
      var j := BitCount(g) - 1;
      Pow2Next(j);
      Pow2Next(y);
      if j < y { Pow2Mono(j + 1, y); } else if j > y { Pow2Mono(y + 1, j); }
      if j >= k { Pow2Mono(k, j); } else { Pow2Mono(j + 1, k); }
    }
  }

  /** While the bit k of c is clear, both schemes agree. */
  lemma SameScheme(w: nat, a: nat, b: nat, c: nat, k: nat)
    requires k + 1 < w && ForPowersOf2(w, a, b, c, Pow2(k + 1)) < Pow2(k)
    ensures ForPowersOf2(w, a, b, c, Pow2(k + 1)) == ForPowersOf2(w, a, b, c, Pow2(k))
  {
    hide Pow2, ForPowersOf2;
    BucketGroup(w, a, b, c, k + 1, k);
    LargeScheme(w, a, b, c, k + 1);
    LargeScheme(w, a, b, c, k);
    BucketOfBit(w, a, b, c, k);
  }

  lemma BucketOfBit(w: nat, a: nat, b: nat, c: nat, k: nat)
    requires k + 1 < w && ForPowersOf2(w, a, b, c, Pow2(k + 1)) < Pow2(k)
    ensures c % Pow2(k + 1) == c % Pow2(k)
  {
    hide Pow2, ForPowersOf2;
    ModNextBit(c, k);
    BucketGroup(w, a, b, c, k + 1, k);
  }

  // ---- Consistency ----

  lemma InRange(w: nat, a: nat, b: nat, c: nat, d: nat, n: nat)
    requires w >= 1 && 1 <= n <= Pow2(w - 1)
    ensures BucketOf(w, a, b, c, d, n) < n
  {
    hide Pow2, ForPowersOf2, PowerOf2, GetAsteriskBits;
    if n > 1 {
      BlockBits(w, n);
      BucketGroup(w, a, b, c, BitCount(n - 1) - 1, 0);
    }
  }

  lemma BitCountUnique(v: nat, k: nat)
    requires k >= 1 && Pow2(k - 1) <= v < Pow2(k)
    ensures BitCount(v) == k
  {
    hide Pow2, BitCount;
    var j := BitCount(v);
    if j < k { Pow2Mono(j, k - 1); } else if j > k { Pow2Mono(k, j - 1); }
  }

  /** One more bucket: a value stays where it was, or moves to the new bucket. */
  lemma GrowByOne(w: nat, a: nat, b: nat, c: nat, d: nat, n: nat)
    requires w >= 1 && 1 <= n < Pow2(w - 1)
    ensures BucketOf(w, a, b, c, d, n + 1) == BucketOf(w, a, b, c, d, n) || BucketOf(w, a, b, c, d, n + 1) == n
  {
    hide *;
    InRange(w, a, b, c, d, n + 1);
    InRange(w, a, b, c, d, n);
    if n > 1 {
      BlockBits(w, n);
      if n < Pow2(BitCount(n - 1)) {
        GrowWithinScheme(w, a, b, c, d, n);
      } else {
        GrowPastPower(w, a, b, c, d, n);
      }
    }
  }

  lemma GrowWithinScheme(w: nat, a: nat, b: nat, c: nat, d: nat, n: nat)
    requires w >= 1 && 2 <= n < Pow2(w - 1) && n < Pow2(BitCount(n - 1))
    ensures BucketOf(w, a, b, c, d, n + 1) == BucketOf(w, a, b, c, d, n) || BucketOf(w, a, b, c, d, n + 1) == n
  {
    hide Pow2, ForPowersOf2, PowerOf2, GetAsteriskBits, SmoothMove, BitCount;
    BlockBits(w, n);
    BlockBits(w, n + 1);
    BitCountUnique(n, BitCount(n - 1));
  }

  /** From 2^j to 2^j + 1 buckets: the large scheme becomes the short one. */
  lemma GrowPastPower(w: nat, a: nat, b: nat, c: nat, d: nat, n: nat)
    requires w >= 1 && 2 <= n < Pow2(w - 1) && n == Pow2(BitCount(n - 1))
    ensures BucketOf(w, a, b, c, d, n + 1) == BucketOf(w, a, b, c, d, n) || BucketOf(w, a, b, c, d, n + 1) == n
  {
    hide Pow2, ForPowersOf2, PowerOf2, GetAsteriskBits, SmoothMove, BitCount;
    var j := BitCount(n - 1);
    BlockBits(w, n);
    BlockBits(w, n + 1);
    Pow2Next(j);
    BitCountUnique(n, j + 1);
    BucketGroup(w, a, b, c, j, 0);
    if ForPowersOf2(w, a, b, c, Pow2(j + 1)) < Pow2(j) { SameScheme(w, a, b, c, j); }
  }

  /** With 2^k buckets only the large scheme is used. */
  lemma AtPower(w: nat, a: nat, b: nat, c: nat, d: nat, k: nat)
    requires k < w
    ensures 1 <= Pow2(k) <= Pow2(w - 1) && BucketOf(w, a, b, c, d, Pow2(k)) == ForPowersOf2(w, a, b, c, Pow2(k))
  {
    hide Pow2, ForPowersOf2, PowerOf2, BitCount, SmoothMove, GetAsteriskBits;
    Pow2Mono(k, w - 1);
    SmallPowers();
    BucketGroup(w, a, b, c, k, 0);
    if k >= 1 {
      Pow2Next(k - 1);
      BlockBits(w, Pow2(k));
      Pow2Mono(0, k - 1);
      BitCountUnique(Pow2(k) - 1, k);
    }
  }

  /** Growing by any amount moves values only into the new buckets. */
  lemma {:induction false} Consistent(w: nat, a: nat, b: nat, c: nat, d: nat, n1: nat, n2: nat)
    requires w >= 1 && 1 <= n1 <= n2 <= Pow2(w - 1)
    ensures BucketOf(w, a, b, c, d, n2) == BucketOf(w, a, b, c, d, n1) || BucketOf(w, a, b, c, d, n2) >= n1
    decreases n2 - n1
  {
    hide *;
    if n1 == n2 {
    } else {
      Consistent(w, a, b, c, d, n1, n2 - 1);
      GrowByOne(w, a, b, c, d, n2 - 1);
    }
  }

  // ---- The public functions ----

  /** The low and the high half of a word of 2w bits. */
  function Halves(x: nat, w: nat): (nat, nat) {
    (Low(x, w), Shr(x, w))
  }

  lemma HalvesMakeWhole(x: nat, w: nat)
    requires x < Pow2(2 * w)
    ensures var (lo, hi) := Halves(x, w); lo < Pow2(w) && hi < Pow2(w) && x == hi * Pow2(w) + lo
  {
    hide Pow2, Shr, Low;
    ShrBelow(x, w, w);
    SplitAt(x, w);
  }

  /** The four words a, b, c and d of a hash of 4w bits. */
  function Words(w: nat, x: nat): (nat, nat, nat, nat) {
    var (lo, hi) := Halves(x, 2 * w);
    (Halves(lo, w).0, Halves(lo, w).1, Halves(hi, w).0, Halves(hi, w).1)
  }

  /** Every bit of the hash is in exactly one word, a lowest. */
  lemma WordsMakeWhole(w: nat, x: nat)
    requires x < Pow2(4 * w)
    ensures var (a, b, c, d) := Words(w, x);
            && a < Pow2(w) && b < Pow2(w) && c < Pow2(w) && d < Pow2(w)
            && x == (d * Pow2(w) + c) * Pow2(2 * w) + (b * Pow2(w) + a)
  {
    hide Pow2, Halves;
    HalvesMakeWhole(x, 2 * w);
    HalvesMakeWhole(Halves(x, 2 * w).0, w);
    HalvesMakeWhole(Halves(x, 2 * w).1, w);
  }

  function Hash64(x: nat, n: nat): Result
    requires x < Pow2(64) && n <= 32768
  {
    PublicLimits();
    var (a, b, c, d) := Words(16, x);
    Impl(16, a, b, c, d, n)
  }

  function Hash128(lo: nat, hi: nat, n: nat): Result
    requires lo < Pow2(64) && hi < Pow2(64) && n <= 0x8000_0000
  {
    PublicLimits();
    Impl(32, Halves(lo, 32).0, Halves(lo, 32).1, Halves(hi, 32).0, Halves(hi, 32).1, n)
  }

  lemma PublicLimits()
    ensures Pow2(15) == 32768 && Pow2(31) == 0x8000_0000
  {
    hide Pow2;
    WordSizes();
    Pow2Next(15);
    Pow2Next(31);
  }

  /** The contract of the header, for both functions and every range of bucket counts. */
  lemma HashContract(x: nat, lo: nat, hi: nat, n1: nat, n2: nat)
    requires x < Pow2(64) && lo < Pow2(64) && hi < Pow2(64)
    ensures Hash64(x, 0).Failure? && Hash128(lo, hi, 0).Failure?
    ensures 1 <= n1 <= n2 <= 32768 ==>
              var r1, r2 := Hash64(x, n1), Hash64(x, n2);
              r1.Bucket? && r2.Bucket? && r1.id < n1 && r2.id < n2 && (r2.id == r1.id || r2.id >= n1)
    ensures 1 <= n1 <= n2 <= 0x8000_0000 ==>
              var r1, r2 := Hash128(lo, hi, n1), Hash128(lo, hi, n2);
              r1.Bucket? && r2.Bucket? && r1.id < n1 && r2.id < n2 && (r2.id == r1.id || r2.id >= n1)
  {
    hide Pow2, BucketOf, Words, Halves;
    PublicLimits();
    if 1 <= n1 <= n2 <= 32768 {
      var (a, b, c, d) := Words(16, x);
      InRange(16, a, b, c, d, n1);
      InRange(16, a, b, c, d, n2);
      Consistent(16, a, b, c, d, n1, n2);
    }
    if 1 <= n1 <= n2 <= 0x8000_0000 {
      var (a, b, c, d) := (Halves(lo, 32).0, Halves(lo, 32).1, Halves(hi, 32).0, Halves(hi, 32).1);
      InRange(32, a, b, c, d, n1);
      InRange(32, a, b, c, d, n2);
      Consistent(32, a, b, c, d, n1, n2);
    }
  }

  // ---- Equal shares ----

  ghost function Sum(n: nat, f: nat -> nat): nat {
    if n == 0 then 0 else Sum(n - 1, f) + f(n - 1)
  }

  /** A sum whose terms are `v` on an interval and zero elsewhere. */
  lemma {:induction false} SumInterval(n: nat, f: nat -> nat, lo: nat, hi: nat, v: nat)
    requires lo <= hi <= n && forall i: nat :: i < n ==> f(i) == if lo <= i < hi then v else 0
    ensures Sum(n, f) == Copies(hi - lo, v) == (hi - lo) * v
  {
    hide Sum, Copies;
    CopiesStep(hi - lo, v);
    SumStep(n, f);
    if n == 0 {
    } else {
      if lo < hi == n {
        SumInterval(n - 1, f, lo, hi - 1, v);
        CopiesStep(hi - 1 - lo, v);
      } else if hi < n {
        SumInterval(n - 1, f, lo, hi, v);
      } else {
        SumInterval(n - 1, f, 0, 0, v);
      }
    }
  }

  function Copies(n: nat, v: nat): nat { n * v }

  lemma CopiesStep(n: nat, v: nat)
    ensures Copies(0, v) == 0 && Copies(n + 1, v) == Copies(n, v) + v && Copies(n, v) == n * v
  {
  }

  lemma SumStep(n: nat, f: nat -> nat)
    ensures Sum(0, f) == 0 && (n > 0 ==> Sum(n, f) == Sum(n - 1, f) + f(n - 1))
  {
  }

  lemma {:induction false} SumSplit(m: nat, n: nat, f: nat -> nat, g: nat -> nat)
    requires forall i: nat :: i < n ==> g(i) == f(m + i)
    ensures Sum(m + n, f) == Sum(m, f) + Sum(n, g)
  {
    if n == 0 {
    } else {
      SumSplit(m, n - 1, f, g);
    }
  }

  lemma {:induction false} SumSame(n: nat, f: nat -> nat, g: nat -> nat)
    requires forall i: nat :: i < n ==> f(i) == g(i)
    ensures Sum(n, f) == Sum(n, g)
  {
    if n == 0 {
    } else {
      SumSame(n - 1, f, g);
    }
  }

  lemma {:induction false} SumPlus(n: nat, f: nat -> nat, g: nat -> nat, h: nat -> nat)
    requires forall i: nat :: i < n ==> h(i) == f(i) + g(i)
    ensures Sum(n, h) == Sum(n, f) + Sum(n, g)
  {
    if n == 0 {
    } else {
      SumPlus(n - 1, f, g, h);
    }
  }

  ghost function RowSum(p: nat, f: nat -> nat, h: nat): nat {
    Sum(p, l => f(h * p + l))
  }

  /** A sum over q rows of p terms each. */
  lemma {:induction false} SumRows(q: nat, p: nat, n: nat, f: nat -> nat, rows: nat -> nat)
    requires n == q * p && forall h: nat :: h < q ==> rows(h) == RowSum(p, f, h)
    ensures Sum(n, f) == Sum(q, rows)
  {
    hide Sum;
    SumStep(0, f);
    SumStep(q, rows);
    if q == 0 {
    } else {
      MulDistrib(p, q - 1, 1);
      SumRows(q - 1, p, n - p, f, rows);
      SumSplit(n - p, p, f, l => f((q - 1) * p + l));
    }
  }

  predicate Residue(i: nat, p: nat, r: nat)
    requires p > 0
  {
    i % p == r
  }

  lemma ResidueOnce(m: nat, p: nat, i: nat, r: nat)
    requires i < p
    ensures Residue(m * p + i, p, r) <==> i == r
  {
    DivModUnique(m * p + i, p, m, i);
  }

  /** Every residue modulo p is met equally often. */
  lemma {:induction false} SumResidue(m: nat, p: nat, n: nat, f: nat -> nat, r: nat, v: nat)
    requires r < p && n == m * p && forall i: nat :: i < n ==> f(i) == if Residue(i, p, r) then v else 0
    ensures Sum(n, f) == m * v
  {
    hide Sum, Residue;
    if m == 0 {
      SumInterval(n, f, 0, 0, v);
    } else {
      MulDistrib(p, m - 1, 1);
      MulDistrib(v, m - 1, 1);
      SumResidue(m - 1, p, n - p, f, r, v);
      OneBlock(m - 1, p, n - p, f, r, v);
    }
  }

  lemma OneBlock(m: nat, p: nat, n: nat, f: nat -> nat, r: nat, v: nat)
    requires r < p && n == m * p
    requires forall i: nat :: i < n + p ==> f(i) == if Residue(i, p, r) then v else 0
    ensures Sum(n + p, f) == Sum(n, f) + v
  {
    hide Sum, Residue;
    var g: nat -> nat := i => f(n + i);
    SumSplit(n, p, f, g);
    forall i: nat | i < p ensures g(i) == if r <= i < r + 1 then v else 0 {
      ResidueOnce(m, p, i, r);
    }
    SumInterval(p, g, r, r + 1, v);
  }

  /** Whether the words a, b and c map to bucket j of 2^k. */
  function Hit(w: nat, a: nat, b: nat, c: nat, k: nat, j: nat): nat {
    if ForPowersOf2(w, a, b, c, Pow2(k)) == j then 1 else 0
  }

  ghost function HitsOver(w: nat, b: nat, c: nat, k: nat, j: nat): nat {
    Sum(Pow2(w), a => Hit(w, a, b, c, k, j))
  }

  ghost function HitsFor(w: nat, c: nat, k: nat, j: nat): nat {
    Sum(Pow2(w), b => HitsOver(w, b, c, k, j))
  }

  /** The number of word triples that map to bucket j. */
  ghost function Hits(w: nat, k: nat, j: nat): nat {
    Sum(Pow2(w), c => HitsFor(w, c, k, j))
  }

  /** What one c-block contributes. */
  function Share(g: nat, w: nat, j: nat): nat {
    if g < 2 then if g == j then Pow2(w) * Pow2(w) else 0
    else
      var y := BitCount(g) - 1;
      if y <= w && Pow2(y) <= j < Pow2(y + 1) then Pow2(w) * Pow2(w - y) else 0
  }

  lemma HitsForOne(w: nat, c: nat, k: nat, j: nat)
    requires k < w
    ensures HitsFor(w, c, k, j) == Share(Low(c, k), w, j)
  {
    hide Pow2, ForPowersOf2, BitCount, PopCount, Sum, Low;
    var g := Low(c, k);
    if g < 2 {
      ConstantHits(w, c, k, j, if g == j then 1 else 0) by {
        forall a: nat, b: nat ensures Hit(w, a, b, c, k, j) == if g == j then 1 else 0 {
          LargeScheme(w, a, b, c, k);
        }
      }
    } else {
      GroupHits(w, c, k, j, BitCount(g) - 1);
    }
  }

  lemma ConstantHits(w: nat, c: nat, k: nat, j: nat, v: nat)
    requires forall a: nat, b: nat :: Hit(w, a, b, c, k, j) == v
    ensures HitsFor(w, c, k, j) == Pow2(w) * (Pow2(w) * v)
  {
    hide Pow2, Hit, Sum;
    var p := Pow2(w);
    forall b: nat ensures HitsOver(w, b, c, k, j) == p * v {
      SumInterval(p, a => Hit(w, a, b, c, k, j), 0, p, v);
    }
    SumInterval(p, b => HitsOver(w, b, c, k, j), 0, p, p * v);
  }

  /** In the group of y digits, each place is taken by an equal share of the words a or b. */
  lemma GroupHits(w: nat, c: nat, k: nat, j: nat, y: nat)
    requires k < w && 2 <= Low(c, k) && y == BitCount(Low(c, k)) - 1
    ensures y <= k && HitsFor(w, c, k, j) == if Pow2(y) <= j < Pow2(y + 1) then Pow2(w) * Pow2(w - y) else 0
  {
    hide Pow2, BitCount, PopCount, Sum, Hit, Residue, Low;
    if y >= k { Pow2Mono(k, y); }
    Pow2Next(y);
    forall a: nat, b: nat ensures Hit(w, a, b, c, k, j) == GroupHit(a, b, Low(c, k), y, j) {
      HitInGroup(w, a, b, c, k, j, y);
    }
    if !(Pow2(y) <= j < Pow2(y + 1)) {
      ConstantHits(w, c, k, j, 0);
    } else {
      PlacesInGroup(w, c, k, j, y);
    }
  }

  function GroupHit(a: nat, b: nat, g: nat, y: nat, j: nat): nat {
    if Pow2(y) <= j < Pow2(y + 1) && Residue(SelectAOrBBlock(a, b, g), Pow2(y), j - Pow2(y)) then 1 else 0
  }

  lemma HitInGroup(w: nat, a: nat, b: nat, c: nat, k: nat, j: nat, y: nat)
    requires k < w && 2 <= Low(c, k) && y == BitCount(Low(c, k)) - 1
    ensures Hit(w, a, b, c, k, j) == GroupHit(a, b, Low(c, k), y, j)
  {
    hide Pow2, ForPowersOf2, BitCount, PopCount;
    LargeScheme(w, a, b, c, k);
    Pow2Next(y);
  }

  lemma PlacesInGroup(w: nat, c: nat, k: nat, j: nat, y: nat)
    requires y <= w && Pow2(y) <= j < Pow2(y + 1)
    requires forall a: nat, b: nat :: Hit(w, a, b, c, k, j) == GroupHit(a, b, Low(c, k), y, j)
    ensures HitsFor(w, c, k, j) == Pow2(w) * Pow2(w - y)
  {
    hide Pow2, PopCount, Sum, Hit, Residue, Low;
    var p, q, m, r := Pow2(w), Pow2(y), Pow2(w - y), j - Pow2(y);
    Pow2Add(w - y, y);
    Pow2Next(y);
    if PopCount(Low(c, k)) % 2 == 0 {
      forall b: nat ensures HitsOver(w, b, c, k, j) == m {
        SumResidue(m, q, p, a => Hit(w, a, b, c, k, j), r, 1);
      }
      SumInterval(p, b => HitsOver(w, b, c, k, j), 0, p, m);
    } else {
      forall b: nat ensures HitsOver(w, b, c, k, j) == if Residue(b, q, r) then p else 0 {
        SumInterval(p, a => Hit(w, a, b, c, k, j), 0, p, if Residue(b, q, r) then 1 else 0);
      }
      SumResidue(m, q, p, b => HitsOver(w, b, c, k, j), r, p);
    }
  }

  lemma SharesSum(w: nat, k: nat, j: nat, f: nat -> nat)
    requires k <= w && j < Pow2(k) && forall g: nat :: g < Pow2(k) ==> f(g) == Share(g, w, j)
    ensures Sum(Pow2(k), f) == Pow2(w) * Pow2(w)
  {
    hide Pow2, BitCount, Sum, Share;
    var n, p := Pow2(k), Pow2(w);
    if j < 2 {
      forall g: nat | g < n ensures f(g) == if j <= g < j + 1 then p * p else 0 { LowShare(g, w, j); }
      SumInterval(n, f, j, j + 1, p * p);
    } else {
      var y := BitCount(j) - 1;
      if y >= k { Pow2Mono(k, y); }
      Pow2Mono(y + 1, k);
      Pow2Next(y);
      Pow2Add(w - y, y);
      var q, v := Pow2(y), p * Pow2(w - y);
      GroupTimesShare(q, p, Pow2(w - y));
      forall g: nat | g < n ensures f(g) == if q <= g < 2 * q then v else 0 { GroupShare(g, w, j, y); }
      SumInterval(n, f, q, 2 * q, v);
    }
  }

  lemma GroupTimesShare(q: int, p: int, x: int)
    requires p == x * q
    ensures q * (p * x) == p * p
  {
    MulRotate(q, p, x);
    Regroup(x, p, q);
  }

  lemma LowShare(g: nat, w: nat, j: nat)
    requires j < 2
    ensures Share(g, w, j) == if g == j then Pow2(w) * Pow2(w) else 0
  {
    hide BitCount;
    if g >= 2 {
      AtLeastTwoBits(g, BitCount(g));
      Pow2Mono(1, BitCount(g) - 1);
      SmallPowers();
    }
  }

  lemma GroupShare(g: nat, w: nat, j: nat, y: nat)
    requires j >= 2 && y == BitCount(j) - 1 && y <= w
    ensures Share(g, w, j) == if Pow2(y) <= g < Pow2(y + 1) then Pow2(w) * Pow2(w - y) else 0
  {
    hide BitCount, Pow2;
    SmallPowers();
    if y == 0 { assert false; }
    Pow2Mono(1, y);
    if g >= 2 {
      if Pow2(y) <= g < Pow2(y + 1) { BitCountUnique(g, y + 1); }
      var x := BitCount(g) - 1;
      if Pow2(x) <= j < Pow2(x + 1) { BitCountUnique(j, x + 1); }
    }
  }

  /** Among 2^k buckets every bucket gets the same number of the word triples. */
  lemma TripleShares(w: nat, k: nat, j: nat)
    requires k < w && j < Pow2(k)
    ensures Hits(w, k, j) == Pow2(w - k) * (Pow2(w) * Pow2(w))
  {
    hide Pow2, HitsFor, BitCount, Sum, Share, RowSum;
    var q, p, v := Pow2(w - k), Pow2(k), Pow2(w) * Pow2(w);
    Pow2Add(w - k, k);
    var f: nat -> nat := c => HitsFor(w, c, k, j);
    forall h: nat | h < q ensures RowSum(p, f, h) == v { TripleRow(w, k, j, h, f); }
    SumRows(q, p, Pow2(w), f, h => RowSum(p, f, h));
    SumInterval(q, h => RowSum(p, f, h), 0, q, v);
  }

  lemma TripleRow(w: nat, k: nat, j: nat, h: nat, f: nat -> nat)
    requires k < w && j < Pow2(k) && forall c: nat :: f(c) == HitsFor(w, c, k, j)
    ensures RowSum(Pow2(k), f, h) == Pow2(w) * Pow2(w)
  {
    hide Pow2, HitsFor, BitCount, Sum, Share, Low;
    var p := Pow2(k);
    var row: nat -> nat := l => f(h * p + l);
    forall l: nat | l < p ensures row(l) == Share(l, w, j) {
      HitsForOne(w, h * p + l, k, j);
      JoinParts(h, l, k);
    }
    SharesSum(w, k, j, row);
  }

  // ---- Every hash ----

  /** The bucket of a hash of 4w bits. */
  function Place(w: nat, x: nat, n: nat): nat
    requires w >= 1 && 1 <= n <= Pow2(w - 1)
  {
    var (a, b, c, d) := Words(w, x);
    BucketOf(w, a, b, c, d, n)
  }

  function Mark(p: bool): nat {
    if p then 1 else 0
  }

  ghost function TallyOf(size: nat, place: nat -> nat, j: nat): nat {
    Sum(size, x => Mark(place(x) == j))
  }

  ghost function RangeOf(size: nat, place: nat -> nat, lo: nat, hi: nat): nat {
    Sum(size, x => Mark(lo <= place(x) < hi))
  }

  /** How many of the hashes of 4w bits reach bucket j. */
  ghost function Tally(w: nat, n: nat, j: nat): nat
    requires w >= 1 && 1 <= n <= Pow2(w - 1)
  {
    TallyOf(Pow2(4 * w), x => Place(w, x, n), j)
  }

  /** How many of them change their bucket between n1 and n2. */
  ghost function Moves(w: nat, n1: nat, n2: nat): nat
    requires w >= 1 && 1 <= n1 <= n2 <= Pow2(w - 1)
  {
    Sum(Pow2(4 * w), x => Mark(Place(w, x, n1) != Place(w, x, n2)))
  }

  ghost predicate IsPowerOf2(n: nat) {
    exists k: nat :: n == Pow2(k)
  }

  /** Buckets with equal tallies make up their range. */
  lemma {:induction false} RangeEqual(size: nat, place: nat -> nat, lo: nat, hi: nat, v: nat)
    requires lo <= hi && forall j: nat :: lo <= j < hi ==> TallyOf(size, place, j) == v
    ensures RangeOf(size, place, lo, hi) == (hi - lo) * v
    decreases hi
  {
    hide Sum, TallyOf;
    if lo == hi {
      var f: nat -> nat := x => Mark(lo <= place(x) < hi);
      forall x: nat ensures f(x) == 0 { assert f(x) == Mark(lo <= place(x) < hi); }
      SumInterval(size, f, 0, size, 0);
    } else {
      RangeEqual(size, place, lo, hi - 1, v);
      RangeStep(size, place, lo, hi);
      MulDistrib(v, hi - 1 - lo, 1);
    }
  }

  lemma RangeStep(size: nat, place: nat -> nat, lo: nat, hi: nat)
    requires lo < hi
    ensures RangeOf(size, place, lo, hi) == RangeOf(size, place, lo, hi - 1) + TallyOf(size, place, hi - 1)
  {
    hide Sum;
    SumPlus(size, x => Mark(lo <= place(x) < hi - 1), x => Mark(place(x) == hi - 1),
            x => Mark(lo <= place(x) < hi));
  }

  lemma PlaceInRange(w: nat, x: nat, n: nat)
    requires w >= 1 && 1 <= n <= Pow2(w - 1)
    ensures Place(w, x, n) < n
  {
    hide Pow2, BucketOf, Halves;
    var (a, b, c, d) := Words(w, x);
    InRange(w, a, b, c, d, n);
  }

  /** A hash changes its bucket exactly when it goes to one of the new ones. */
  lemma MovesIntoNew(w: nat, x: nat, n1: nat, n2: nat)
    requires w >= 1 && 1 <= n1 <= n2 <= Pow2(w - 1)
    ensures Place(w, x, n1) != Place(w, x, n2) <==> n1 <= Place(w, x, n2) < n2
  {
    hide Pow2, BucketOf, Halves;
    var (a, b, c, d) := Words(w, x);
    PlaceInRange(w, x, n1);
    PlaceInRange(w, x, n2);
    Consistent(w, a, b, c, d, n1, n2);
  }

  lemma MovesAreRange(w: nat, n1: nat, n2: nat)
    requires w >= 1 && 1 <= n1 <= n2 <= Pow2(w - 1)
    ensures Moves(w, n1, n2) == RangeOf(Pow2(4 * w), x => Place(w, x, n2), n1, n2)
  {
    hide Pow2, Sum, Place;
    var place: nat -> nat := x => Place(w, x, n2);
    forall x: nat
      ensures Mark(Place(w, x, n1) != Place(w, x, n2)) == Mark(n1 <= place(x) < n2)
    {
      MovesIntoNew(w, x, n1, n2);
    }
    SumSame(Pow2(4 * w), x => Mark(Place(w, x, n1) != Place(w, x, n2)),
            x => Mark(n1 <= place(x) < n2));
  }

  // ---- The share of one bucket among 2^k ----

  /** Whether the low half of a hash, with the word c, maps to bucket j of 2^k. */
  function LowHit(w: nat, lo: nat, c: nat, k: nat, j: nat): nat {
    Hit(w, Low(lo, w), Shr(lo, w), c, k, j)
  }

  lemma PlaceAtPower(w: nat, hi: nat, lo: nat, k: nat, j: nat)
    requires k < w && lo < Pow2(2 * w)
    ensures 1 <= Pow2(k) <= Pow2(w - 1)
    ensures Mark(Place(w, hi * Pow2(2 * w) + lo, Pow2(k)) == j) == LowHit(w, lo, Low(hi, w), k, j)
  {
    hide Pow2, BucketOf, ForPowersOf2, Low, Shr;
    JoinParts(hi, lo, 2 * w);
    AtPower(w, Low(lo, w), Shr(lo, w), Low(hi, w), Shr(hi, w), k);
  }

  lemma LowHalfHits(w: nat, c: nat, k: nat, j: nat)
    ensures Sum(Pow2(2 * w), lo => LowHit(w, lo, c, k, j)) == HitsFor(w, c, k, j)
  {
    hide Pow2, Sum, Hit, Low, Shr;
    var p := Pow2(w);
    Pow2Add(w, w);
    var f: nat -> nat := lo => LowHit(w, lo, c, k, j);
    forall b: nat ensures RowSum(p, f, b) == HitsOver(w, b, c, k, j) {
      forall a: nat | a < p ensures f(b * p + a) == Hit(w, a, b, c, k, j) { JoinParts(b, a, w); }
      SumSame(p, l => f(b * p + l), a => Hit(w, a, b, c, k, j));
    }
    SumRows(p, p, Pow2(2 * w), f, b => HitsOver(w, b, c, k, j));
  }

  lemma HighHalfHits(w: nat, k: nat, j: nat)
    ensures Sum(Pow2(2 * w), hi => HitsFor(w, Low(hi, w), k, j)) == Pow2(w) * Hits(w, k, j)
  {
    hide Pow2, Sum, HitsFor, Low;
    var p, v := Pow2(w), Hits(w, k, j);
    Pow2Add(w, w);
    var f: nat -> nat := hi => HitsFor(w, Low(hi, w), k, j);
    forall d: nat ensures RowSum(p, f, d) == v {
      forall c: nat | c < p ensures f(d * p + c) == HitsFor(w, c, k, j) { JoinParts(d, c, w); }
      SumSame(p, l => f(d * p + l), c => HitsFor(w, c, k, j));
    }
    SumRows(p, p, Pow2(2 * w), f, d => RowSum(p, f, d));
    SumInterval(p, d => RowSum(p, f, d), 0, p, v);
  }

  /** Among 2^k buckets, exactly 2^(4w-k) of the hashes of 4w bits reach each bucket. */
  lemma PowerShare(w: nat, k: nat, j: nat)
    requires k < w && j < Pow2(k)
    ensures 1 <= Pow2(k) <= Pow2(w - 1) && Tally(w, Pow2(k), j) == Pow2(4 * w - k)
  {
    hide Pow2, Sum, HitsFor, Low, LowHit, Place, Hits;
    Pow2Mono(k, w - 1);
    var p := Pow2(2 * w);
    Pow2Add(2 * w, 2 * w);
    var place: nat -> nat := x => Place(w, x, Pow2(k));
    var f: nat -> nat := x => Mark(place(x) == j);
    forall hi: nat ensures RowSum(p, f, hi) == HitsFor(w, Low(hi, w), k, j) {
      var c := Low(hi, w);
      forall lo: nat | lo < p ensures f(hi * p + lo) == LowHit(w, lo, c, k, j) { PlaceAtPower(w, hi, lo, k, j); }
      SumSame(p, l => f(hi * p + l), lo => LowHit(w, lo, c, k, j));
      LowHalfHits(w, c, k, j);
    }
    SumRows(p, p, Pow2(4 * w), f, hi => HitsFor(w, Low(hi, w), k, j));
    HighHalfHits(w, k, j);
    TripleShares(w, k, j);
    SharePower(w, k);
  }

  lemma SharePower(w: nat, k: nat)
    requires k < w
    ensures Pow2(w) * (Pow2(w - k) * (Pow2(w) * Pow2(w))) == Pow2(4 * w - k)
  {
    hide Pow2;
    Pow2Add(w, w);
    Pow2Add(w - k, 2 * w);
    Pow2Add(w, 3 * w - k);
  }

  // ---- The contract on probabilities ----

  /** A divisor of a power of two is one. */
  lemma {:induction false} DivisorOfPower(n: nat, v: nat, e: nat)
    requires n * v == Pow2(e)
    ensures IsPowerOf2(n)
    decreases e
  {
    if n == 1 {
      assert Pow2(0) == 1;
    } else if e == 0 {
      if n >= 2 && v >= 1 { MulMono(n, 1, v); }
      assert false;
    } else if n % 2 == 0 {
      MulAssoc(2, n / 2, v);
      DivisorOfPower(n / 2, v, e - 1);
      var k: nat :| n / 2 == Pow2(k);
      assert n == Pow2(k + 1);
    } else {
      OddTimes(n, v, Pow2(e - 1));
      MulSwapTwo(n, v / 2);
      DivisorOfPower(n, v / 2, e - 1);
    }
  }

  lemma OddTimes(n: nat, v: nat, p: nat)
    requires n % 2 == 1 && n * v == 2 * p
    ensures v % 2 == 0
  {
    ModProduct(n, 1, v, v, 2);
  }

  /** All buckets are equally likely exactly when their number is a power of two. */
  lemma EqualShares(w: nat, n: nat)
    requires w >= 1 && 1 <= n <= Pow2(w - 1)
    ensures (forall i: nat, j: nat :: i < n && j < n ==> Tally(w, n, i) == Tally(w, n, j)) <==> IsPowerOf2(n)
    ensures IsPowerOf2(n) ==> forall j: nat :: j < n ==> n * Tally(w, n, j) == Pow2(4 * w)
  {
    hide Pow2, Tally;
    if IsPowerOf2(n) {
      forall j: nat | j < n ensures n * Tally(w, n, j) == Pow2(4 * w) { ShareAtPower(w, n, j); }
      forall i: nat, j: nat | i < n && j < n ensures Tally(w, n, i) == Tally(w, n, j) {
        CancelFactor(n, Tally(w, n, i), Tally(w, n, j));
      }
    } else if forall i: nat, j: nat :: i < n && j < n ==> Tally(w, n, i) == Tally(w, n, j) {
      AllPlaced(w, n, Tally(w, n, 0));
      DivisorOfPower(n, Tally(w, n, 0), 4 * w);
    }
  }

  lemma CancelFactor(n: int, x: int, y: int)
    requires n > 0 && n * x == n * y
    ensures x == y
  {
    if x < y { MulMono(n, x + 1, y); MulDistrib(n, x, 1); }
    if y < x { MulMono(n, y + 1, x); MulDistrib(n, y, 1); }
  }

  lemma ExponentBelow(w: nat, n: nat) returns (k: nat)
    requires w >= 1 && 1 <= n <= Pow2(w - 1) && IsPowerOf2(n)
    ensures k < w && n == Pow2(k)
  {
    hide Pow2;
    k :| n == Pow2(k);
    if k >= w { Pow2StrictMono(w - 1, k); }
  }

  lemma ShareAtPower(w: nat, n: nat, j: nat)
    requires w >= 1 && 1 <= n <= Pow2(w - 1) && IsPowerOf2(n) && j < n
    ensures n * Tally(w, n, j) == Pow2(4 * w)
  {
    hide Pow2, Tally;
    var k := ExponentBelow(w, n);
    PowerShare(w, k, j);
    Pow2Add(k, 4 * w - k);
  }

  /** If every bucket has the same tally, together they hold every hash. */
  lemma AllPlaced(w: nat, n: nat, v: nat)
    requires w >= 1 && 1 <= n <= Pow2(w - 1) && forall j: nat :: j < n ==> Tally(w, n, j) == v
    ensures n * v == Pow2(4 * w)
  {
    hide Pow2, Sum, Place, TallyOf;
    var place: nat -> nat := x => Place(w, x, n);
    forall j: nat | 0 <= j < n ensures TallyOf(Pow2(4 * w), place, j) == v { assert Tally(w, n, j) == v; }
    RangeEqual(Pow2(4 * w), place, 0, n, v);
    forall x: nat ensures 0 <= place(x) < n { PlaceInRange(w, x, n); }
    SumInterval(Pow2(4 * w), x => Mark(0 <= place(x) < n), 0, Pow2(4 * w), 1);
  }

  /** Three buckets are not equally likely. */
  lemma ThreeBuckets()
    ensures 3 <= Pow2(15) && exists i: nat, j: nat :: i < 3 && j < 3 && Tally(16, 3, i) != Tally(16, 3, j)
  {
    hide Pow2, Tally;
    PublicLimits();
    forall k: nat ensures Pow2(k) != 3 { NotThree(k); }
    EqualShares(16, 3);
  }

  lemma NotThree(k: nat)
    ensures Pow2(k) != 3
  {
    hide Pow2;
    SmallPowers();
    if k >= 2 { Pow2Mono(2, k); }
  }

  /** Growing to n2 buckets moves the share (n2 - n1) / n2 of the hashes, from every n1, exactly for powers of two. */
  lemma MinimalMoves(w: nat, n2: nat)
    requires w >= 1 && 1 <= n2 <= Pow2(w - 1)
    ensures (forall n1: nat :: 1 <= n1 <= n2 ==> n2 * Moves(w, n1, n2) == (n2 - n1) * Pow2(4 * w)) <==> IsPowerOf2(n2)
  {
    hide Pow2, Moves;
    if IsPowerOf2(n2) {
      forall n1: nat | 1 <= n1 <= n2 ensures n2 * Moves(w, n1, n2) == (n2 - n1) * Pow2(4 * w) {
        MovesToPower(w, n1, n2);
      }
    } else if forall n1: nat :: 1 <= n1 <= n2 ==> n2 * Moves(w, n1, n2) == (n2 - n1) * Pow2(4 * w) {
      var m, all := Moves(w, 1, n2), Pow2(4 * w);
      assert n2 * m == (n2 - 1) * all;
      UnmovedShare(n2, m, all);
      DivisorOfPower(n2, all - m, 4 * w);
    }
  }

  lemma UnmovedShare(n: nat, m: nat, all: nat)
    requires n >= 1 && n * m == (n - 1) * all
    ensures n * (all - m) == all && m <= all
  {
    MulDistrib(n, all - m, m);
    MulDistrib(all, n - 1, 1);
    if m > all { MulMono(n, all + 1, m); MulDistrib(n, all, 1); }
  }

  lemma MovesToPower(w: nat, n1: nat, n2: nat)
    requires w >= 1 && 1 <= n1 <= n2 <= Pow2(w - 1) && IsPowerOf2(n2)
    ensures n2 * Moves(w, n1, n2) == (n2 - n1) * Pow2(4 * w)
  {
    hide Pow2, Sum, Place, TallyOf, RangeOf, Moves;
    var k := ExponentBelow(w, n2);
    var size := Pow2(4 * w);
    var place: nat -> nat := x => Place(w, x, n2);
    var v := Pow2(4 * w - k);
    forall j: nat | n1 <= j < n2 ensures TallyOf(size, place, j) == v { PowerShare(w, k, j); }
    RangeEqual(size, place, n1, n2, v);
    MovesAreRange(w, n1, n2);
    Pow2Add(k, 4 * w - k);
    Regroup(n2 - n1, n2, v);
  }

  /** Growing by one bucket moves the share 1 / n exactly to the powers of two. */
  lemma OneMoreMoves(w: nat, n: nat)
    requires w >= 1 && 2 <= n <= Pow2(w - 1)
    ensures n * Moves(w, n - 1, n) == Pow2(4 * w) <==> IsPowerOf2(n)
  {
    hide Pow2, Moves;
    if IsPowerOf2(n) {
      MovesToPower(w, n - 1, n);
    } else if n * Moves(w, n - 1, n) == Pow2(4 * w) {
      DivisorOfPower(n, Moves(w, n - 1, n), 4 * w);
    }
  }

  /** For any two numbers of buckets: the share is exact only if n2 divides n1 times the number of hashes. */
  lemma ExactMovesDivide(w: nat, n1: nat, n2: nat)
    requires w >= 1 && 1 <= n1 <= n2 <= Pow2(w - 1)
    ensures IsPowerOf2(n2) || n1 == n2 ==> n2 * Moves(w, n1, n2) == (n2 - n1) * Pow2(4 * w)
    ensures n2 * Moves(w, n1, n2) == (n2 - n1) * Pow2(4 * w) ==> (n1 * Pow2(4 * w)) % n2 == 0
  {
    hide Pow2, Moves;
    if IsPowerOf2(n2) { MovesToPower(w, n1, n2); }
    if n1 == n2 { NoMoves(w, n1); }
    if n2 * Moves(w, n1, n2) == (n2 - n1) * Pow2(4 * w) {
      StayingShare(n1, n2, Moves(w, n1, n2), Pow2(4 * w));
    }
  }

  lemma NoMoves(w: nat, n: nat)
    requires w >= 1 && 1 <= n <= Pow2(w - 1)
    ensures Moves(w, n, n) == 0
  {
    hide Pow2, Sum, Place;
    var f: nat -> nat := x => Mark(Place(w, x, n) != Place(w, x, n));
    forall x: nat ensures f(x) == 0 { assert f(x) == Mark(false); }
    SumInterval(Pow2(4 * w), f, 0, Pow2(4 * w), 0);
  }

  lemma StayingShare(n1: nat, n2: nat, m: int, all: int)
    requires 1 <= n2 && n2 * m == (n2 - n1) * all
    ensures (n1 * all) % n2 == 0
  {
    MulDistrib(all, n2 - n1, n1);
    MulDistrib(n2, all, -m);
    ModSelfMultiple(0, all - m, n2);
    SmallMod(0, n2);
  }

  /** From one bucket to three: the moving share is not two thirds. */
  lemma ThreeBucketsMove()
    ensures 3 <= Pow2(15) && 3 * Moves(16, 1, 3) != 2 * Pow2(64)
  {
    hide Pow2, Moves;
    PublicLimits();
    if 3 * Moves(16, 1, 3) == 2 * Pow2(64) {
      UnmovedShare(3, Moves(16, 1, 3), Pow2(64));
      DivisorOfPower(3, Pow2(64) - Moves(16, 1, 3), 64);
      var k: nat :| 3 == Pow2(k);
      NotThree(k);
      assert false;
    }
  }

  /** Both public functions place a hash where these counts say. */
  lemma Hash64Place(x: nat, n: nat)
    requires x < Pow2(64) && 1 <= n <= 32768
    ensures n <= Pow2(15) && Hash64(x, n) == Bucket(Place(16, x, n))
  {
    hide Pow2, BucketOf, Low, Shr;
    PublicLimits();
  }

  lemma Hash128Place(lo: nat, hi: nat, n: nat)
    requires lo < Pow2(64) && hi < Pow2(64) && 1 <= n <= 0x8000_0000
    ensures n <= Pow2(31) && Hash128(lo, hi, n) == Bucket(Place(32, Join(hi, lo, 64), n))
  {
    hide Pow2, BucketOf, Low, Shr;
    PublicLimits();
    JoinParts(hi, lo, 64);
  }
}
