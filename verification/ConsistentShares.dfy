/** How nearly equally likely the buckets are between two powers of two. */
module ConsistentShares {
  import opened Powers
  import opened Bits
  import opened ConsistentHashing

  // ---- Sums over words ----

  lemma {:induction false} SumScale(n: nat, f: nat -> nat, g: nat -> nat, v: nat)
    requires forall i: nat :: i < n ==> g(i) == Copies(f(i), v)
    ensures Sum(n, g) == Copies(Sum(n, f), v)
  {
    hide Sum, Copies;
    SumStep(n, f);
    SumStep(n, g);
    CopiesAdd(0, 0, v);
    if n == 0 {
    } else {
      SumScale(n - 1, f, g, v);
      CopiesAdd(Sum(n - 1, f), f(n - 1), v);
    }
  }

  lemma CopiesAdd(x: nat, y: nat, v: nat)
    ensures Copies(x + y, v) == Copies(x, v) + Copies(y, v) && Copies(0, v) == 0 && Copies(x, v) == Copies(v, x)
  {
  }

  function Cell(h: nat, l: nat, p: nat): nat { h * p + l }

  /** Terms that are products of a function of the place in the row and one of the row. */
  lemma SumFactor(q: nat, p: nat, n: nat, f: nat -> nat, low: nat -> nat, high: nat -> nat)
    requires n == Copies(q, p)
    requires forall h: nat, l: nat {:trigger Cell(h, l, p)} ::
               h < q && l < p ==> f(Cell(h, l, p)) == Copies(low(l), high(h))
    ensures Sum(n, f) == Copies(Sum(p, low), Sum(q, high))
  {
    hide Sum, Copies, RowSum;
    var total := Sum(p, low);
    forall h: nat | h < q ensures RowSum(p, f, h) == Copies(high(h), total) {
      FactoredRow(p, f, low, h, high(h));
    }
    CopiesStep(q, p);
    SumRows(q, p, n, f, h => RowSum(p, f, h));
    SumScale(q, high, h => RowSum(p, f, h), total);
    CopiesAdd(Sum(q, high), 0, total);
  }

  lemma FactoredRow(p: nat, f: nat -> nat, low: nat -> nat, h: nat, v: nat)
    requires forall l: nat :: l < p ==> f(Cell(h, l, p)) == Copies(low(l), v)
    ensures RowSum(p, f, h) == Copies(v, Sum(p, low))
  {
    hide Sum, Copies;
    forall l: nat | l < p ensures f(h * p + l) == Copies(low(l), v) { assert Cell(h, l, p) == h * p + l; }
    SumScale(p, low, l => f(h * p + l), v);
    CopiesAdd(Sum(p, low), 0, v);
  }

  ghost function SumX(n: nat, f: (nat, nat) -> nat, y: nat): nat {
    Sum(n, x => f(x, y))
  }

  ghost function Sum2(n: nat, f: (nat, nat) -> nat): nat {
    Sum(n, y => SumX(n, f, y))
  }

  /** A sum over the words of 2w bits is one over their halves. */
  lemma SumHalves(w: nat, f: (nat, nat) -> nat, g: nat -> nat)
    requires forall x: nat :: x < Pow2(2 * w) ==> g(x) == f(Low(x, w), Shr(x, w))
    ensures Sum(Pow2(2 * w), g) == Sum2(Pow2(w), f)
  {
    hide Sum, Pow2, Low, Shr, SumX, RowSum;
    var p := Pow2(w);
    forall y: nat | y < p ensures SumX(p, f, y) == RowSum(p, g, y) { RowOfHalf(w, f, g, y); }
    Pow2Add(w, w);
    SumRows(p, p, Pow2(2 * w), g, y => SumX(p, f, y));
  }

  lemma RowOfHalf(w: nat, f: (nat, nat) -> nat, g: nat -> nat, y: nat)
    requires y < Pow2(w) && forall x: nat :: x < Pow2(2 * w) ==> g(x) == f(Low(x, w), Shr(x, w))
    ensures SumX(Pow2(w), f, y) == RowSum(Pow2(w), g, y)
  {
    hide Sum, Pow2, Low, Shr;
    forall x: nat | x < Pow2(w) ensures g(y * Pow2(w) + x) == f(x, y) { SplitWord(y, x, 2 * w, w); }
    SumSame(Pow2(w), l => g(y * Pow2(w) + l), x => f(x, y));
  }

  type OnWords = (nat, nat, nat, nat) -> nat

  ghost function SumLow(n: nat, f: OnWords, c: nat, d: nat): nat {
    Sum2(n, (a, b) => f(a, b, c, d))
  }

  ghost function SumAll(n: nat, f: OnWords): nat {
    Sum2(n, (c, d) => SumLow(n, f, c, d))
  }

  ghost function AtWords(w: nat, f: OnWords, x: nat): nat {
    var (a, b, c, d) := Words(w, x);
    f(a, b, c, d)
  }

  /** A sum over all hashes is one over their four words. */
  lemma SumWords(w: nat, f: OnWords, g: nat -> nat)
    requires forall x: nat :: x < Pow2(4 * w) ==> g(x) == AtWords(w, f, x)
    ensures Sum(Pow2(4 * w), g) == SumAll(Pow2(w), f)
  {
    hide Sum, Pow2, Low, Shr, Sum2, SumX;
    var n, p := Pow2(w), Pow2(2 * w);
    Pow2Add(2 * w, 2 * w);
    forall hi: nat | hi < p ensures RowSum(p, g, hi) == SumLow(n, f, Low(hi, w), Shr(hi, w)) {
      var c, d := Low(hi, w), Shr(hi, w);
      var row: nat -> nat := l => g(hi * p + l);
      forall lo: nat | lo < p ensures row(lo) == f(Low(lo, w), Shr(lo, w), c, d) {
        Concatenated(hi, lo, 2 * w, 2 * w);
        JoinParts(hi, lo, 2 * w);
        assert row(lo) == AtWords(w, f, hi * p + lo);
      }
      SumHalves(w, (a, b) => f(a, b, c, d), row);
    }
    SumRows(p, p, Pow2(4 * w), g, hi => RowSum(p, g, hi));
    SumHalves(w, (c, d) => SumLow(n, f, c, d), hi => RowSum(p, g, hi));
  }

  // ---- The used and the unused bits of the words are independent ----

  type OnLow = (nat, nat, nat) -> nat

  ghost function Low1(n: nat, low: OnLow, b: nat, c: nat): nat {
    Sum(n, a => low(a, b, c))
  }

  ghost function Low2(n: nat, low: OnLow, c: nat): nat {
    Sum(n, b => Low1(n, low, b, c))
  }

  /** Over k - 1 low bits of a and of b, and k of c. */
  ghost function LowTriples(n: nat, low: OnLow): nat {
    Sum(2 * n, c => Low2(n, low, c))
  }

  /** Row sums of `f`, in rows of 2^m. */
  ghost function Up(m: nat, f: nat -> nat): nat -> nat {
    h => RowSum(Pow2(m), f, h)
  }

  /** All the unused bits, before any is dropped. */
  function Unused(w: nat, k: nat, a: nat, b: nat, c: nat, d: nat): nat
    requires 1 <= k <= w
  {
    Packed(a, b, Join(d, Shr(c, k), w - k), k, w - k + 1)
  }

  function UnusedBits(w: nat, k: nat): nat
    requires 1 <= k <= w
  {
    4 * w - 3 * k + 2
  }

  ghost function Term(w: nat, k: nat, low: OnLow, high: nat -> nat, a: nat, b: nat, c: nat, d: nat): nat
    requires 1 <= k <= w
  {
    Copies(low(Low(a, k - 1), Low(b, k - 1), Low(c, k)), high(Unused(w, k, a, b, c, d)))
  }

  /** One word: its low `e` bits and the rest. */
  lemma OneWord(w: nat, e: nat, low: nat -> nat, high: nat -> nat, base: nat, f: nat -> nat)
    requires e <= w && forall x: nat :: x < Pow2(w) ==> f(x) == WordTerm(w, e, low, high, base, x)
    ensures Sum(Pow2(w), f) == Copies(Sum(Pow2(e), low), Up(w - e, high)(base))
  {
    hide Sum, Copies, Pow2, Low, Shr, Join, Cell, Up;
    var rest: nat -> nat := h => high(Join(base, h, w - e));
    forall h: nat, l: nat | h < Pow2(w - e) && l < Pow2(e)
      ensures f(Cell(h, l, Pow2(e))) == Copies(low(l), rest(h))
    {
      SplitWord(h, l, w, e);
    }
    PowerParts(w, e);
    SumFactor(Pow2(w - e), Pow2(e), Pow2(w), f, low, rest);
    RestIsRow(w - e, high, base, rest);
  }

  lemma PowerParts(w: nat, e: nat)
    requires e <= w
    ensures Pow2(w) == Copies(Pow2(w - e), Pow2(e))
  {
    hide Pow2;
    Pow2Add(w - e, e);
  }

  ghost function WordTerm(w: nat, e: nat, low: nat -> nat, high: nat -> nat, base: nat, x: nat): nat
    requires e <= w
  {
    Copies(low(Low(x, e)), high(Join(base, Shr(x, e), w - e)))
  }

  lemma RestIsRow(m: nat, high: nat -> nat, base: nat, rest: nat -> nat)
    requires forall h: nat :: rest(h) == high(Join(base, h, m))
    ensures Sum(Pow2(m), rest) == Up(m, high)(base)
  {
    hide Sum, Pow2;
    SumSame(Pow2(m), rest, l => high(base * Pow2(m) + l));
  }

  lemma SplitWord(h: nat, l: nat, w: nat, e: nat)
    requires e <= w && h < Pow2(w - e) && l < Pow2(e)
    ensures var x := Cell(h, l, Pow2(e)); x < Pow2(w) && Low(x, e) == l && Shr(x, e) == h
  {
    hide Pow2, Low, Shr;
    Concatenated(h, l, w - e, e);
    JoinParts(h, l, e);
  }

  lemma SumOverA(w: nat, k: nat, low: OnLow, high: nat -> nat, b: nat, c: nat, d: nat)
    requires 1 <= k < w
    ensures Sum(Pow2(w), a => Term(w, k, low, high, a, b, c, d))
            == Copies(Low1(Pow2(k - 1), low, Low(b, k - 1), Low(c, k)),
                      Up(w - k + 1, high)(Join(Join(d, Shr(c, k), w - k), Shr(b, k - 1), w - k + 1)))
  {
    hide Sum, Copies, Pow2, Low, Shr, Join, Up;
    OneWord(w, k - 1, a => low(a, Low(b, k - 1), Low(c, k)), high,
            Join(Join(d, Shr(c, k), w - k), Shr(b, k - 1), w - k + 1), a => Term(w, k, low, high, a, b, c, d));
  }

  lemma SumOverB(w: nat, k: nat, low: OnLow, high: nat -> nat, c: nat, d: nat)
    requires 1 <= k < w
    ensures SumLow(Pow2(w), (a, b, c, d) => Term(w, k, low, high, a, b, c, d), c, d)
            == Copies(Low2(Pow2(k - 1), low, Low(c, k)),
                      Up(w - k + 1, Up(w - k + 1, high))(Join(d, Shr(c, k), w - k)))
  {
    hide Sum, Copies, Pow2, Low, Shr, Join, Up, Term, Low1;
    var all: OnWords := (a, b, c, d) => Term(w, k, low, high, a, b, c, d);
    var f: (nat, nat) -> nat := (a, b) => all(a, b, c, d);
    forall b: nat ensures SumX(Pow2(w), f, b)
                          == Copies(Low1(Pow2(k - 1), low, Low(b, k - 1), Low(c, k)),
                                    Up(w - k + 1, high)(Join(Join(d, Shr(c, k), w - k), Shr(b, k - 1), w - k + 1)))
    {
      SumOverA(w, k, low, high, b, c, d);
      SumSame(Pow2(w), a => f(a, b), a => Term(w, k, low, high, a, b, c, d));
    }
    OneWord(w, k - 1, b => Low1(Pow2(k - 1), low, b, Low(c, k)), Up(w - k + 1, high), Join(d, Shr(c, k), w - k),
            b => SumX(Pow2(w), f, b));
  }

  lemma SumOverC(w: nat, k: nat, low: OnLow, high: nat -> nat, d: nat)
    requires 1 <= k < w
    ensures Sum(Pow2(w), c => SumLow(Pow2(w), (a, b, c, d) => Term(w, k, low, high, a, b, c, d), c, d))
            == Copies(LowTriples(Pow2(k - 1), low), Up(w - k, Up(w - k + 1, Up(w - k + 1, high)))(d))
  {
    hide Sum, Copies, Pow2, Low, Shr, Join, Up, Term, Low2, SumLow;
    var all: OnWords := (a, b, c, d) => Term(w, k, low, high, a, b, c, d);
    var rows := Up(w - k + 1, Up(w - k + 1, high));
    forall c: nat ensures SumLow(Pow2(w), all, c, d)
                          == Copies(Low2(Pow2(k - 1), low, Low(c, k)), rows(Join(d, Shr(c, k), w - k)))
    {
      SumOverB(w, k, low, high, c, d);
    }
    Pow2Next(k - 1);
    OneWord(w, k, c => Low2(Pow2(k - 1), low, c), rows, d, c => SumLow(Pow2(w), all, c, d));
  }

  /** Row sums of row sums add up to the sum. */
  lemma SumUp(w: nat, m: nat, f: nat -> nat)
    ensures Sum(Pow2(w), Up(m, f)) == Sum(Pow2(w + m), f)
  {
    hide Sum, Pow2, RowSum;
    Pow2Add(w, m);
    SumRows(Pow2(w), Pow2(m), Pow2(w + m), f, Up(m, f));
  }

  /** The low bits of the words are independent of all the others. */
  lemma Independent(w: nat, k: nat, low: OnLow, high: nat -> nat)
    requires 1 <= k < w
    ensures SumAll(Pow2(w), (a, b, c, d) => Term(w, k, low, high, a, b, c, d))
            == Copies(LowTriples(Pow2(k - 1), low), Sum(Pow2(UnusedBits(w, k)), high))
  {
    hide Sum, Copies, Pow2, Up, Term, SumLow, LowTriples;
    var all: OnWords := (a, b, c, d) => Term(w, k, low, high, a, b, c, d);
    var g: (nat, nat) -> nat := (c, d) => SumLow(Pow2(w), all, c, d);
    var s, m := w - k, w - k + 1;
    var total, rows := LowTriples(Pow2(k - 1), low), Up(s, Up(m, Up(m, high)));
    forall d: nat ensures SumX(Pow2(w), g, d) == Copies(rows(d), total) {
      SumOverC(w, k, low, high, d);
      SumSame(Pow2(w), c => g(c, d), c => SumLow(Pow2(w), all, c, d));
      CopiesAdd(total, 0, rows(d));
    }
    SumScale(Pow2(w), rows, d => SumX(Pow2(w), g, d), total);
    SumUp(w, s, Up(m, Up(m, high)));
    SumUp(w + s, m, Up(m, high));
    SumUp(w + s + m, m, high);
    CopiesAdd(Sum(Pow2(w), rows), 0, total);
  }

  // ---- The bits that are kept ----

  function Min(x: nat, y: nat): nat { if x < y then x else y }

  /** How many of the unused bits are kept: d is cut at 32 bits, and the whole at 64. */
  function Kept(w: nat, k: nat): nat
    requires 1 <= k <= w
  {
    Min(UnusedBits(w, k), Min(64, 32 + 2 * (w - k + 1)))
  }

  lemma LowLow(x: nat, i: nat, k: nat)
    ensures Low(Low(x, k), i) == Low(x, Min(i, k))
  {
    hide Pow2;
    if i <= k {
      Pow2Add(i, k - i);
      ModTwice(x, Pow2(k));
      ModDivisor(x % Pow2(k), x, Pow2(i), Pow2(k - i));
    } else {
      Pow2Mono(k, i);
      SmallMod(x % Pow2(k), Pow2(i));
    }
  }

  lemma JoinKept(x: nat, y: nat, m: nat, e: nat)
    requires y < Pow2(m)
    ensures Join(Low(x, e), y, m) == Low(Join(x, y, m), e + m)
  {
    hide Pow2;
    Pow2Add(e, m);
    AppendedModulo(x, Pow2(e), Pow2(m), y);
  }

  lemma UnusedBelow(w: nat, k: nat, a: nat, b: nat, c: nat, d: nat)
    requires 1 <= k < w && a < Pow2(w) && b < Pow2(w) && c < Pow2(w) && d < Pow2(w)
    ensures Shr(a, k - 1) < Pow2(w - k + 1) && Shr(b, k - 1) < Pow2(w - k + 1) && Shr(c, k) < Pow2(w - k)
    ensures Unused(w, k, a, b, c, d) < Pow2(UnusedBits(w, k))
  {
    hide Pow2, Shr, Join;
    var s, m := w - k, w - k + 1;
    ShrBelow(a, k - 1, m);
    ShrBelow(b, k - 1, m);
    ShrBelow(c, k, s);
    var dc := Join(d, Shr(c, k), s);
    Concatenated(d, Shr(c, k), w, s);
    Concatenated(dc, Shr(b, k - 1), w + s, m);
    Concatenated(Join(dc, Shr(b, k - 1), m), Shr(a, k - 1), w + s + m, m);
  }

  lemma KeptBits(w: nat, a: nat, b: nat, c: nat, d: nat, k: nat)
    requires 1 <= k < w <= 32 && a < Pow2(w) && b < Pow2(w) && c < Pow2(w) && d < Pow2(w)
    ensures GetAsteriskBits(w, a, b, c, d, k) == Low(Unused(w, k, a, b, c, d), Kept(w, k))
  {
    hide Pow2, Shr, Join, Low, GetAsteriskBits, Unused;
    var e, total, z := Min(64, 32 + 2 * (w - k + 1)), UnusedBits(w, k), Unused(w, k, a, b, c, d);
    CutBits(w, a, b, c, d, k);
    UnusedBelow(w, k, a, b, c, d);
    LowIs(z, total);
    LowLow(z, e, total);
  }

  lemma CutBits(w: nat, a: nat, b: nat, c: nat, d: nat, k: nat)
    requires 1 <= k < w <= 32 && a < Pow2(w) && b < Pow2(w) && c < Pow2(w) && d < Pow2(w)
    ensures GetAsteriskBits(w, a, b, c, d, k) == Low(Unused(w, k, a, b, c, d), Min(64, 32 + 2 * (w - k + 1)))
  {
    hide Pow2, Shr, Join, Low, GetAsteriskBits;
    var m, dc, z := w - k + 1, Join(d, Shr(c, k), w - k), Unused(w, k, a, b, c, d);
    AsteriskBits(w, a, b, c, d, k);
    UnusedBelow(w, k, a, b, c, d);
    JoinKept(dc, Shr(b, k - 1), m, 32);
    JoinKept(Join(dc, Shr(b, k - 1), m), Shr(a, k - 1), m, 32 + m);
    LowIs(Low(z, 32 + 2 * m), 64);
    LowLow(z, 64, 32 + 2 * m);
  }

  lemma BitOfJoin(x: nat, y: nat, m: nat, i: nat)
    requires y < Pow2(m)
    ensures Bit(Join(x, y, m), i) <==> if i < m then Bit(y, i) else Bit(x, i - m)
  {
    hide Pow2, Bit, Low, Shr;
    JoinParts(x, y, m);
    if i < m { BitOfLow(Join(x, y, m), m, i); } else { BitOfShr(Join(x, y, m), m, i - m); }
  }

  /** Which bit of which word each bit in the modulus is: a lowest, then b, c and d, above the used bits of each. */
  lemma AsteriskBit(w: nat, a: nat, b: nat, c: nat, d: nat, k: nat, i: nat)
    requires 1 <= k < w <= 32 && a < Pow2(w) && b < Pow2(w) && c < Pow2(w) && d < Pow2(w)
    ensures var s, m := w - k, w - k + 1;
            Bit(GetAsteriskBits(w, a, b, c, d, k), i) <==>
            i < 64 && i < 32 + 2 * m
            && (if i < m then Bit(a, i + (k - 1))
                else if i < 2 * m then Bit(b, i - m + (k - 1))
                else if i < 2 * m + s then Bit(c, i - 2 * m + k)
                else Bit(d, i - 2 * m - s))
  {
    hide Pow2, Bit, Low, Shr, GetAsteriskBits, Join;
    var s, m := w - k, w - k + 1;
    var x, y, z := Shr(a, k - 1), Shr(b, k - 1), Shr(c, k);
    CutBits(w, a, b, c, d, k);
    UnusedBelow(w, k, a, b, c, d);
    BitOfLow(Unused(w, k, a, b, c, d), Min(64, 32 + 2 * m), i);
    BitOfJoin(Join(Join(d, z, s), y, m), x, m, i);
    if i < m {
      BitOfShr(a, k - 1, i);
    } else {
      BitOfJoin(Join(d, z, s), y, m, i - m);
      if i < 2 * m {
        BitOfShr(b, k - 1, i - m);
      } else {
        BitOfJoin(d, z, s, i - 2 * m);
        if i < 2 * m + s { BitOfShr(c, k, i - 2 * m); }
      }
    }
  }

  /** Dropping high bits leaves every value equally often. */
  lemma SumKept(e: nat, total: nat, p: nat -> nat, f: nat -> nat)
    requires e <= total && forall z: nat :: f(z) == p(Low(z, e))
    ensures Sum(Pow2(total), f) == Copies(Sum(Pow2(e), p), Pow2(total - e))
  {
    hide Sum, Copies, Pow2, Low, Cell, Shr;
    var one: nat -> nat := h => 1;
    forall h: nat, l: nat | h < Pow2(total - e) && l < Pow2(e) ensures f(Cell(h, l, Pow2(e))) == Copies(p(l), one(h)) {
      SplitWord(h, l, total, e);
      CopiesOfOne(p(l));
    }
    PowerParts(total, e);
    SumFactor(Pow2(total - e), Pow2(e), Pow2(total), f, p, one);
    SumInterval(Pow2(total - e), one, 0, Pow2(total - e), 1);
  }

  lemma CopiesOfOne(x: nat)
    ensures Copies(x, 1) == x
  {
  }

  ghost function JointAt(w: nat, k: nat, low: OnLow, p: nat -> nat, x: nat): nat
    requires 1 <= k <= w
  {
    var (a, b, c, d) := Words(w, x);
    Copies(low(Low(a, k - 1), Low(b, k - 1), Low(c, k)), p(GetAsteriskBits(w, a, b, c, d, k)))
  }

  /** How often each value of the kept bits occurs. */
  function Repeats(w: nat, k: nat): nat
    requires 1 <= k <= w
  {
    Pow2(UnusedBits(w, k) - Kept(w, k))
  }

  /** Over all hashes, what the low bits decide is independent of the bits in the modulus. */
  lemma JointCount(w: nat, k: nat, low: OnLow, p: nat -> nat, g: nat -> nat)
    requires 1 <= k < w <= 32 && forall x: nat :: x < Pow2(4 * w) ==> g(x) == JointAt(w, k, low, p, x)
    ensures Sum(Pow2(4 * w), g)
            == Copies(LowTriples(Pow2(k - 1), low), Copies(Sum(Pow2(Kept(w, k)), p), Repeats(w, k)))
  {
    hide Sum, Copies, Pow2, Low, Unused, GetAsteriskBits, SumAll, LowTriples, Words;
    var e, total := Kept(w, k), UnusedBits(w, k);
    var high: nat -> nat := z => p(Low(z, e));
    var f: OnWords := (a, b, c, d) => Term(w, k, low, high, a, b, c, d);
    forall x: nat | x < Pow2(4 * w) ensures g(x) == AtWords(w, f, x) {
      var (a, b, c, d) := Words(w, x);
      WordsMakeWhole(w, x);
      KeptBits(w, a, b, c, d, k);
    }
    SumWords(w, f, g);
    Independent(w, k, low, high);
    SumKept(e, total, p, high);
  }

  // ---- What the low bits decide ----

  /** Only the low bits of the words reach the schemes of 2^k buckets and fewer. */
  lemma LowBitsDecide(w: nat, a: nat, b: nat, c: nat, k: nat, i: nat)
    requires 1 <= k < w && i <= k
    ensures ForPowersOf2(w, a, b, c, Pow2(i))
            == ForPowersOf2(w, Low(a, k - 1), Low(b, k - 1), Low(c, k), Pow2(i))
  {
    hide Pow2, ForPowersOf2, Low, BitCount, PopCount;
    LargeScheme(w, a, b, c, i);
    LargeScheme(w, Low(a, k - 1), Low(b, k - 1), Low(c, k), i);
    LowLow(c, i, k);
    var g := Low(c, i);
    if g >= 2 {
      var y := BitCount(g) - 1;
      if y >= i { Pow2Mono(i, y); }
      LowLow(a, y, k - 1);
      LowLow(b, y, k - 1);
    }
  }

  /** A bucket of the upper half is chosen by one word, a or b by the parity of c. */
  lemma UpperBucket(w: nat, a: nat, b: nat, c: nat, k: nat, u: nat)
    requires 1 <= k < w && a < Pow2(k - 1) && b < Pow2(k - 1) && c < Pow2(k) && Pow2(k - 1) <= u < Pow2(k)
    ensures ForPowersOf2(w, a, b, c, Pow2(k)) == u
            <==> c >= Pow2(k - 1) && SelectAOrBBlock(a, b, c) == u - Pow2(k - 1)
  {
    hide Pow2, ForPowersOf2, Low, BitCount, PopCount;
    LargeScheme(w, a, b, c, k);
    LowIs(c, k);
    if c < Pow2(k - 1) {
      BucketGroup(w, a, b, c, k, k - 1);
    } else {
      BitCountUnique(c, k);
      LowIs(a, k - 1);
      LowIs(b, k - 1);
      SmallPowers();
      if c < 2 && k >= 2 { Pow2Mono(1, k - 1); }
    }
  }

  /** Whether the other word leads to bucket j of the lower half, for the c-block g. */
  predicate OtherWord(g: nat, o: nat, j: nat) {
    if g < 2 then g == j
    else
      var y := BitCount(g) - 1;
      Pow2(y) <= j < Pow2(y + 1) && Residue(o, Pow2(y), j - Pow2(y))
  }

  lemma {:induction false} PopCountTop(g: nat, e: nat)
    requires g < Pow2(e)
    ensures PopCount(Pow2(e) + g) == PopCount(g) + 1
  {
    if e == 0 {
      assert PopCount(1) == 1 + PopCount(0);
    } else {
      var p := Pow2(e - 1);
      DivModUnique(Pow2(e) + g, 2, p + g / 2, g % 2);
      PopCountTop(g / 2, e - 1);
      if g == 0 { assert PopCount(0) == 0; }
    }
  }

  /** With 2^(k-1) buckets the parity of the same c-block is the other one, and so is the word. */
  lemma LowerBucket(w: nat, a: nat, b: nat, c: nat, k: nat, j: nat)
    requires 1 <= k < w && Pow2(k - 1) <= c < Pow2(k) && j < Pow2(k - 1)
    ensures ForPowersOf2(w, a, b, c, Pow2(k - 1)) == j
            <==> OtherWord(c - Pow2(k - 1), SelectAOrBBlock(b, a, c), j)
  {
    hide Pow2, ForPowersOf2, BitCount, PopCount, Low;
    var g := c - Pow2(k - 1);
    BelowTop(c, k);
    LargeScheme(w, a, b, c, k - 1);
    if g >= 2 {
      var y := BitCount(g) - 1;
      Pow2Next(y);
      LowIs(a, y);
      LowIs(b, y);
    }
  }

  lemma BelowTop(c: nat, k: nat)
    requires k >= 1 && Pow2(k - 1) <= c < Pow2(k)
    ensures Low(c, k - 1) == c - Pow2(k - 1) && PopCount(c) == PopCount(c - Pow2(k - 1)) + 1
  {
    hide Pow2, PopCount;
    var p := Pow2(k - 1);
    Pow2Next(k - 1);
    DivModUnique(c, p, 1, c - p);
    PopCountTop(c - p, k - 1);
  }

  /** One word is fixed, and the other one counted. */
  lemma PairCount(n: nat, low: OnLow, c: nat, even: bool, r: nat, ok: nat -> nat)
    requires r < n && forall a: nat, b: nat :: a < n && b < n ==>
               low(a, b, c) == if (if even then a else b) == r then ok(if even then b else a) else 0
    ensures Low2(n, low, c) == Sum(n, ok)
  {
    hide Sum;
    if even {
      forall b: nat | b < n ensures Low1(n, low, b, c) == ok(b) {
        SumInterval(n, a => low(a, b, c), r, r + 1, ok(b));
      }
      SumSame(n, b => Low1(n, low, b, c), ok);
    } else {
      forall b: nat | b < n ensures Low1(n, low, b, c) == if r <= b < r + 1 then Sum(n, ok) else 0 {
        if b == r {
          SumSame(n, a => low(a, b, c), ok);
        } else {
          SumInterval(n, a => low(a, b, c), 0, 0, 0);
        }
      }
      SumInterval(n, b => Low1(n, low, b, c), r, r + 1, Sum(n, ok));
    }
  }

  lemma NoPairs(n: nat, low: OnLow, c: nat)
    requires forall a: nat, b: nat :: a < n && b < n ==> low(a, b, c) == 0
    ensures Low2(n, low, c) == 0
  {
    hide Sum;
    forall b: nat | b < n ensures Low1(n, low, b, c) == 0 { SumInterval(n, a => low(a, b, c), 0, 0, 0); }
    SumInterval(n, b => Low1(n, low, b, c), 0, 0, 0);
  }

  ghost function InUpper(w: nat, k: nat, u: nat): OnLow {
    (a, b, c) => Mark(ForPowersOf2(w, a, b, c, Pow2(k)) == u)
  }

  ghost function InBoth(w: nat, k: nat, u: nat, j: nat): OnLow
    requires k >= 1
  {
    (a, b, c) => Mark(ForPowersOf2(w, a, b, c, Pow2(k)) == u && ForPowersOf2(w, a, b, c, Pow2(k - 1)) == j)
  }

  /** (2^(k-1))^2. */
  function Square(k: nat): nat
    requires k >= 1
  {
    Copies(Pow2(k - 1), Pow2(k - 1))
  }

  /** Every bucket of the upper half gets the same number of low triples. */
  lemma UpperTriples(w: nat, k: nat, u: nat)
    requires 1 <= k < w && Pow2(k - 1) <= u < Pow2(k)
    ensures LowTriples(Pow2(k - 1), InUpper(w, k, u)) == Square(k)
  {
    hide Sum, Pow2, ForPowersOf2, PopCount, Low2;
    var n, low := Pow2(k - 1), InUpper(w, k, u);
    Pow2Next(k - 1);
    forall c: nat | c < 2 * n ensures Low2(n, low, c) == if n <= c < 2 * n then n else 0 {
      forall a: nat, b: nat | a < n && b < n
        ensures low(a, b, c) == Mark(c >= n && SelectAOrBBlock(a, b, c) == u - n)
      {
        UpperBucket(w, a, b, c, k, u);
      }
      if c < n {
        NoPairs(n, low, c);
      } else {
        var one: nat -> nat := o => 1;
        PairCount(n, low, c, PopCount(c) % 2 == 0, u - n, one);
        SumInterval(n, one, 0, n, 1);
      }
    }
    SumInterval(2 * n, c => Low2(n, low, c), n, 2 * n, n);
  }

  /** The words that the other choice allows. */
  lemma OtherCount(g: nat, k: nat, j: nat)
    requires k >= 1 && g < Pow2(k - 1) && j < Pow2(k - 1)
    ensures Copies(Sum(Pow2(k - 1), o => Mark(OtherWord(g, o, j))), Pow2(k - 1)) == Share(g, k - 1, j)
  {
    hide Sum, Pow2, BitCount, Residue;
    var n := Pow2(k - 1);
    var f: nat -> nat := o => Mark(OtherWord(g, o, j));
    forall o: nat ensures f(o) == Mark(OtherWord(g, o, j)) {}
    if g < 2 {
      SumInterval(n, f, 0, n, Mark(g == j));
    } else {
      var y := BitCount(g) - 1;
      if y >= k - 1 { Pow2Mono(k - 1, y); }
      Pow2Next(y);
      if Pow2(y) <= j < Pow2(y + 1) {
        Pow2Add(k - 1 - y, y);
        SumResidue(Pow2(k - 1 - y), Pow2(y), n, f, j - Pow2(y), 1);
      } else {
        SumInterval(n, f, 0, n, 0);
      }
    }
  }

  /** Every pair of a bucket of the upper half and one of the lower half gets the same number of low triples. */
  lemma BothTriples(w: nat, k: nat, u: nat, j: nat)
    requires 1 <= k < w && Pow2(k - 1) <= u < Pow2(k) && j < Pow2(k - 1)
    ensures LowTriples(Pow2(k - 1), InBoth(w, k, u, j)) == Pow2(k - 1)
  {
    hide Sum, Pow2, Low2, Copies, Share, InBoth, OtherWord;
    var n: nat, low := Pow2(k - 1), InBoth(w, k, u, j);
    Pow2Next(k - 1);
    var f: nat -> nat := c => Low2(n, low, c);
    forall c: nat | c < n ensures f(c) == 0 { BothOfBlock(w, k, u, j, c); }
    SumInterval(n, f, 0, 0, 0);
    var upper: nat -> nat := g => f(n + g);
    var shares: nat -> nat := g => Copies(upper(g), n);
    forall g: nat | g < n ensures shares(g) == Share(g, k - 1, j) {
      BothOfBlock(w, k, u, j, n + g);
      OtherCount(g, k, j);
    }
    SumSplit(n, n, f, upper);
    SumScale(n, upper, shares, n);
    SharesSum(k - 1, k - 1, j, shares);
    CopiesStep(Sum(n, upper), n);
    CancelFactor(n, Sum(n, upper), n);
  }

  lemma BothOfBlock(w: nat, k: nat, u: nat, j: nat, c: nat)
    requires 1 <= k < w && Pow2(k - 1) <= u < Pow2(k) && j < Pow2(k - 1) && c < Pow2(k)
    ensures Low2(Pow2(k - 1), InBoth(w, k, u, j), c)
            == if c < Pow2(k - 1) then 0 else Sum(Pow2(k - 1), o => Mark(OtherWord(c - Pow2(k - 1), o, j)))
  {
    hide Sum, Pow2, ForPowersOf2, PopCount, Low2, OtherWord;
    var n, low := Pow2(k - 1), InBoth(w, k, u, j);
    Pow2Next(k - 1);
    forall a: nat, b: nat | a < n && b < n
      ensures low(a, b, c) == Mark(c >= n && SelectAOrBBlock(a, b, c) == u - n
                                   && OtherWord(c - n, SelectAOrBBlock(b, a, c), j))
    {
      UpperBucket(w, a, b, c, k, u);
      if c >= n { LowerBucket(w, a, b, c, k, j); }
    }
    if c < n {
      NoPairs(n, low, c);
    } else {
      var ok: nat -> nat := o => Mark(OtherWord(c - n, o, j));
      forall o: nat ensures ok(o) == Mark(OtherWord(c - n, o, j)) {}
      forall a: nat, b: nat | a < n && b < n
        ensures low(a, b, c) == if SelectAOrBBlock(a, b, c) == u - n then ok(SelectAOrBBlock(b, a, c)) else 0
      {
        assert low(a, b, c) == Mark(SelectAOrBBlock(a, b, c) == u - n
                                    && OtherWord(c - n, SelectAOrBBlock(b, a, c), j));
      }
      PairCount(n, low, c, PopCount(c) % 2 == 0, u - n, ok);
      SumSame(n, ok, o => Mark(OtherWord(c - n, o, j)));
    }
  }

  // ---- Counting by residues ----

  /** How many numbers below `size` have their remainder by h * (h + 1) in [lo, hi). */
  ghost function ResiduesIn(size: nat, h: nat, lo: nat, hi: nat): nat
    requires h >= 1
  {
    Sum(size, y => Mark(lo <= Remainder(y, h) < hi))
  }

  /** The remainder that SmoothMove takes. */
  function Remainder(y: nat, h: nat): nat
    requires h >= 1
  {
    DivisorPositive(h);
    y % (h * (h + 1))
  }

  lemma {:induction false} WholeBlocks(q: nat, m: nat, n: nat, f: nat -> nat, lo: nat, hi: nat)
    requires lo <= hi <= m && m >= 1 && n == Copies(q, m)
    requires forall y: nat :: f(y) == Mark(lo <= y % m < hi)
    ensures Sum(n, f) == Copies(q, hi - lo)
  {
    hide Sum, Copies, Cell;
    var one: nat -> nat := h => 1;
    var low: nat -> nat := l => Mark(lo <= l < hi);
    forall l: nat ensures low(l) == Mark(lo <= l < hi) {}
    forall h: nat, l: nat | h < q && l < m ensures f(Cell(h, l, m)) == Copies(low(l), one(h)) {
      CellRemainder(h, l, m);
      CopiesOfOne(low(l));
    }
    SumFactor(q, m, n, f, low, one);
    SumInterval(q, one, 0, q, 1);
    SumInterval(m, low, lo, hi, 1);
    CopiesAdd(q, 0, hi - lo);
  }

  lemma CellRemainder(h: nat, l: nat, m: nat)
    requires l < m
    ensures Cell(h, l, m) % m == l
  {
    DivModUnique(h * m + l, m, h, l);
  }

  lemma BlocksOf(size: nat, m: nat) returns (q: nat, r: nat)
    requires m >= 1
    ensures size == Copies(q, m) + r && r < m
  {
    DivModIdentity(size, m);
    q, r := size / m, size % m;
  }

  lemma InBlock(q: nat, m: nat, i: nat)
    requires i < m
    ensures (Copies(q, m) + i) % m == i
  {
    DivModUnique(q * m + i, m, q, i);
  }

  /** Whole blocks of residues, and a part of one. */
  lemma ResidueBlocks(size: nat, m: nat, f: nat -> nat, lo: nat, hi: nat) returns (q: nat, r: nat, t: nat)
    requires lo <= hi <= m && m >= 1 && forall y: nat :: f(y) == Mark(lo <= y % m < hi)
    ensures size == Copies(q, m) + r && r < m && t <= hi - lo && Sum(size, f) == Copies(q, hi - lo) + t
  {
    hide Sum, Copies;
    q, r := BlocksOf(size, m);
    var n: nat := Copies(q, m);
    WholeBlocks(q, m, n, f, lo, hi);
    var g: nat -> nat := i => f(n + i);
    SumSplit(n, r, f, g);
    forall i: nat | i < r ensures g(i) == if Min(lo, r) <= i < Min(hi, r) then 1 else 0 {
      InBlock(q, m, i);
      assert g(i) == Mark(lo <= (n + i) % m < hi);
    }
    SumInterval(r, g, Min(lo, r), Min(hi, r), 1);
    t := Sum(r, g);
  }

  /** The count is the expected share, up to one block. */
  lemma ResidueBound(size: nat, h: nat, lo: nat, hi: nat)
    requires h >= 1 && lo <= hi <= h * (h + 1)
    ensures Within((h * (h + 1)) * ResiduesIn(size, h, lo, hi) - (hi - lo) * size, (hi - lo) * (h * (h + 1)))
  {
    hide Sum;
    DivisorPositive(h);
    var m, l := h * (h + 1), hi - lo;
    var f: nat -> nat := y => Mark(lo <= Remainder(y, h) < hi);
    forall y: nat ensures f(y) == Mark(lo <= y % m < hi) { assert f(y) == Mark(lo <= Remainder(y, h) < hi); }
    var q, r, t := ResidueBlocks(size, m, f, lo, hi);
    BlockBoundInts(size, m, l, q, r, t);
  }

  lemma BlockBoundInts(size: int, m: int, l: int, q: int, r: int, t: int)
    requires size == m * q + r && 0 <= r < m && 0 <= t <= l
    ensures -(l * m) <= m * (q * l + t) - l * size <= l * m
  {
    assert m * (q * l + t) - l * size == m * t - l * r by {
      MulDistrib(m, q * l, t);
      MulDistrib(l, m * q, r);
      Regroup(m, q, l);
      MulAssoc(l, m, q);
    }
    MulMono(m, t, l);
    MulMono(m, 0, t);
    MulMono(l, r, m);
    MulMono(l, 0, r);
  }

  /** The counts of all the large values from n to u. */
  ghost function ResidueSum(size: nat, n: nat, u: nat, lo: nat, hi: nat): nat
    requires 1 <= n <= u
    decreases u
  {
    if u == n then 0 else ResidueSum(size, n, u - 1, lo, hi) + ResiduesIn(size, u - 1, lo, hi)
  }

  /** A sum `z` of counts, for remainders in an interval of length `l`, is what n..u expects, up to `l` for each. */
  predicate Telescoped(n: int, u: int, l: int, size: int, z: int) {
    Within((n * u) * z - (l * size) * (u - n), (n * u) * (l * (u - n)))
  }

  /** 1/n - 1/u is the sum of 1 / (h * (h + 1)), and so are the counts, up to one block each. */
  lemma {:induction false} ResidueSumBound(size: nat, n: nat, u: nat, lo: nat, hi: nat)
    requires 1 <= n <= u && lo <= hi <= n * (n + 1)
    ensures Telescoped(n, u, hi - lo, size, ResidueSum(size, n, u, lo, hi))
    decreases u
  {
    hide ResiduesIn, Telescoped, Within;
    TelescopeStart(n, hi - lo, size);
    if u == n {
    } else {
      var h := u - 1;
      ResidueSumBound(size, n, h, lo, hi);
      ProductMono(n, n + 1, h, h + 1);
      ResidueBound(size, h, lo, hi);
      TelescopeStep(n, h, hi - lo, size, ResidueSum(size, n, h, lo, hi), ResiduesIn(size, h, lo, hi));
    }
  }

  lemma TelescopeStart(n: int, l: int, size: int)
    ensures Telescoped(n, n, l, size, 0)
  {
  }

  predicate Within(x: int, bound: int) { -bound <= x <= bound }

  lemma TelescopeStep(n: int, u: int, l: int, size: int, z: int, r: int)
    requires 1 <= n <= u && l >= 0
    requires Telescoped(n, u, l, size, z) && Within((u * (u + 1)) * r - l * size, l * (u * (u + 1)))
    ensures Telescoped(n, u + 1, l, size, z + r)
  {
    assert Within((n * u) * z - (l * size) * (u - n), (n * u) * (l * (u - n)));
    assert Within((n * (u + 1)) * (z + r) - (l * size) * (u + 1 - n), (n * (u + 1)) * (l * (u + 1 - n))) by {
      NextTelescope(n, u, l, size, z, r);
    }
  }

  lemma NextTelescope(n: int, u: int, l: int, size: int, z: int, r: int)
    requires 1 <= n <= u && l >= 0
    requires Within((n * u) * z - (l * size) * (u - n), (n * u) * (l * (u - n)))
    requires Within((u * (u + 1)) * r - l * size, l * (u * (u + 1)))
    ensures Within((n * (u + 1)) * (z + r) - (l * size) * (u + 1 - n), (n * (u + 1)) * (l * (u + 1 - n)))
  {
    var alpha, beta := (n * u) * z - (l * size) * (u - n), (u * (u + 1)) * r - l * size;
    var a, b := (n * u) * (l * (u - n)), l * (u * (u + 1));
    var gamma, c := (n * (u + 1)) * (z + r) - (l * size) * (u + 1 - n), (n * (u + 1)) * (l * (u + 1 - n));
    TelescopeTerms(n, u, l * size, z, r);
    TelescopeBounds(n, u, l);
    hide *;
    ScaleWithin(alpha, a, u + 1);
    ScaleWithin(beta, b, n);
    UnscaleWithin(gamma, c, u, (u + 1) * alpha, (u + 1) * a, n * beta, n * b);
  }

  lemma TelescopeTerms(n: int, u: int, y: int, z: int, r: int)
    ensures u * ((n * (u + 1)) * (z + r) - y * (u + 1 - n))
            == (u + 1) * ((n * u) * z - y * (u - n)) + n * ((u * (u + 1)) * r - y)
  {
    var v := u + 1;
    MulDistrib(n * v, z, r);
    SwapFactors(u, n, v, z);
    SwapFactors(u, n, v, r);
    MulDistrib(u, (n * v) * z + (n * v) * r, -(y * (v - n)));
    MulDistrib(u, (n * v) * z, (n * v) * r);
    MulDistrib(v, (n * u) * z, -(y * (u - n)));
    MulDistrib(n, (u * v) * r, -y);
    assert u * (y * (v - n)) == v * (y * (u - n)) + n * y by { LinearTerms(n, u, y); }
  }

  lemma SwapFactors(u: int, n: int, v: int, x: int)
    ensures u * ((n * v) * x) == v * ((n * u) * x) == n * ((u * v) * x)
  {
    assert u * (n * v) == v * (n * u) == n * (u * v);
    MulAssoc(u, n * v, x);
    MulAssoc(v, n * u, x);
    MulAssoc(n, u * v, x);
  }

  lemma LinearTerms(n: int, u: int, y: int)
    ensures u * (y * (u + 1 - n)) == (u + 1) * (y * (u - n)) + n * y
  {
    MulDistrib(y, u - n, 1);
  }

  lemma TelescopeBounds(n: int, u: int, l: int)
    ensures u * ((n * (u + 1)) * (l * (u + 1 - n))) == (u + 1) * ((n * u) * (l * (u - n))) + n * (l * (u * (u + 1)))
  {
  }

  lemma ScaleWithin(x: int, bound: int, v: int)
    requires v >= 0 && Within(x, bound)
    ensures Within(v * x, v * bound)
  {
    MulMono(v, x, bound);
    MulMono(v, -bound, x);
  }

  lemma UnscaleWithin(x: int, bound: int, v: int, y: int, b: int, z: int, c: int)
    requires v >= 1 && v * x == y + z && v * bound == b + c && Within(y, b) && Within(z, c)
    ensures Within(x, bound)
  {
    if x > bound { MulMono(v, bound + 1, x); MulDistrib(v, bound, 1); }
    if x < -bound { MulMono(v, x, -bound - 1); MulDistrib(v, -bound, -1); }
  }

  // ---- Where a hash goes ----

  function Large(w: nat, k: nat, x: nat): nat {
    var (a, b, c, d) := Words(w, x);
    ForPowersOf2(w, a, b, c, Pow2(k))
  }

  function Asterisks(w: nat, k: nat, x: nat): nat
    requires 1 <= k <= w
  {
    var (a, b, c, d) := Words(w, x);
    GetAsteriskBits(w, a, b, c, d, k)
  }

  /** Between two powers of two: the large value, or a place that the unused bits choose, or the small value. */
  lemma PlaceCases(w: nat, x: nat, n: nat, k: nat)
    requires w >= 1 && 2 <= n <= Pow2(w - 1) && k == BitCount(n - 1)
    ensures 1 <= k < w && Pow2(k - 1) < n <= Pow2(k) && Large(w, k, x) < Pow2(k) && Large(w, k - 1, x) < Pow2(k - 1)
    ensures var h := Large(w, k, x);
            Place(w, x, n) ==
            if h < n then h
            else
              var v := SmoothMove(Asterisks(w, k, x), h, Pow2(k)) + Pow2(k - 1);
              if v < n then v else Large(w, k - 1, x)
  {
    hide Pow2, ForPowersOf2, GetAsteriskBits, SmoothMove, BitCount, Halves, PowerOf2;
    var (a, b, c, d) := Words(w, x);
    BlockBits(w, n);
    BucketGroup(w, a, b, c, k, 0);
    BucketGroup(w, a, b, c, k - 1, 0);
  }

  /** The same with the arithmetic written out. */
  lemma PlaceIs(w: nat, x: nat, n: nat, k: nat)
    requires w >= 1 && 1 <= k < w && Pow2(k - 1) < n <= Pow2(k)
    ensures n <= Pow2(w - 1)
    ensures var h := Large(w, k, x);
            Place(w, x, n) ==
            if h < n then h
            else
              var v := ModulusMove(Asterisks(w, k, x), h, Pow2(k - 1), Pow2(k));
              if v < n then v else Large(w, k - 1, x)
  {
    hide Pow2, Large, Asterisks, BitCount, Place;
    Pow2Mono(k, w - 1);
    Pow2Mono(0, k - 1);
    SmallPowers();
    BitCountUnique(n - 1, k);
    PlaceCases(w, x, n, k);
  }

  function ModulusMove(bits: nat, h: nat, k21: nat, k2: nat): int
    requires h >= 1 && k2 >= 1
  {
    DivisorPositive(h);
    bits % (h * (h + 1)) / k2 + k21
  }

  lemma MoveIs(y: nat, h: nat, k2: nat, i: nat)
    requires h >= 1 && k2 >= 1
    ensures SmoothMove(y, h, k2) == i <==> i * k2 <= Remainder(y, h) < (i + 1) * k2
    ensures SmoothMove(y, h, k2) >= i <==> i * k2 <= Remainder(y, h)
  {
    var s := Remainder(y, h);
    DivModIdentity(s, k2);
    QuotientIn(s, k2, s / k2, s % k2, i);
  }

  lemma QuotientIn(s: int, k: int, q: int, r: int, i: int)
    requires s == k * q + r && 0 <= r < k
    ensures q == i <==> i * k <= s < (i + 1) * k
    ensures q >= i <==> i * k <= s
  {
    if q > i { MulMono(k, i + 1, q); }
    if q < i { MulMono(k, q + 1, i); }
  }

  /** Hashes with a given large value, weighed by a function of the bits in the modulus. */
  lemma UpperCount(w: nat, k: nat, u: nat, p: nat -> nat, g: nat -> nat)
    requires 1 <= k < w <= 32 && Pow2(k - 1) <= u < Pow2(k)
    requires forall x: nat :: x < Pow2(4 * w) ==> g(x) == Copies(Mark(Large(w, k, x) == u), p(Asterisks(w, k, x)))
    ensures Sum(Pow2(4 * w), g) == Copies(Square(k), Copies(Sum(Pow2(Kept(w, k)), p), Repeats(w, k)))
  {
    hide Sum, Copies, Pow2, Low, GetAsteriskBits, ForPowersOf2, LowTriples, Halves, Kept, Repeats, Square;
    var low := InUpper(w, k, u);
    forall x: nat | x < Pow2(4 * w) ensures g(x) == JointAt(w, k, low, p, x) {
      var (a, b, c, d) := Words(w, x);
      LowBitsDecide(w, a, b, c, k, k);
      assert low(Low(a, k - 1), Low(b, k - 1), Low(c, k)) == Mark(Large(w, k, x) == u);
    }
    JointCount(w, k, low, p, g);
    UpperTriples(w, k, u);
  }

  /** Hashes with a given large value and a given small value, weighed in the same way. */
  lemma BothCount(w: nat, k: nat, u: nat, j: nat, p: nat -> nat, g: nat -> nat)
    requires 1 <= k < w <= 32 && Pow2(k - 1) <= u < Pow2(k) && j < Pow2(k - 1)
    requires forall x: nat :: x < Pow2(4 * w) ==>
               g(x) == Copies(Mark(Large(w, k, x) == u && Large(w, k - 1, x) == j), p(Asterisks(w, k, x)))
    ensures Sum(Pow2(4 * w), g) == Copies(Pow2(k - 1), Copies(Sum(Pow2(Kept(w, k)), p), Repeats(w, k)))
  {
    hide Sum, Copies, Pow2, Low, GetAsteriskBits, ForPowersOf2, LowTriples, Halves, Kept, Repeats, Square;
    var low := InBoth(w, k, u, j);
    forall x: nat | x < Pow2(4 * w) ensures g(x) == JointAt(w, k, low, p, x) {
      var (a, b, c, d) := Words(w, x);
      LowBitsDecide(w, a, b, c, k, k);
      LowBitsDecide(w, a, b, c, k, k - 1);
      assert low(Low(a, k - 1), Low(b, k - 1), Low(c, k))
             == Mark(Large(w, k, x) == u && Large(w, k - 1, x) == j);
    }
    JointCount(w, k, low, p, g);
    BothTriples(w, k, u, j);
  }

  lemma CopiesMark(x: bool, y: bool)
    ensures Copies(Mark(x), Mark(y)) == Mark(x && y)
  {
  }

  /** Whether the large value is in [n, u) and the remainder in [lo, hi). */
  ghost predicate MovesInto(w: nat, k: nat, n: nat, u: nat, lo: nat, hi: nat, x: nat)
    requires 1 <= k <= w && n >= 1
  {
    n <= Large(w, k, x) < u && lo <= Remainder(Asterisks(w, k, x), Large(w, k, x)) < hi
  }

  lemma {:induction false} UpperMoves(w: nat, k: nat, n: nat, u: nat, lo: nat, hi: nat)
    requires 1 <= k < w <= 32 && Pow2(k - 1) <= n <= u <= Pow2(k)
    ensures Sum(Pow2(4 * w), x => Mark(MovesInto(w, k, n, u, lo, hi, x)))
            == Copies(Square(k), Copies(ResidueSum(Pow2(Kept(w, k)), n, u, lo, hi), Repeats(w, k)))
    decreases u
  {
    hide Sum, Copies, Pow2, Large, Asterisks, Remainder, Kept, Repeats, Square;
    var all, size, a2, r := Pow2(4 * w), Pow2(Kept(w, k)), Square(k), Repeats(w, k);
    var h: nat -> nat := x => Mark(MovesInto(w, k, n, u, lo, hi, x));
    CopiesAdd(0, 0, r);
    CopiesSum(a2, 0, 0);
    if u == n {
      forall x: nat ensures h(x) == 0 { assert h(x) == Mark(MovesInto(w, k, n, u, lo, hi, x)); }
      SumInterval(all, h, 0, 0, 0);
    } else {
      var v := u - 1;
      UpperMoves(w, k, n, v, lo, hi);
      var p: nat -> nat := y => Mark(lo <= Remainder(y, v) < hi);
      var f: nat -> nat := x => Mark(MovesInto(w, k, n, v, lo, hi, x));
      var g: nat -> nat := x => Copies(Mark(Large(w, k, x) == v), p(Asterisks(w, k, x)));
      forall x: nat ensures h(x) == f(x) + g(x) {
        assert p(Asterisks(w, k, x)) == Mark(lo <= Remainder(Asterisks(w, k, x), v) < hi);
        CopiesMark(Large(w, k, x) == v, lo <= Remainder(Asterisks(w, k, x), v) < hi);
        assert h(x) == Mark(MovesInto(w, k, n, u, lo, hi, x)) && f(x) == Mark(MovesInto(w, k, n, v, lo, hi, x));
      }
      SumPlus(all, f, g, h);
      UpperCount(w, k, v, p, g);
      SumSame(size, p, y => Mark(lo <= Remainder(y, v) < hi));
      CopiesAdd(ResidueSum(size, n, v, lo, hi), ResiduesIn(size, v, lo, hi), r);
      CopiesSum(a2, Copies(ResidueSum(size, n, v, lo, hi), r), Copies(ResiduesIn(size, v, lo, hi), r));
    }
  }

  lemma CopiesSum(x: nat, y: nat, z: nat)
    ensures Copies(x, y + z) == Copies(x, y) + Copies(x, z) && Copies(x, 0) == 0
  {
    MulDistrib(x, y, z);
  }

  /** Whether the large value is in [n, u), the remainder is not below `lo`, and the small value is j. */
  ghost predicate FallsBack(w: nat, k: nat, n: nat, u: nat, lo: nat, j: nat, x: nat)
    requires 1 <= k <= w && n >= 1
  {
    && n <= Large(w, k, x) < u && Large(w, k - 1, x) == j
    && lo <= Remainder(Asterisks(w, k, x), Large(w, k, x))
  }

  ghost function ResiduesFrom(size: nat, h: nat, lo: nat): nat
    requires h >= 1
  {
    Sum(size, y => Mark(lo <= Remainder(y, h)))
  }

  ghost function RestSum(size: nat, n: nat, u: nat, lo: nat): nat
    requires 1 <= n <= u
    decreases u
  {
    if u == n then 0 else RestSum(size, n, u - 1, lo) + ResiduesFrom(size, u - 1, lo)
  }

  lemma {:induction false} LowerMoves(w: nat, k: nat, n: nat, u: nat, lo: nat, j: nat)
    requires 1 <= k < w <= 32 && Pow2(k - 1) <= n <= u <= Pow2(k) && j < Pow2(k - 1)
    ensures Sum(Pow2(4 * w), x => Mark(FallsBack(w, k, n, u, lo, j, x)))
            == Copies(Pow2(k - 1), Copies(RestSum(Pow2(Kept(w, k)), n, u, lo), Repeats(w, k)))
    decreases u
  {
    hide Sum, Copies, Pow2, Large, Asterisks, Remainder, Kept, Repeats;
    var all, size, a, r := Pow2(4 * w), Pow2(Kept(w, k)), Pow2(k - 1), Repeats(w, k);
    var h: nat -> nat := x => Mark(FallsBack(w, k, n, u, lo, j, x));
    CopiesAdd(0, 0, r);
    CopiesSum(a, 0, 0);
    if u == n {
      forall x: nat ensures h(x) == 0 { assert h(x) == Mark(FallsBack(w, k, n, u, lo, j, x)); }
      SumInterval(all, h, 0, 0, 0);
    } else {
      var v := u - 1;
      LowerMoves(w, k, n, v, lo, j);
      var p: nat -> nat := y => Mark(lo <= Remainder(y, v));
      var f: nat -> nat := x => Mark(FallsBack(w, k, n, v, lo, j, x));
      var g: nat -> nat :=
        x => Copies(Mark(Large(w, k, x) == v && Large(w, k - 1, x) == j), p(Asterisks(w, k, x)));
      forall x: nat ensures h(x) == f(x) + g(x) {
        assert p(Asterisks(w, k, x)) == Mark(lo <= Remainder(Asterisks(w, k, x), v));
        CopiesMark(Large(w, k, x) == v && Large(w, k - 1, x) == j, lo <= Remainder(Asterisks(w, k, x), v));
        assert h(x) == Mark(FallsBack(w, k, n, u, lo, j, x)) && f(x) == Mark(FallsBack(w, k, n, v, lo, j, x));
      }
      SumPlus(all, f, g, h);
      BothCount(w, k, v, j, p, g);
      SumSame(size, p, y => Mark(lo <= Remainder(y, v)));
      CopiesAdd(RestSum(size, n, v, lo), ResiduesFrom(size, v, lo), r);
      CopiesSum(a, Copies(RestSum(size, n, v, lo), r), Copies(ResiduesFrom(size, v, lo), r));
    }
  }

  lemma SplitResidues(size: nat, h: nat, lo: nat)
    requires h >= 1
    ensures ResiduesFrom(size, h, lo) + ResiduesIn(size, h, 0, lo) == size
  {
    hide Sum, Remainder;
    var f: nat -> nat := y => Mark(lo <= Remainder(y, h));
    var g: nat -> nat := y => Mark(0 <= Remainder(y, h) < lo);
    var one: nat -> nat := y => 1;
    forall y: nat ensures one(y) == f(y) + g(y) {
      assert f(y) == Mark(lo <= Remainder(y, h)) && g(y) == Mark(0 <= Remainder(y, h) < lo);
    }
    SumPlus(size, f, g, one);
    SumInterval(size, one, 0, size, 1);
  }

  /** What is not below the limit is the rest. */
  lemma {:induction false} RestIsComplement(size: nat, n: nat, u: nat, lo: nat)
    requires 1 <= n <= u
    ensures RestSum(size, n, u, lo) + ResidueSum(size, n, u, 0, lo) == (u - n) * size
    decreases u
  {
    hide ResiduesFrom, ResiduesIn;
    if u == n {
    } else {
      RestIsComplement(size, n, u - 1, lo);
      SplitResidues(size, u - 1, lo);
      MulDistrib(size, u - 1 - n, 1);
    }
  }

  // ---- The tallies ----

  lemma LargeTally(w: nat, k: nat, j: nat)
    requires 1 <= k < w && j < Pow2(k)
    ensures Sum(Pow2(4 * w), x => Mark(Large(w, k, x) == j)) == Pow2(4 * w - k)
  {
    hide Sum, Pow2, Place, Large;
    PowerShare(w, k, j);
    var place: nat -> nat := x => Place(w, x, Pow2(k));
    forall x: nat ensures Mark(place(x) == j) == Mark(Large(w, k, x) == j) { LargeAtPower(w, k, x); }
    SumSame(Pow2(4 * w), x => Mark(place(x) == j), x => Mark(Large(w, k, x) == j));
  }

  lemma LargeAtPower(w: nat, k: nat, x: nat)
    requires 1 <= k < w
    ensures 1 <= Pow2(k) <= Pow2(w - 1) && Place(w, x, Pow2(k)) == Large(w, k, x)
  {
    hide Pow2, BucketOf, ForPowersOf2, Halves;
    var (a, b, c, d) := Words(w, x);
    AtPower(w, a, b, c, d, k);
  }

  /** The hashes of larger values that the unused bits move to bucket j of the upper half. */
  ghost function MovedTo(w: nat, n: nat, k: nat, j: nat): nat
    requires 1 <= k <= w && Pow2(k - 1) < n <= Pow2(k) && Pow2(k - 1) <= j
  {
    var i, k2 := j - Pow2(k - 1), Pow2(k);
    Copies(Square(k), Copies(ResidueSum(Pow2(Kept(w, k)), n, k2, Copies(i, k2), Copies(i + 1, k2)), Repeats(w, k)))
  }

  /** Those that they leave to each bucket of the lower half. */
  ghost function LeftTo(w: nat, n: nat, k: nat): nat
    requires 1 <= k <= w && Pow2(k - 1) < n <= Pow2(k)
  {
    var i, k2 := n - Pow2(k - 1), Pow2(k);
    Copies(Pow2(k - 1), Copies(RestSum(Pow2(Kept(w, k)), n, k2, Copies(i, k2)), Repeats(w, k)))
  }

  /** The tally of a bucket of the upper half. */
  lemma UpperTally(w: nat, n: nat, k: nat, j: nat)
    requires 1 <= w <= 32 && 2 <= n <= Pow2(w - 1) && k == BitCount(n - 1) && k >= 1 && Pow2(k - 1) <= j < n
    ensures k < w && Pow2(k - 1) < n <= Pow2(k) && Tally(w, n, j) == Pow2(4 * w - k) + MovedTo(w, n, k, j)
  {
    hide Sum, Copies, Pow2, Large, Asterisks, Remainder, Kept, Repeats, Square, Place, SmoothMove, BitCount;
    var all, i, k2 := Pow2(4 * w), j - Pow2(k - 1), Pow2(k);
    var lo, hi := Copies(i, k2), Copies(i + 1, k2);
    CopiesStep(i, k2);
    CopiesStep(i + 1, k2);
    PlaceCases(w, 0, n, k);
    var place: nat -> nat := x => Place(w, x, n);
    var f: nat -> nat := x => Mark(Large(w, k, x) == j);
    var g: nat -> nat := x => Mark(MovesInto(w, k, n, k2, lo, hi, x));
    forall x: nat ensures Mark(place(x) == j) == f(x) + g(x) {
      PlaceCases(w, x, n, k);
      var h := Large(w, k, x);
      if h >= n { MoveIs(Asterisks(w, k, x), h, k2, i); }
      assert g(x) == Mark(MovesInto(w, k, n, k2, lo, hi, x));
    }
    SumPlus(all, f, g, x => Mark(place(x) == j));
    LargeTally(w, k, j);
    UpperMoves(w, k, n, k2, lo, hi);
  }

  /** The tally of a bucket of the lower half. */
  lemma LowerTally(w: nat, n: nat, k: nat, j: nat)
    requires 1 <= w <= 32 && 2 <= n <= Pow2(w - 1) && k == BitCount(n - 1) && k >= 1 && j < Pow2(k - 1)
    ensures k < w && Pow2(k - 1) < n <= Pow2(k) && Tally(w, n, j) == Pow2(4 * w - k) + LeftTo(w, n, k)
  {
    hide Sum, Copies, Pow2, Large, Asterisks, Remainder, Kept, Repeats, Place, SmoothMove, BitCount;
    PlaceCases(w, 0, n, k);
    var all, i, k2 := Pow2(4 * w), n - Pow2(k - 1), Pow2(k);
    var lo := Copies(i, k2);
    CopiesStep(i, k2);
    Pow2Mono(k - 1, k);
    var place: nat -> nat := x => Place(w, x, n);
    var f: nat -> nat := x => Mark(Large(w, k, x) == j);
    var g: nat -> nat := x => Mark(FallsBack(w, k, n, k2, lo, j, x));
    forall x: nat ensures Mark(place(x) == j) == f(x) + g(x) {
      PlaceCases(w, x, n, k);
      var h := Large(w, k, x);
      if h >= n { MoveIs(Asterisks(w, k, x), h, k2, i); }
      assert g(x) == Mark(FallsBack(w, k, n, k2, lo, j, x));
    }
    SumPlus(all, f, g, x => Mark(place(x) == j));
    LargeTally(w, k, j);
    LowerMoves(w, k, n, k2, lo, j);
  }

  // ---- How nearly equal the shares are ----

  /** The error bound: one block of residues for each large value that moves. */
  function Deviation(w: nat, n: nat): nat
    requires 2 <= n && BitCount(n - 1) <= w
  {
    var k := BitCount(n - 1);
    MulMono(Pow2(k), 0, Pow2(k) - n);
    Copies(Copies(Square(k), Repeats(w, k)), Pow2(k) * (Pow2(k) - n))
  }

  lemma ShareParts(w: nat, k: nat)
    requires 1 <= k < w
    ensures Pow2(4 * w - k) == Copies(Square(k), Copies(Pow2(Kept(w, k)), Repeats(w, k)))
    ensures Pow2(4 * w) == Pow2(k) * Pow2(4 * w - k)
  {
    hide Pow2;
    var e, total := Kept(w, k), UnusedBits(w, k);
    Pow2Add(total - e, e);
    Pow2Add(k - 1, k - 1);
    Pow2Add(2 * k - 2, total);
    Pow2Add(k, 4 * w - k);
  }

  /** The moves fit below every modulus. */
  lemma MoveFits(n: int, a: int)
    requires 0 <= a <= n
    ensures (n - a) * (2 * a) <= n * (n + 1)
  {
    assert n * (n + 1) - (n - a) * (2 * a) == (n - a) * (n - a) + a * a + n;
    MulMono(n - a, 0, n - a);
    MulMono(a, 0, a);
  }

  lemma CancelWithin(x: int, bound: int, v: int)
    requires v >= 1 && Within(v * x, v * bound)
    ensures Within(x, bound)
  {
    UnscaleWithin(x, bound, v, v * x, v * bound, 0, 0);
  }

  lemma UpperInts(n: int, k2: int, y: int, z: int, c: int)
    requires k2 >= 1 && c >= 0 && Telescoped(n, k2, k2, y, z)
    ensures Within(n * (c * y + c * z) - k2 * (c * y), n * (c * (k2 * (k2 - n))))
  {
    var x, bound := n * z - y * (k2 - n), n * (k2 * (k2 - n));
    UpperTerms(n, k2, k2 - n, y, z, c);
    BoundTerms(n, k2, k2 * (k2 - n), c);
    hide *;
    CancelWithin(x, bound, k2);
    ScaleWithin(x, bound, c);
  }

  lemma UpperTerms(n: int, k2: int, d: int, y: int, z: int, c: int)
    requires d == k2 - n
    ensures k2 * (n * z - y * d) == (n * k2) * z - (k2 * y) * d
    ensures c * (n * z - y * d) == n * (c * y + c * z) - k2 * (c * y)
  {
    assert c * (n * z - y * d) == c * (n * z) - c * (y * d);
  }

  lemma BoundTerms(n: int, k2: int, t: int, c: int)
    ensures k2 * (n * t) == (n * k2) * t && c * (n * t) == n * (c * t)
  {
    MulAssoc(n, k2, t);
  }

  lemma LowerInts(n: int, k2: int, a: int, y: int, z: int, c: int)
    requires 0 <= a <= n <= k2 == 2 * a && k2 >= 1 && c >= 0
    requires Telescoped(n, k2, (n - a) * k2, y, z)
    ensures Within(n * ((c * a) * y + c * ((k2 - n) * y - z)) - k2 * ((c * a) * y), n * ((c * a) * (k2 * (k2 - n))))
  {
    var e, d := n - a, k2 - n;
    var x, bound := n * z - (e * y) * d, e * (n * (k2 * d));
    LowerTerms(n, k2, e, d, y, z);
    LowerTally0(n, k2, a, e, d, y, z, c);
    LowerBound(n, k2, a, c);
    hide *;
    CancelWithin(x, bound, k2);
    ScaleWithin(x, bound, c);
    StillWithin(c * x, c * bound, n * ((c * a) * (k2 * d)));
  }

  lemma StillWithin(x: int, bound: int, wider: int)
    requires Within(x, bound) && bound <= wider
    ensures Within(x, wider) && Within(-x, wider)
  {
  }

  lemma LowerTerms(n: int, k2: int, e: int, d: int, y: int, z: int)
    ensures k2 * (n * z - (e * y) * d) == (n * k2) * z - ((e * k2) * y) * d
    ensures k2 * (e * (n * (k2 * d))) == (n * k2) * ((e * k2) * d)
  {
    assert k2 * ((e * y) * d) == ((e * k2) * y) * d;
  }

  lemma LowerTally0(n: int, k2: int, a: int, e: int, d: int, y: int, z: int, c: int)
    requires k2 == 2 * a && e == n - a && d == k2 - n
    ensures n * ((c * a) * y + c * (d * y - z)) - k2 * ((c * a) * y) == -(c * (n * z - (e * y) * d))
  {
    assert n * a + n * d - k2 * a == e * d;
    CollectTerms(n, k2, a, d, y, z, c);
    MulAssoc(e, d, y);
    assert (e * d) * y == (e * y) * d;
  }

  lemma CollectTerms(n: int, m: int, a: int, d: int, y: int, z: int, c: int)
    ensures n * ((c * a) * y + c * (d * y - z)) - m * ((c * a) * y) == c * ((n * a + n * d - m * a) * y - n * z)
  {
  }

  lemma LowerBound(n: int, k2: int, a: int, c: int)
    requires 0 <= a <= n <= k2 == 2 * a && c >= 0
    ensures c * ((n - a) * (n * (k2 * (k2 - n)))) <= n * ((c * a) * (k2 * (k2 - n)))
  {
    MulMono(k2, 0, k2 - n);
    LowerBoundInts(n, a, c, k2 * (k2 - n));
  }

  lemma LowerBoundInts(n: int, a: int, c: int, q: int)
    requires 0 <= a <= n <= 2 * a && c >= 0 && q >= 0
    ensures c * ((n - a) * (n * q)) <= n * ((c * a) * q)
  {
    MulMono(n, 0, q);
    MulMono(n * q, n - a, a);
    MulMono(c, (n - a) * (n * q), a * (n * q));
    SwapFactors(n, c, a, q);
    MulAssoc(a, n, q);
  }

  lemma Reassociate(x: nat, y: nat, r: nat)
    ensures Copies(x, Copies(y, r)) == Copies(x, r) * y
  {
    Regroup(x, y, r);
    MulAssoc(r, x, y);
  }

  lemma NearlyUpper(w: nat, n: nat, k: nat, j: nat)
    requires 1 <= w <= 32 && 2 <= n <= Pow2(w - 1) && k == BitCount(n - 1) && 1 <= k < w && Pow2(k - 1) <= j < n
    ensures Within(n * Tally(w, n, j) - Pow2(4 * w), n * Deviation(w, n))
  {
    hide Pow2, Tally, Square, Repeats, Kept, ResidueSum, BitCount, Within;
    var a, k2, y, c := Pow2(k - 1), Pow2(k), Pow2(Kept(w, k)), Copies(Square(k), Repeats(w, k));
    var i := j - a;
    var lo, hi := Copies(i, k2), Copies(i + 1, k2);
    UpperTally(w, n, k, j);
    Pow2Next(k - 1);
    MoveFits(n, a);
    MulMono(k2, i + 1, n - a);
    CopiesStep(i, k2);
    ResidueSumBound(y, n, k2, lo, hi);
    var z := ResidueSum(y, n, k2, lo, hi);
    UpperInts(n, k2, y, z, c);
    ShareParts(w, k);
    Reassociate(Square(k), y, Repeats(w, k));
    Reassociate(Square(k), z, Repeats(w, k));
  }

  lemma NearlyLower(w: nat, n: nat, k: nat, j: nat)
    requires 1 <= w <= 32 && 2 <= n <= Pow2(w - 1) && k == BitCount(n - 1) && 1 <= k < w && j < Pow2(k - 1)
    ensures Within(n * Tally(w, n, j) - Pow2(4 * w), n * Deviation(w, n))
  {
    hide Pow2, Tally, Repeats, Kept, ResidueSum, RestSum, BitCount, Within;
    var a, k2, y, c := Pow2(k - 1), Pow2(k), Pow2(Kept(w, k)), Copies(Pow2(k - 1), Repeats(w, k));
    LowerTally(w, n, k, j);
    Pow2Next(k - 1);
    var hi := Copies(n - a, k2);
    MoveFits(n, a);
    ResidueSumBound(y, n, k2, 0, hi);
    RestIsComplement(y, n, k2, hi);
    var z, rest := ResidueSum(y, n, k2, 0, hi), RestSum(y, n, k2, hi);
    LowerInts(n, k2, a, y, z, c);
    ShareParts(w, k);
    LowerParts(a, y, rest, Repeats(w, k));
  }

  lemma LowerParts(a: nat, y: nat, rest: nat, r: nat)
    ensures Copies(Copies(a, a), Copies(y, r)) == (Copies(a, r) * a) * y
    ensures Copies(a, Copies(rest, r)) == Copies(a, r) * rest && Copies(Copies(a, a), r) == Copies(a, r) * a
  {
    Reassociate(Copies(a, a), y, r);
    Reassociate(a, rest, r);
    MulAssoc(a, a, r);
  }

  /** Every bucket gets its equal share of the hashes, up to the deviation, for every number of buckets. */
  lemma NearlyEqualShares(w: nat, n: nat, j: nat)
    requires 1 <= w <= 32 && 2 <= n <= Pow2(w - 1) && j < n
    ensures BitCount(n - 1) < w && Within(n * Tally(w, n, j) - Pow2(4 * w), n * Deviation(w, n))
  {
    hide *;
    var k := BitCount(n - 1);
    PlaceCases(w, 0, n, k);
    if j < Pow2(k - 1) { NearlyLower(w, n, k, j); } else { NearlyUpper(w, n, k, j); }
  }

  /** The deviation in powers of two. */
  lemma DeviationBound(w: nat, n: nat, k: nat)
    requires w >= 1 && 2 <= n <= Pow2(w - 1) && k == BitCount(n - 1)
    ensures 1 <= k < w && n * Deviation(w, n) <= Repeats(w, k) * Pow2(5 * k - 3)
  {
    hide Pow2, BitCount, Repeats;
    PlaceCases(w, 0, n, k);
    var a, k2, r := Pow2(k - 1), Pow2(k), Repeats(w, k);
    Pow2Next(k - 1);
    Pow2Add(k - 1, k - 1);
    Pow2Add(k, k - 1);
    Pow2Add(2 * k - 2, 2 * k - 1);
    Pow2Add(k, 4 * k - 3);
    DeviationInts(n, a, k2, r);
  }

  lemma DeviationInts(n: int, a: int, k2: int, r: int)
    requires 0 <= a <= n <= k2 == 2 * a && r >= 0
    ensures n * (((a * a) * r) * (k2 * (k2 - n))) <= r * (k2 * ((a * a) * (k2 * a)))
  {
    var s, t := a * a, k2 * (k2 - n);
    MulMono(a, 0, a);
    MulMono(k2, k2 - n, a);
    MulMono(k2, 0, k2 - n);
    ProductMono(n, t, k2, k2 * a);
    MulMono(s, n * t, k2 * (k2 * a));
    MulMono(r, s * (n * t), s * (k2 * (k2 * a)));
    DeviationTerms(n, s, r, t);
    DeviationTerms(k2, s, r, k2 * a);
  }

  lemma DeviationTerms(n: int, s: int, r: int, t: int)
    ensures n * ((s * r) * t) == r * (s * (n * t)) == r * (n * (s * t))
  {
    SwapFactors(n, s, r, t);
    MulAssoc(n, s, t);
    MulAssoc(s, n, t);
  }

  /** Up to 1024 buckets, the 64-bit function is fair to one part in 2^17. */
  lemma FairUpTo1024(n: nat, j: nat)
    requires 2 <= n <= 1024 && j < n
    ensures 1024 <= Pow2(15) && Within(n * Tally(16, n, j) - Pow2(64), Pow2(47))
  {
    hide *;
    PublicLimits();
    var k := BitCount(n - 1);
    BlockBits(16, n);
    TenBits(k, n);
    NearlyEqualShares(16, n, j);
    DeviationUpTo1024(n, k);
    StillWithin(n * Tally(16, n, j) - Pow2(64), n * Deviation(16, n), Pow2(47));
  }

  lemma DeviationUpTo1024(n: nat, k: nat)
    requires 2 <= n <= Pow2(15) && k == BitCount(n - 1) && 1 <= k <= 10
    ensures n * Deviation(16, n) <= Pow2(47)
  {
    hide Pow2, BitCount, Deviation;
    DeviationBound(16, n, k);
    SmallPowers();
    assert Repeats(16, k) == 1;
    hide Repeats;
    Pow2Mono(5 * k - 3, 47);
  }

  lemma TenBits(k: nat, n: nat)
    requires k >= 1 && Pow2(k - 1) < n <= 1024
    ensures k <= 10
  {
    hide Pow2;
    SmallPowers();
    Pow2Add(3, 3);
    Pow2Add(6, 3);
    Pow2Next(9);
    if k > 10 { Pow2Mono(10, k - 1); }
  }

  lemma {:induction false} RangeWithin(size: nat, place: nat -> nat, lo: nat, hi: nat, n: nat, share: int, bound: int)
    requires lo <= hi
    requires forall j: nat :: lo <= j < hi ==> Within(n * TallyOf(size, place, j) - share, bound)
    ensures Within(n * RangeOf(size, place, lo, hi) - (hi - lo) * share, (hi - lo) * bound)
    decreases hi
  {
    hide TallyOf, RangeOf;
    if lo == hi {
      RangeEqual(size, place, lo, hi, 0);
    } else {
      RangeWithin(size, place, lo, hi - 1, n, share, bound);
      RangeStep(size, place, lo, hi);
      MulDistrib(n, RangeOf(size, place, lo, hi - 1), TallyOf(size, place, hi - 1));
      MulDistrib(share, hi - 1 - lo, 1);
      MulDistrib(bound, hi - 1 - lo, 1);
    }
  }

  /** And a growth moves its least share of the hashes, up to the deviation of every new bucket. */
  lemma NearlyMinimalMoves(w: nat, n1: nat, n2: nat)
    requires 1 <= w <= 32 && 1 <= n1 <= n2 && 2 <= n2 <= Pow2(w - 1)
    ensures BitCount(n2 - 1) < w
    ensures Within(n2 * Moves(w, n1, n2) - (n2 - n1) * Pow2(4 * w), (n2 - n1) * (n2 * Deviation(w, n2)))
  {
    hide Pow2, Sum, Place, TallyOf, RangeOf, Moves, Within, BitCount, Deviation;
    PlaceCases(w, 0, n2, BitCount(n2 - 1));
    var place: nat -> nat := x => Place(w, x, n2);
    forall j: nat | n1 <= j < n2
      ensures Within(n2 * TallyOf(Pow2(4 * w), place, j) - Pow2(4 * w), n2 * Deviation(w, n2))
    {
      NearlyEqualShares(w, n2, j);
    }
    RangeWithin(Pow2(4 * w), place, n1, n2, n2, Pow2(4 * w), n2 * Deviation(w, n2));
    MovesAreRange(w, n1, n2);
  }

  // ---- Where the unused bits run out ----

  lemma {:induction false} NoResidues(size: nat, n: nat, u: nat, lo: nat, hi: nat)
    requires 1 <= n <= u && size <= lo
    ensures ResidueSum(size, n, u, lo, hi) == 0
    decreases u
  {
    hide Sum, Remainder;
    if u == n {
    } else {
      NoResidues(size, n, u - 1, lo, hi);
      var f: nat -> nat := y => Mark(lo <= Remainder(y, u - 1) < hi);
      forall y: nat | y < size ensures f(y) == 0 {
        assert f(y) == Mark(lo <= Remainder(y, u - 1) < hi);
        RemainderAtMost(y, u - 1);
      }
      SumInterval(size, f, 0, 0, 0);
    }
  }

  lemma RemainderAtMost(y: nat, h: nat)
    requires h >= 1
    ensures Remainder(y, h) <= y
  {
    DivisorPositive(h);
    ModAtMost(y, h * (h + 1));
  }

  /** A bucket too far above 2^(k-1) for the kept bits is reached as rarely as with 2^k buckets. */
  lemma StarvedBuckets(w: nat, n: nat, k: nat, j: nat)
    requires 1 <= w <= 32 && 2 <= n <= Pow2(w - 1) && k == BitCount(n - 1) && 1 <= k < w && Pow2(k - 1) <= j < n
    requires Pow2(Kept(w, k)) <= (j - Pow2(k - 1)) * Pow2(k)
    ensures Tally(w, n, j) == Pow2(4 * w - k)
  {
    hide Pow2, Tally, Square, Repeats, Kept, ResidueSum, BitCount, Copies;
    var k2, i := Pow2(k), j - Pow2(k - 1);
    UpperTally(w, n, k, j);
    CopiesStep(i, k2);
    NoResidues(Pow2(Kept(w, k)), n, k2, Copies(i, k2), Copies(i + 1, k2));
    CopiesAdd(0, 0, Repeats(w, k));
    CopiesSum(Square(k), 0, 0);
  }

  /** With 16449 buckets the last one gets little more than half of its share of the 64-bit hashes. */
  lemma HalfAShare()
    ensures 16449 <= Pow2(15) && 25 * (16449 * Tally(16, 16449, 16448)) < 13 * Pow2(64)
  {
    hide Pow2, Tally, BitCount;
    PublicLimits();
    Pow2Next(14);
    BitCountUnique(16448, 15);
    Pow2Add(6, 15);
    SmallPowers();
    Pow2Add(3, 3);
    StarvedBuckets(16, 16449, 15, 16448);
    Pow2Add(49, 15);
  }

  // ---- Known answers ----

  const EXAMPLE := 0xDEAD_BEEF_DEAD_BEEF

  lemma ExampleWords()
    ensures EXAMPLE < Pow2(64) && Words(16, EXAMPLE) == (0xBEEF, 0xDEAD, 0xBEEF, 0xDEAD)
  {
    hide Pow2;
    WordSizes();
  }

  lemma ExamplePowers()
    ensures Pow2(0) == 1 && Pow2(1) == 2 && Pow2(2) == 4 && Pow2(6) == 64 && Pow2(7) == 128 && Pow2(8) == 256
    ensures Pow2(9) == 512 && Pow2(14) == 16384 && Pow2(15) == 32768 && Pow2(16) == 65536
  {
  }

  lemma ExampleCounts()
    ensures PopCount(3) == 2 && PopCount(111) == 6 && PopCount(239) == 7
    ensures BitCount(3) == 2 && BitCount(111) == 7 && BitCount(239) == 8
  {
    hide Pow2, BitCount;
    ExamplePowers();
    BitCountUnique(3, 2);
    BitCountUnique(111, 7);
    BitCountUnique(239, 8);
  }

  /** The large value, from the low k bits of c and the position of their top bit. */
  lemma ExampleLarge(k: nat, g: nat, y: nat, p: nat, q: nat)
    requires 1 <= k < 16 && p == Pow2(k) && q == Pow2(y) && g == 0xBEEF % p && g >= 2 && BitCount(g) == y + 1
    ensures ForPowersOf2(16, 0xBEEF, 0xDEAD, 0xBEEF, p) == q + (if PopCount(g) % 2 == 0 then 0xBEEF else 0xDEAD) % q
  {
    hide Pow2, PopCount, BitCount, ForPowersOf2;
    LargeScheme(16, 0xBEEF, 0xDEAD, 0xBEEF, k);
  }

  lemma ExampleLargeValues()
    ensures Large(16, 1, EXAMPLE) == 1 && Large(16, 2, EXAMPLE) == 3
    ensures Large(16, 7, EXAMPLE) == 111 && Large(16, 8, EXAMPLE) == 173
  {
    hide Pow2, PopCount, BitCount, ForPowersOf2, Words;
    ExampleWords();
    ExamplePowers();
    ExampleCounts();
    LargeScheme(16, 0xBEEF, 0xDEAD, 0xBEEF, 1);
    ExampleLarge(2, 3, 1, 4, 2);
    ExampleLarge(7, 111, 6, 128, 64);
    ExampleLarge(8, 239, 7, 256, 128);
  }

  lemma ExampleBits()
    ensures Asterisks(16, 2, EXAMPLE) == 1002855686447259511 && Asterisks(16, 8, EXAMPLE) == 3825590827901
  {
    hide Pow2, GetAsteriskBits, Words;
    ExampleWords();
    ExamplePowers();
    AsteriskBits(16, 0xBEEF, 0xDEAD, 0xBEEF, 0xDEAD, 2);
    AsteriskBits(16, 0xBEEF, 0xDEAD, 0xBEEF, 0xDEAD, 8);
  }

  lemma ExamplePlaces()
    ensures 255 <= Pow2(15)
    ensures Place(16, EXAMPLE, 2) == 1 && Place(16, EXAMPLE, 3) == 1 && Place(16, EXAMPLE, 4) == 3
    ensures Place(16, EXAMPLE, 120) == 111 && Place(16, EXAMPLE, 173) == 111 && Place(16, EXAMPLE, 255) == 173
  {
    hide Pow2, Large, Asterisks, Place;
    ExamplePowers();
    ExampleLargeValues();
    ExampleBits();
    PlaceIs(16, EXAMPLE, 2, 1);
    PlaceIs(16, EXAMPLE, 3, 2);
    PlaceIs(16, EXAMPLE, 4, 2);
    PlaceIs(16, EXAMPLE, 120, 7);
    PlaceIs(16, EXAMPLE, 173, 8);
    PlaceIs(16, EXAMPLE, 255, 8);
  }

  /** The answers that the functional tests expect. */
  lemma KnownBuckets()
    ensures EXAMPLE < Pow2(64)
    ensures Hash64(EXAMPLE, 1) == Bucket(0) && Hash64(EXAMPLE, 2) == Bucket(1) && Hash64(EXAMPLE, 3) == Bucket(1)
    ensures Hash64(EXAMPLE, 4) == Bucket(3) && Hash64(EXAMPLE, 120) == Bucket(111)
    ensures Hash64(EXAMPLE, 173) == Bucket(111) && Hash64(EXAMPLE, 255) == Bucket(173)
  {
    hide Pow2, Place, Hash64;
    ExampleWords();
    ExamplePlaces();
    FirstBucket();
    Hash64Place(EXAMPLE, 2);
    Hash64Place(EXAMPLE, 3);
    Hash64Place(EXAMPLE, 4);
    Hash64Place(EXAMPLE, 120);
    Hash64Place(EXAMPLE, 173);
    Hash64Place(EXAMPLE, 255);
  }

  lemma FirstBucket()
    ensures EXAMPLE < Pow2(64) && Hash64(EXAMPLE, 1) == Bucket(0)
  {
    hide Pow2, Words;
    WordSizes();
    Hash64Place(EXAMPLE, 1);
  }
}
