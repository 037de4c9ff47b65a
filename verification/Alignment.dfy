/** Namespace alignment: greatest common divisor, least common multiple, and the adjustment of a block count
    to an aligned capacity, with the integer widths of the library. */
module Alignment {
  import opened Arithmetic
  import opened Words

  const PAGE_SIZE := 4096
  const CACHE_LINE := 64

  // ---------------------------------------------------------------------------------------------
  // Divisors

  predicate Divides(d: nat, n: int) { d > 0 && n % d == 0 }

  lemma DividesMultiple(d: nat, k: int)
    requires d > 0
    ensures Divides(d, k * d)
  {
    MultipleMod(k, d);
  }

  lemma DividesLinear(d: nat, m: int, n: int, k: int)
    requires Divides(d, m) && Divides(d, n)
    ensures Divides(d, k * m + n)
  {
    var p, q := m / d, n / d;
    assert m == p * d && n == q * d;
    assert k * m + n == (k * p + q) * d by {
      assert k * (p * d) == (k * p) * d;
      assert (k * p + q) * d == (k * p) * d + q * d;
    }
    DividesMultiple(d, k * p + q);
  }

  /** The library's Euclidean algorithm, one turn a call. */
  function Gcd(block: nat, page: nat): nat
    decreases block
  {
    if block == 0 then page
    else if page % block == 0 then block
    else Gcd(block % (page % block), page % block)
  }

  method GetGreatestCommonDivisor(block: nat, page: nat) returns (gcd: nat)
    ensures gcd == Gcd(block, page)
  {
    var b, p := block, page;
    while true
      invariant Gcd(b, p) == Gcd(block, page)
      decreases b
    {
      if b == 0 { return p; }
      p := p % b;
      if p == 0 { return b; }
      b := b % p;
    }
  }

  /** A number is its quotient times the divisor and its remainder. */
  lemma DivMod(a: nat, r: nat)
    requires r > 0
    ensures a == (a / r) * r + a % r && a % r < r
  {
  }

  lemma {:induction false} GcdDivides(a: nat, b: nat)
    requires a > 0 || b > 0
    ensures Divides(Gcd(a, b), a) && Divides(Gcd(a, b), b)
    decreases a
  {
    if a != 0 && b % a != 0 {
      GcdDivides(a % (b % a), b % a);
      DividesBack(Gcd(a, b), a, b);
    }
  }

  lemma DividesBack(g: nat, a: nat, b: nat)
    requires a > 0 && b % a != 0 && Divides(g, a % (b % a)) && Divides(g, b % a)
    ensures Divides(g, a) && Divides(g, b)
  {
    hide Divides;
    var r := b % a;
    DivMod(a, r);
    DivMod(b, a);
    DividesLinear(g, r, a % r, a / r);
    DividesLinear(g, a, r, b / a);
  }

  /** The divisor is a combination of the two numbers. */
  lemma {:induction false} GcdCombines(a: nat, b: nat) returns (x: int, y: int)
    ensures a * x + b * y == Gcd(a, b)
    decreases a
  {
    if a == 0 {
      x, y := 0, 1;
    } else if b % a == 0 {
      x, y := 1, 0;
    } else {
      x, y := GcdCombines(a % (b % a), b % a);
      x, y := CombineBack(a, b, x, y);
    }
  }

  lemma CombineBack(a: nat, b: nat, x: int, y: int) returns (x1: int, y1: int)
    requires a > 0 && b % a != 0
    ensures a * x1 + b * y1 == (a % (b % a)) * x + (b % a) * y
  {
    DivMod(b, a);
    DivMod(a, b % a);
    x1, y1 := Recombine(a, b, b / a, b % a, a / (b % a), a % (b % a), x, y);
  }

  lemma Recombine(a: int, b: int, q: int, r: int, p: int, s: int, x: int, y: int) returns (x1: int, y1: int)
    requires b == q * a + r && a == p * r + s
    ensures a * x1 + b * y1 == s * x + r * y
  {
    var t := y - p * x;
    x1, y1 := x - q * t, t;
    assert a * (x - q * t) == a * x - q * a * t by {
      assert a * (x - q * t) == a * x - a * (q * t);
      assert a * (q * t) == q * a * t;
    }
    assert b * t == q * a * t + r * t;
    assert r * t == r * y - p * r * x by {
      assert r * (y - p * x) == r * y - r * (p * x);
      assert r * (p * x) == p * r * x;
    }
    assert a * x == p * r * x + s * x;
  }

  lemma Positive(d: nat, n: int)
    requires Divides(d, n)
    ensures d > 0 && (n / d) * d == n
  {
  }

  /** Every common divisor divides the greatest one. */
  lemma CommonDivisor(a: nat, b: nat, d: nat)
    requires Divides(d, a) && Divides(d, b)
    ensures Divides(d, Gcd(a, b))
  {
    hide Gcd, Divides;
    assert d > 0 by { Positive(d, a); }
    var x, y := GcdCombines(a, b);
    DividesMultiple(d, 0);
    DividesLinear(d, b, 0, y);
    DividesLinear(d, a, y * b, x);
    assert x * a + y * b == a * x + b * y;
  }

  /** block / gcd * page. */
  function Lcm(a: nat, b: nat): nat
    requires a > 0 || b > 0
  {
    GcdDivides(a, b);
    a / Gcd(a, b) * b
  }

  /** Both numbers divide it. */
  lemma LcmIsMultiple(a: nat, b: nat)
    requires a > 0 && b > 0
    ensures Lcm(a, b) > 0 && Divides(a, Lcm(a, b)) && Divides(b, Lcm(a, b))
  {
    hide Gcd, Divides;
    GcdDivides(a, b);
    var g := Gcd(a, b);
    Positive(g, a);
    Positive(g, b);
    var a1, b1 := a / g, b / g;
    assert a1 > 0 by { if a1 <= 0 { Scale(a1, 0, g); } }
    Scale(1, a1, b);
    DividesMultiple(b, a1);
    Swap(a1, b1, g);
    DividesMultiple(a, b1);
  }

  /** It is the least common multiple: both numbers divide it, and it divides every common multiple. */
  lemma LcmIsLeast(a: nat, b: nat, m: int)
    requires a > 0 && b > 0
    ensures Lcm(a, b) > 0 && Divides(a, Lcm(a, b)) && Divides(b, Lcm(a, b))
    ensures Divides(a, m) && Divides(b, m) ==> Divides(Lcm(a, b), m)
  {
    hide Gcd, Divides;
    LcmIsMultiple(a, b);
    if Divides(a, m) && Divides(b, m) {
      GcdDivides(a, b);
      var g, l := Gcd(a, b), Lcm(a, b);
      Positive(g, a);
      Positive(a, m);
      Positive(b, m);
      var x, y := GcdCombines(a, b);
      var t := CommonMultiple(a, b, g, l, m, m / a, m / b, x, y, a / g);
      DividesMultiple(l, t);
    }
  }

  lemma Swap(x: int, y: int, g: int)
    ensures x * (y * g) == y * (x * g)
  {
  }

  lemma CommonMultiple(a: int, b: int, g: int, l: int, m: int, p: int, q: int, x: int, y: int, a1: int)
    returns (t: int)
    requires g > 0 && m == p * a && m == q * b && a * x + b * y == g && a == a1 * g && l == a1 * b
    ensures m == t * l
  {
    t := q * x + p * y;
    assert m * g == m * (a * x) + m * (b * y);
    assert m * (a * x) == (a * b) * (q * x) by { Regroup(q, b, a, x); }
    assert m * (b * y) == (a * b) * (p * y) by { Regroup(p, a, b, y); }
    assert m * g == (a * b) * t;
    assert a * b == l * g by { assert a1 * g * b == a1 * b * g; }
    assert m * g == (t * l) * g by { assert (l * g) * t == (t * l) * g; }
    Cancel(m, t * l, g);
  }

  lemma Regroup(q: int, b: int, a: int, x: int)
    ensures (q * b) * (a * x) == (a * b) * (q * x)
    ensures (q * b) * (a * x) == (b * a) * (q * x)
  {
    assert (q * b) * (a * x) == q * (b * (a * x));
    assert b * (a * x) == (a * b) * x;
    assert q * ((a * b) * x) == (a * b) * (q * x);
  }

  lemma Cancel(m: int, n: int, g: int)
    requires g > 0 && m * g == n * g
    ensures m == n
  {
    assert (m - n) * g == 0;
    if m > n { Scale(1, m - n, g); } else if m < n { Scale(m - n, -1, g); }
  }

  // ---------------------------------------------------------------------------------------------
  // Rounding

  function RoundUp(n: Word64, multiple: Word64): Word64
    requires multiple > 0
  {
    if n % multiple != 0 then Wrap(n + (multiple - n % multiple)) else n
  }

  /** The least multiple at or above n, without wrapping. */
  function Ceiling(n: nat, multiple: nat): nat
    requires multiple > 0
  {
    if n % multiple != 0 then n + (multiple - n % multiple) else n
  }

  lemma CeilingIsLeast(n: nat, multiple: nat, m: int)
    requires multiple > 0
    ensures n <= Ceiling(n, multiple) < n + multiple && Divides(multiple, Ceiling(n, multiple))
    ensures Divides(multiple, m) && m >= n ==> m >= Ceiling(n, multiple)
  {
    var q := n / multiple;
    assert n == q * multiple + n % multiple;
    if n % multiple != 0 {
      assert Ceiling(n, multiple) == (q + 1) * multiple;
      MultipleMod(q + 1, multiple);
    }
    if Divides(multiple, m) && m >= n {
      var k := m / multiple;
      assert m == k * multiple;
      if n % multiple != 0 {
        if k <= q { Scale(k, q, multiple); }
        Scale(q + 1, k, multiple);
      }
    }
  }

  lemma RoundUpIsCeiling(n: Word64, multiple: Word64)
    requires multiple > 0 && Ceiling(n, multiple) < U64
    ensures RoundUp(n, multiple) == Ceiling(n, multiple)
  {
    WrapIsId(Ceiling(n, multiple));
  }

  /** A block size of 1 stays; any other is rounded up to whole cache lines. */
  function RealBlockSize(block: nat): (size: nat)
    ensures block <= size < block + CACHE_LINE
    ensures size == 1 || size % CACHE_LINE == 0
    ensures block <= 0xFFFF ==> size <= 0x1_0000
  {
    if block == 1 then 1 else Ceiling(block, CACHE_LINE)
  }

  lemma RealBlockSizeStays(block: nat)
    ensures RealBlockSize(RealBlockSize(block)) == RealBlockSize(block)
    // just a size of 1 and whole cache lines need no rounding
    ensures RealBlockSize(block) == block <==> block == 1 || block % 64 == 0
  {
  }

  function AlignmentSize(block: nat, ways: nat): Word32
    requires block > 0
  {
    GcdDivides(block, Wrap32(PAGE_SIZE * ways));
    Wrap32(block / Gcd(block, Wrap32(PAGE_SIZE * ways)) * Wrap32(PAGE_SIZE * ways))
  }

  /** For the block sizes the driver uses the alignment is the least common multiple, without wrapping. */
  lemma AlignmentIsLcm(block: nat, ways: nat)
    requires 0 < block <= 0x1_0000 && (block == 1 || block % CACHE_LINE == 0) && 0 < ways < 256
    ensures AlignmentSize(block, ways) == Lcm(block, PAGE_SIZE * ways) > 0
    ensures Lcm(block, PAGE_SIZE * ways) <= 1024 * (PAGE_SIZE * ways)
  {
    hide Gcd, Divides;
    var page := PAGE_SIZE * ways;
    var g := Gcd(block, page);
    GcdDivides(block, page);
    LcmIsMultiple(block, page);
    Positive(g, block);
    if block != 1 {
      assert Divides(CACHE_LINE, block) && Divides(CACHE_LINE, page) by { PageOfLines(block, ways); }
      CommonDivisor(block, page, CACHE_LINE);
      AtLeast(CACHE_LINE, g);
    }
    QuotientBound(block / g, g, block);
    Scale(block / g, 1024, page);
  }

  lemma PageOfLines(block: nat, ways: nat)
    requires block % CACHE_LINE == 0
    ensures Divides(CACHE_LINE, block) && Divides(CACHE_LINE, PAGE_SIZE * ways)
  {
  }

  lemma AtLeast(d: nat, n: nat)
    requires Divides(d, n) && n > 0
    ensures n >= d
  {
    Positive(d, n);
    if n / d <= 0 { Scale(n / d, 0, d); }
    Scale(1, n / d, d);
  }

  lemma QuotientBound(k: int, g: nat, block: nat)
    requires g > 0 && k * g == block <= 0x1_0000 && (block == 1 || g >= CACHE_LINE)
    ensures k <= 1024
  {
    if k > 1024 { Scale(1025, k, g); }
  }

  // ---------------------------------------------------------------------------------------------
  // The adjustment

  function Quotient(n: Word64, d: nat): Word64
    requires d > 0
  {
    assert n / d <= n by { if n / d > n { Scale(n + 1, n / d, d); Scale(1, d, n + 1); } }
    n / d
  }

  function AdjustBlockCount(count: Word64, block: nat, ways: nat): Word64
    requires 0 < block <= 0xFFFF && 0 < ways < 256
  {
    var size := RealBlockSize(block);
    AlignmentIsLcm(size, ways);
    Quotient(RoundUp(Wrap(count * size), AlignmentSize(size, ways)), size)
  }

  method AdjustNamespaceBlockCount(count0: Word64, block: nat, ways: nat) returns (count: Word64)
    requires 0 < block <= 0xFFFF && 0 < ways < 256
    ensures count == AdjustBlockCount(count0, block, ways)
  {
    hide Gcd, RoundUp, RealBlockSize, Quotient;
    var size := RealBlockSize(block);
    var alignment := GetAlignmentSize(size, ways);
    AlignmentIsLcm(size, ways);
    var capacity := Wrap(count0 * size);
    capacity := RoundUp(capacity, alignment);
    count := Quotient(capacity, size);
  }

  method GetAlignmentSize(block: nat, ways: nat) returns (alignment: Word32)
    requires block > 0
    ensures alignment == AlignmentSize(block, ways)
  {
    hide Gcd;
    GcdDivides(block, Wrap32(PAGE_SIZE * ways));
    var gcd := GetGreatestCommonDivisor(block, Wrap32(PAGE_SIZE * ways));
    alignment := Wrap32(block / gcd * Wrap32(PAGE_SIZE * ways));
  }

  /** The capacity in bytes the request rounds up to. */
  function Aligned(count: nat, block: nat, ways: nat): nat
    requires 0 < block <= 0xFFFF && 0 < ways < 256
  {
    LcmIsMultiple(RealBlockSize(block), PAGE_SIZE * ways);
    Ceiling(count * RealBlockSize(block), Lcm(RealBlockSize(block), PAGE_SIZE * ways))
  }

  /** It is the least multiple of both the real block size and a page per way at or above the request. */
  lemma AlignedIsLeast(count: nat, block: nat, ways: nat, m: int)
    requires 0 < block <= 0xFFFF && 0 < ways < 256
    ensures var size := RealBlockSize(block);
      && count * size <= Aligned(count, block, ways) < count * size + Lcm(size, PAGE_SIZE * ways)
      && Divides(size, Aligned(count, block, ways)) && Divides(PAGE_SIZE * ways, Aligned(count, block, ways))
      && (m >= count * size && Divides(size, m) && Divides(PAGE_SIZE * ways, m) ==> m >= Aligned(count, block, ways))
  {
    hide Lcm, Ceiling, Divides, RealBlockSize;
    var size := RealBlockSize(block);
    var alignment := Lcm(size, PAGE_SIZE * ways);
    LcmIsLeast(size, PAGE_SIZE * ways, m);
    CeilingIsLeast(count * size, alignment, m);
    Multiples(size, alignment, Aligned(count, block, ways));
    Multiples(PAGE_SIZE * ways, alignment, Aligned(count, block, ways));
  }

  /** A divisor of a divisor divides. */
  lemma Multiples(d: nat, l: nat, m: int)
    requires Divides(d, l) && Divides(l, m)
    ensures Divides(d, m)
  {
    hide Divides;
    Positive(d, l);
    Positive(l, m);
    DividesMultiple(d, 0);
    DividesLinear(d, l, 0, m / l);
  }

  /** When the rounded capacity fits a word, the adjusted count times the real block size is exactly it. */
  lemma AdjustIsExact(count: Word64, block: nat, ways: nat)
    requires 0 < block <= 0xFFFF && 0 < ways < 256 && Aligned(count, block, ways) < U64
    ensures AdjustBlockCount(count, block, ways) * RealBlockSize(block) == Aligned(count, block, ways)
    ensures AdjustBlockCount(count, block, ways) >= count
  {
    hide Lcm, Ceiling, RoundUp, AlignmentSize, Divides, RealBlockSize, Quotient;
    var size := RealBlockSize(block);
    AlignmentIsLcm(size, ways);
    AlignedIsLeast(count, block, ways, 0);
    WrapIsId(count * size);
    RoundUpIsCeiling(count * size, AlignmentSize(size, ways));
    ExactBlocks(Aligned(count, block, ways), size);
    NoFewer(AdjustBlockCount(count, block, ways), count, size);
  }

  lemma NoFewer(a: nat, b: nat, size: nat)
    requires size > 0 && a * size >= b * size
    ensures a >= b
  {
    if a < b { Scale(a + 1, b, size); }
  }

  lemma ExactBlocks(n: Word64, size: nat)
    requires Divides(size, n)
    ensures size > 0 && Quotient(n, size) * size == n
  {
    Positive(size, n);
  }

  /** The adjusted count covers the request exactly when the rounded capacity fits a word. */
  lemma AdjustCovers(count: Word64, block: nat, ways: nat)
    requires 0 < block <= 0xFFFF && 0 < ways < 256
    ensures AdjustBlockCount(count, block, ways) >= count <==> Aligned(count, block, ways) < U64
  {
    hide Lcm, Ceiling, RoundUp, AlignmentSize, Divides, RealBlockSize, Quotient;
    var size := RealBlockSize(block);
    AlignmentIsLcm(size, ways);
    if Aligned(count, block, ways) < U64 {
      AdjustIsExact(count, block, ways);
    } else {
      WrappedIsBelow(count * size, AlignmentSize(size, ways));
      QuotientBelow(RoundUp(Wrap(count * size), AlignmentSize(size, ways)), size, count);
    }
  }

  lemma WrappedIsBelow(n: nat, alignment: Word32)
    requires alignment > 0 && Ceiling(n, alignment) >= U64
    ensures RoundUp(Wrap(n), alignment) < n
  {
    hide Ceiling;
    CeilingIsLeast(n, alignment, 0);
    if n < U64 {
      WrapIsId(n);
      CeilingWraps(n, alignment);
    }
  }

  lemma CeilingWraps(n: Word64, alignment: Word32)
    requires alignment > 0 && Ceiling(n, alignment) >= U64
    ensures RoundUp(n, alignment) < alignment
  {
    CeilingIsLeast(n, alignment, 0);
    assert RoundUp(n, alignment) == Ceiling(n, alignment) - U64;
  }

  lemma QuotientBelow(n: Word64, d: nat, count: nat)
    requires d > 0 && n < count * d
    ensures Quotient(n, d) < count
  {
    DivMod(n, d);
    if count <= n / d { Scale(count, n / d, d); }
  }

  /** Adjusting twice is adjusting once, exactly unless rounding leaves the word with at least a block. */
  lemma AdjustTwice(count: Word64, block: nat, ways: nat)
    requires 0 < block <= 0xFFFF && 0 < ways < 256
    ensures var adjusted, size := AdjustBlockCount(count, block, ways), RealBlockSize(block);
      AdjustBlockCount(adjusted, block, ways) == adjusted
      <==> RoundedTo(count, block, ways) < U64 + size
  {
    hide Divides, RealBlockSize, Lcm, RoundUp, AlignmentSize, Ceiling, Quotient;
    var size := RealBlockSize(block);
    AlignmentIsLcm(size, ways);
    LcmIsMultiple(size, PAGE_SIZE * ways);
    var alignment, word := AlignmentSize(size, ways), Wrap(count * size);
    WholeBlocks(RoundUp(word, alignment), size);
    if Ceiling(word, alignment) < U64 {
      RoundedStays(word, size, alignment);
    } else {
      WrappedMoves(word, size, alignment);
    }
  }

  /** The whole blocks of a capacity fit a word and are at most the capacity. */
  lemma WholeBlocks(n: Word64, size: nat)
    requires size > 0
    ensures Quotient(n, size) * size <= n && Wrap(Quotient(n, size) * size) == Quotient(n, size) * size
  {
    DivMod(n, size);
    WrapIsId(Quotient(n, size) * size);
  }

  lemma RoundedStays(word: Word64, size: nat, alignment: Word32)
    requires alignment > 0 && Divides(size, alignment) && Ceiling(word, alignment) < U64
    ensures size > 0
    ensures var k := Quotient(RoundUp(word, alignment), size); Quotient(RoundUp(Wrap(k * size), alignment), size) == k
  {
    hide Ceiling;
    var c := Ceiling(word, alignment);
    CeilingIsLeast(word, alignment, 0);
    RoundUpIsCeiling(word, alignment);
    Multiples(size, alignment, c);
    Positive(size, c);
    WrapIsId(c);
  }

  lemma WrappedMoves(word: Word64, size: nat, alignment: Word32)
    requires alignment > 0 && Divides(size, alignment) && Ceiling(word, alignment) >= U64
    ensures size > 0
    ensures var k := Quotient(RoundUp(word, alignment), size);
      Quotient(RoundUp(Wrap(k * size), alignment), size) == k <==> Ceiling(word, alignment) < U64 + size
  {
    hide Divides;
    CeilingWraps(word, alignment);
    Positive(size, alignment);
    var rest := RoundUp(word, alignment);
    assert rest == Ceiling(word, alignment) - U64;
    var k := rest / size;
    DivMod(rest, size);
    WholeBlocks(rest, size);
    if rest < size {
      if k > 0 { Scale(1, k, size); }
      assert RoundUp(0, alignment) == 0;
    } else {
      if k <= 0 { Scale(k, 0, size); }
      Scale(1, k, size);
      DivModUnique(k * size, 0, k * size, alignment);
      WrapIsId(alignment);
      if alignment / size <= k { Scale(alignment / size, k, size); }
    }
  }

  /** What the capacity, as it is in a word, rounds up to. */
  function RoundedTo(count: Word64, block: nat, ways: nat): nat
    requires 0 < block <= 0xFFFF && 0 < ways < 256
  {
    AlignmentIsLcm(RealBlockSize(block), ways);
    Ceiling(Wrap(count * RealBlockSize(block)), AlignmentSize(RealBlockSize(block), ways))
  }

  /** A larger request is never adjusted to less. */
  lemma AdjustMonotone(a: Word64, b: Word64, block: nat, ways: nat)
    requires 0 < block <= 0xFFFF && 0 < ways < 256 && a <= b && Aligned(b, block, ways) < U64
    ensures AdjustBlockCount(a, block, ways) <= AdjustBlockCount(b, block, ways)
  {
    hide AdjustBlockCount, Aligned, Divides, RealBlockSize;
    var size := RealBlockSize(block);
    Scale(a, b, size);
    AlignedIsLeast(b, block, ways, 0);
    AlignedIsLeast(a, block, ways, Aligned(b, block, ways));
    AdjustIsExact(a, block, ways);
    AdjustIsExact(b, block, ways);
    NotAbove(AdjustBlockCount(a, block, ways), AdjustBlockCount(b, block, ways), size);
  }

  /** The largest multiple a word holds. */
  function Top(multiple: nat): nat
    requires multiple > 0
  {
    U64 - 1 - (U64 - 1) % multiple
  }

  /** The largest aligned capacity a word holds. */
  function LargestAligned(block: nat, ways: nat): nat
    requires 0 < block <= 0xFFFF && 0 < ways < 256
  {
    AlignmentIsLcm(RealBlockSize(block), ways);
    Top(AlignmentSize(RealBlockSize(block), ways))
  }

  /** No smaller request is adjusted to more, exactly if the rounded capacity fits a word, or is, in a word, the
      largest there is. */
  lemma MonotoneExactly(b: Word64, block: nat, ways: nat)
    requires 0 < block <= 0xFFFF && 0 < ways < 256
    ensures (forall a: Word64 | a <= b :: AdjustBlockCount(a, block, ways) <= AdjustBlockCount(b, block, ways))
            <==> Aligned(b, block, ways) < U64 || AdjustBlockCount(b, block, ways) * RealBlockSize(block) == LargestAligned(block, ways)
  {
    hide AdjustBlockCount, Aligned, RealBlockSize, LargestAligned;
    if Aligned(b, block, ways) < U64 {
      forall a: Word64 | a <= b ensures AdjustBlockCount(a, block, ways) <= AdjustBlockCount(b, block, ways) {
        AdjustMonotone(a, b, block, ways);
      }
    } else {
      var a := TopIsReached(b, block, ways);
      LargestCount(a, b, block, ways);
      forall c: Word64 ensures AdjustBlockCount(c, block, ways) <= a { LargestCount(a, c, block, ways); }
    }
  }

  /** No count is adjusted above the largest; one adjusted to the largest capacity is adjusted to it. */
  lemma LargestCount(a: Word64, c: Word64, block: nat, ways: nat)
    requires 0 < block <= 0xFFFF && 0 < ways < 256 && a * RealBlockSize(block) == LargestAligned(block, ways)
    ensures AdjustBlockCount(c, block, ways) <= a
    ensures AdjustBlockCount(c, block, ways) * RealBlockSize(block) == LargestAligned(block, ways) <==> AdjustBlockCount(c, block, ways) == a
  {
    hide AdjustBlockCount, RealBlockSize, LargestAligned;
    var size := RealBlockSize(block);
    AtMostTop(c, block, ways);
    NotAbove(AdjustBlockCount(c, block, ways), a, size);
    if AdjustBlockCount(c, block, ways) * size == a * size { Cancel(AdjustBlockCount(c, block, ways), a, size); }
  }

  /** Some count not above one whose rounded capacity leaves the word is adjusted to the largest capacity. */
  lemma TopIsReached(b: Word64, block: nat, ways: nat) returns (a: Word64)
    requires 0 < block <= 0xFFFF && 0 < ways < 256 && Aligned(b, block, ways) >= U64
    ensures a <= b && AdjustBlockCount(a, block, ways) == a && a * RealBlockSize(block) == LargestAligned(block, ways)
  {
    hide AdjustBlockCount, Aligned, RealBlockSize, Lcm, Divides, AlignmentSize, Top;
    var size, page := RealBlockSize(block), PAGE_SIZE * ways;
    LcmIsLeast(size, page, 0);
    AlignmentIsLcm(size, ways);
    var alignment := Lcm(size, page);
    TopIs(alignment);
    var top := LargestAligned(block, ways);
    Multiples(size, alignment, top);
    Multiples(page, alignment, top);
    WholeBlocks(top, size);
    Positive(size, top);
    a := Quotient(top, size);
    AlignedIsLeast(b, block, ways, top);
    if a > b { Scale(b, a, size); }
    AlignedIsLeast(a, block, ways, top);
    AdjustIsExact(a, block, ways);
    Cancel(AdjustBlockCount(a, block, ways), a, size);
  }

  lemma TopIs(alignment: nat)
    requires 0 < alignment < U64
    ensures var top := Top(alignment); alignment <= top < U64 && Divides(alignment, top) && top + alignment >= U64
  {
    DivMod(U64 - 1, alignment);
    DividesMultiple(alignment, (U64 - 1) / alignment);
    if (U64 - 1) / alignment <= 0 { Scale((U64 - 1) / alignment, 0, alignment); }
    Scale(1, (U64 - 1) / alignment, alignment);
  }

  lemma AtMostTop(count: Word64, block: nat, ways: nat)
    requires 0 < block <= 0xFFFF && 0 < ways < 256
    ensures AdjustBlockCount(count, block, ways) * RealBlockSize(block) <= LargestAligned(block, ways)
  {
    hide RealBlockSize, Lcm, RoundUp, AlignmentSize, Ceiling, Divides, Quotient, Top;
    var size := RealBlockSize(block);
    AlignmentIsLcm(size, ways);
    var alignment, word := AlignmentSize(size, ways), Wrap(count * size);
    TopIs(alignment);
    WholeBlocks(RoundUp(word, alignment), size);
    CeilingIsLeast(word, alignment, 0);
    if Ceiling(word, alignment) >= U64 {
      CeilingWraps(word, alignment);
    } else {
      RoundUpIsCeiling(word, alignment);
      LastMultiple(Ceiling(word, alignment), Top(alignment), alignment);
    }
  }

  lemma LastMultiple(n: nat, top: nat, d: nat)
    requires Divides(d, n) && Divides(d, top) && n < U64 <= top + d
    ensures n <= top
  {
    hide Divides;
    Positive(d, n);
    Positive(d, top);
    if n > top {
      if n / d <= top / d { Scale(n / d, top / d, d); }
      Scale(top / d + 1, n / d, d);
    }
  }

  lemma NotAbove(x: int, y: int, size: nat)
    requires size > 0 && x * size <= y * size
    ensures x <= y
  {
    if x > y { Scale(y + 1, x, size); }
  }
}
