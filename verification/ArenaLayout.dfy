/**
 Where js/src/jsarena.c puts things inside a block of memory: alignment, the JSArena header, and
 the hidden back-pointer of an oversized arena.  Sizes are those of a 32-bit build.
 */
module ArenaLayout {
  import opened Bits

  /** 2^32: addresses and sizes are below it, and arithmetic on them wraps around there. */
  const ADDRESS_LIMIT: nat := 0x1_0000_0000
  /** The size and the alignment of a pointer. */
  const PTR_SIZE: nat := 4
  /** sizeof(JSArena): next, base, limit and avail. */
  const ARENA_STRUCT: nat := 16
  /** sizeof(JSArenaPool): a JSArena, current, arenasize and mask. */
  const POOL_STRUCT: nat := 28
  /** sizeof(double), JS_ARENA_DEFAULT_ALIGN. */
  const DEFAULT_ALIGN: nat := 8

  predicate Aligned(x: nat, m: nat)
    requires 0 < m
  {
    x % m == 0
  }

  /** x & ~(m - 1). */
  function AlignDown(x: nat, m: nat): (r: nat)
    requires 0 < m
    ensures r <= x < r + m && Aligned(r, m)
  {
    AlignDownAligned(x, m);
    x - x % m
  }

  lemma AlignDownAligned(x: nat, m: nat)
    requires 0 < m
    ensures x % m <= x && (x - x % m) % m == 0
  {
    QuotientIs(x - x % m, m, x / m, 0);
  }

  /** (x + (m - 1)) & ~(m - 1), without wrap-around. */
  function AlignUp(x: nat, m: nat): (r: nat)
    requires 0 < m
    ensures x <= r < x + m && Aligned(r, m)
  {
    AlignDown(x + (m - 1), m)
  }

  /** For a power of two the C expression with the mask is rounding down. */
  lemma MaskRoundsDown(x: nat, k: nat)
    ensures AndNot(x, Pow2(k) - 1) == AlignDown(x, Pow2(k))
  {
    AndMask(x, k);
  }

  /** Or-ing the masks of two powers of two gives the mask of the larger. */
  lemma MasksCombine(j: nat, k: nat)
    requires j <= k
    ensures Or(Pow2(j) - 1, Pow2(k) - 1) == Pow2(k) - 1 == Or(Pow2(k) - 1, Pow2(j) - 1)
  {
    hide Pow2, And;
    AndMask(Pow2(j) - 1, k);
    AndMask(Pow2(k) - 1, j);
    Pow2Adds(j, k - j);
    MaskRemainders(Pow2(j), Pow2(k - j), Pow2(k));
  }

  lemma MaskRemainders(d: nat, q: nat, n: nat)
    requires 0 < d && 0 < q && n == d * q
    ensures d <= n && (n - 1) % d == d - 1 && (d - 1) % n == d - 1
  {
    MulMonotone(1, q, d);
    assert (q - 1) * d == q * d - d;
    QuotientIs(n - 1, d, q - 1, d - 1);
    QuotientIs(d - 1, n, 0, d - 1);
  }

  lemma AlignedSum(x: nat, y: nat, m: nat)
    requires 0 < m && Aligned(x, m) && Aligned(y, m)
    ensures Aligned(x + y, m)
    ensures x <= y ==> Aligned(y - x, m)
  {
    assert x == m * (x / m) && y == m * (y / m);
    assert m * (x / m) + m * (y / m) == (x / m + y / m) * m;
    QuotientIs(x + y, m, x / m + y / m, 0);
    if x <= y {
      assert m * (y / m) - m * (x / m) == (y / m - x / m) * m;
      MulCancel(x / m, y / m, m);
      QuotientIs(y - x, m, y / m - x / m, 0);
    }
  }

  /** Between two aligned numbers there is room for a whole modulus. */
  lemma AlignedGap(x: nat, y: nat, m: nat)
    requires 0 < m && Aligned(x, m) && Aligned(y, m) && x < y
    ensures x + m <= y
  {
    AlignedSum(x, y, m);
    if y - x < m {
      QuotientIs(y - x, m, 0, y - x);
    }
  }

  lemma SmallAligned(x: nat, m: nat)
    requires x < m && Aligned(x, m)
    ensures x == 0
  {
  }

  lemma AlignUpIsLeast(x: nat, y: nat, m: nat)
    requires 0 < m && Aligned(y, m) && x <= y
    ensures AlignUp(x, m) <= y
    ensures x == y ==> AlignUp(x, m) == y
  {
    if y < AlignUp(x, m) {
      AlignedGap(y, AlignUp(x, m), m);
    }
  }

  /** Rounding up passes through a sum with something aligned. */
  lemma AlignUpShift(x: nat, n: nat, m: nat)
    requires 0 < m && Aligned(x, m)
    ensures AlignUp(x + n, m) == x + AlignUp(n, m)
  {
    hide Aligned, AlignDown;
    AlignedSum(x, AlignUp(n, m), m);
    AlignUpIsLeast(x + n, x + AlignUp(n, m), m);
    AlignedSum(x, AlignUp(x + n, m), m);
    AlignUpIsLeast(n, AlignUp(x + n, m) - x, m);
  }

  /** Alignment to a power of two is alignment to every smaller one. */
  lemma AlignedToSmaller(x: nat, j: nat, k: nat)
    requires j <= k && Aligned(x, Pow2(k))
    ensures Aligned(x, Pow2(j))
  {
    hide Pow2;
    Pow2Adds(j, k - j);
    AlignedToFactor(x, Pow2(j), Pow2(k - j), Pow2(k));
  }

  lemma AlignedToFactor(x: nat, d: nat, c: nat, n: nat)
    requires 0 < d && n == d * c && 0 < n && Aligned(x, n)
    ensures Aligned(x, d)
  {
    var q := x / n;
    assert x == n * q;
    MulAssociates(d, c, q);
    QuotientIs(x, d, c * q, 0);
  }

  // ---------- The header macros ----------

  /** HEADER_SIZE for a pool whose mask is m - 1. */
  function HeaderSize(m: nat): nat
    requires 0 < m
  {
    PTR_SIZE + if m - 1 < PTR_SIZE - 1 then (PTR_SIZE - 1) - (m - 1) else (m - 1) - (PTR_SIZE - 1)
  }

  /** HEADER_BASE_MASK plus one; see MasksCombine. */
  function BaseModulus(m: nat): (r: nat)
    requires 0 < m
    ensures 0 < r
  {
    if m < PTR_SIZE then PTR_SIZE else m
  }

  /** hdrsz in JS_ArenaAllocate and JS_ArenaRealloc: header, back-pointer and alignment slop. */
  function HeaderSpace(m: nat, oversized: bool): nat
    requires 0 < m
  {
    ARENA_STRUCT + (if oversized then HeaderSize(m) else 0) + (m - 1)
  }

  /** The base of an arena at address a. */
  function BaseOf(a: nat, m: nat, oversized: bool): nat
    requires 0 < m
  {
    if oversized then AlignDown(a + HeaderSpace(m, true), BaseModulus(m)) else AlignUp(a + ARENA_STRUCT, m)
  }

  /** The base of an oversized arena lies between header, back-pointer and slop, for any modulus. */
  lemma OversizedBounds(a: nat, m: nat)
    requires 0 < m
    ensures var base := BaseOf(a, m, true);
            a + ARENA_STRUCT <= base - PTR_SIZE && base <= a + HeaderSpace(m, true) < base + BaseModulus(m)
  {
  }

  /**
   The layout of an oversized arena, for every power-of-two modulus and every block address, even
   an odd one: the base is aligned for the pool and for a pointer, the back-pointer slot lies
   wholly between the JSArena header and the base, and the request fits before the limit.
   */
  lemma OversizedLayout(a: nat, k: nat, nb: nat)
    ensures var m := Pow2(k);
            var base := BaseOf(a, m, true);
            var limit := a + HeaderSpace(m, true) + nb;
            && Aligned(base, m) && Aligned(base, PTR_SIZE)
            && a + ARENA_STRUCT <= base - PTR_SIZE
            && base + nb <= limit < base + nb + BaseModulus(m)
  {
    var m := Pow2(k);
    OversizedBounds(a, m);
    assert Pow2(2) == PTR_SIZE;
    assert Pow2(0) == 1 && Pow2(1) == 2;
    if k < 2 {
      AlignedToSmaller(BaseOf(a, m, true), k, 2);
    } else {
      AlignedToSmaller(BaseOf(a, m, true), 2, k);
      Pow2Adds(2, k - 2);
      MulMonotone(1, Pow2(k - 2), 4);
    }
  }

  /** The assertion of JS_ArenaRealloc, which makes room for n bytes at a: avail does not pass the limit. */
  predicate EndsInside(a: nat, m: nat, n: nat)
    requires 0 < m
  {
    AlignUp(BaseOf(a, m, true) + n, m) <= a + HeaderSpace(m, true) + n
  }

  /** It holds whatever the address of the block for an aligned n, and only for that. */
  lemma ReallocAssertExactly(m: nat, n: nat)
    requires PTR_SIZE <= m
    ensures Aligned(n, m) <==> forall a: nat :: EndsInside(a, m, n)
  {
    hide Aligned, AlignDown;
    if Aligned(n, m) {
      AlignUpIsLeast(n, n, m);
      forall a: nat ensures EndsInside(a, m, n) {
        AlignUpShift(BaseOf(a, m, true), n, m);
      }
    } else {
      var end := AlignUp(HeaderSpace(m, true), m);
      var a := end - HeaderSpace(m, true);
      AlignedGap0(end, BaseOf(a, m, true), m);
      AlignUpShift(end, n, m);
      assert !EndsInside(a, m, n);
    }
  }

  /** What the rounding of n adds must find room in the slop that the address leaves behind the base. */
  lemma EndsInsideIs(a: nat, m: nat, n: nat)
    requires PTR_SIZE <= m
    ensures EndsInside(a, m, n) <==> AlignUp(n, m) - n <= (a + HeaderSpace(m, true)) % m
  {
    var base := BaseOf(a, m, true);
    AlignDownIs(a + HeaderSpace(m, true), m);
    AlignUpShift(base, n, m);
  }

  lemma AlignDownIs(x: nat, m: nat)
    requires 0 < m
    ensures AlignDown(x, m) == x - x % m && Aligned(AlignDown(x, m), m)
  {
  }

  lemma ModOfMod(x: nat, g: nat, m: nat)
    requires 0 < g && 0 < m && Aligned(m, g)
    ensures (x % m) % g == x % g <= x % m
  {
    var low, r := AlignDown(x, m), x % m;
    AlignDownIs(x, m);
    QuotientOf(m, g);
    hide AlignDown;
    AlignedToFactor(low, g, m / g, m);
    ModOfSum(low, r, g);
    ModIsSmall(r, g);
  }

  lemma QuotientOf(m: nat, g: nat)
    requires 0 < g && Aligned(m, g)
    ensures m == g * (m / g)
  {
  }

  lemma ModIsSmall(x: nat, g: nat)
    requires 0 < g
    ensures x % g <= x && x % g < g
  {
  }

  lemma MulDistributes(a: int, b: int, d: int)
    ensures (a + b) * d == d * a + d * b
  {
  }

  lemma ModOfSum(a: nat, h: nat, g: nat)
    requires 0 < g && Aligned(a, g)
    ensures (a + h) % g == h % g
  {
    MulDistributes(a / g, h / g, g);
    QuotientIs(a + h, g, a / g + h / g, h % g);
  }

  /**
   For blocks at the multiples of some number, as malloc's are, the assertion holds whatever the block
   if and only if the rounding adds no more than what the header leaves over of the smaller of the
   two alignments.
   */
  lemma AlignedBlocksExactly(al: nat, m: nat, n: nat)
    requires 0 < al && PTR_SIZE <= m && (Aligned(al, m) || Aligned(m, al))
    ensures (forall a: nat | Aligned(a, al) :: EndsInside(a, m, n))
       <==> AlignUp(n, m) - n <= HeaderSpace(m, true) % (if al < m then al else m)
  {
    var h, g := HeaderSpace(m, true), if al < m then al else m;
    if AlignUp(n, m) - n <= h % g {
      forall a: nat | Aligned(a, al) ensures EndsInside(a, m, n) {
        SlopIsEnough(al, m, a);
        EndsInsideIs(a, m, n);
      }
    } else {
      var a := TightBlock(al, m);
      EndsInsideIs(a, m, n);
      assert !EndsInside(a, m, n);
    }
  }

  lemma SmallerDivides(al: nat, m: nat)
    requires 0 < al && 0 < m && (Aligned(al, m) || Aligned(m, al))
    ensures var g := if al < m then al else m; Aligned(al, g) && Aligned(m, g)
  {
    if al < m && Aligned(al, m) {
      SmallAligned(al, m);
    } else if m < al && Aligned(m, al) {
      SmallAligned(m, al);
    }
    QuotientIs(al, al, 1, 0);
    QuotientIs(m, m, 1, 0);
  }

  lemma SlopIsEnough(al: nat, m: nat, a: nat)
    requires 0 < al && PTR_SIZE <= m && (Aligned(al, m) || Aligned(m, al)) && Aligned(a, al)
    ensures HeaderSpace(m, true) % (if al < m then al else m) <= (a + HeaderSpace(m, true)) % m
  {
    var h, g := HeaderSpace(m, true), if al < m then al else m;
    SmallerDivides(al, m);
    AlignedToFactor(a, g, al / g, al);
    ModOfSum(a, h, g);
    ModOfMod(a + h, g, m);
  }

  /** A block that leaves no more slop than that. */
  lemma TightBlock(al: nat, m: nat) returns (a: nat)
    requires 0 < al && PTR_SIZE <= m && (Aligned(al, m) || Aligned(m, al))
    ensures Aligned(a, al) && (a + HeaderSpace(m, true)) % m == HeaderSpace(m, true) % (if al < m then al else m)
  {
    var h := HeaderSpace(m, true);
    SmallerDivides(al, m);
    if al < m {
      var low := AlignDown(h, al);
      AlignDownIs(h, al);
      ModIsSmall(h, al);
      QuotientOf(m, al);
      var end := AlignUp(low, m);
      QuotientOf(end, m);
      hide AlignDown, AlignUp;
      AlignedToFactor(end, al, m / al, m);
      AlignedSum(low, end, al);
      a := end - low;
      QuotientIs(a + h, m, end / m, h % al);
    } else {
      a := 0;
    }
  }

  /** With an alignment of up to 16 and blocks at multiples of it there is always room. */
  lemma UsualBlocksFit(k: nat, a: nat, n: nat)
    requires k <= 2 && Aligned(a, 4 * Pow2(k))
    ensures EndsInside(a, 4 * Pow2(k), n)
  {
    assert Pow2(0) == 1 && Pow2(1) == 2 && Pow2(2) == 4;
    var m := 4 * Pow2(k);
    AlignedBlocksExactly(m, m, n);
  }

  /** An input that breaks the assertion: an alignment of 16, a block at 8, and one byte. */
  lemma EndsOutside()
    ensures Aligned(8, 8) && !EndsInside(8, 16, 1)
  {
  }

  /** An aligned number is not rounded down. */
  lemma AlignedGap0(x: nat, y: nat, m: nat)
    requires 0 < m && Aligned(x, m) && Aligned(y, m) && y <= x < y + m
    ensures x == y
  {
    if y < x {
      AlignedGap(y, x, m);
    }
  }

  /** An ordinary arena has at least max(nb, arenasize) bytes, and less than a modulus more. */
  lemma OrdinaryLayout(a: nat, m: nat, size: nat)
    requires 0 < m
    ensures var base := BaseOf(a, m, false);
            var limit := a + HeaderSpace(m, false) + size;
            && Aligned(base, m) && a + ARENA_STRUCT <= base <= a + HeaderSpace(m, false)
            && base + size <= limit < base + size + m
  {
  }

  /** m = 2^k is the least power of two not below the requested alignment, 0 asking for the default. */
  ghost predicate ModulusFor(align: nat, m: nat, k: nat) {
    var n := if align == 0 then DEFAULT_ALIGN else align;
    m == Pow2(k) && n <= m && (k != 0 ==> Pow2(k - 1) < n)
  }

  /** The modulus that JS_InitArenaPool computes for its mask. */
  method PoolModulus(align: nat) returns (m: nat, k: nat)
    requires align <= Pow2(31)
    ensures ModulusFor(align, m, k)
  {
    var n := if align == 0 then DEFAULT_ALIGN else align;
    assert Pow2(5) == 32 && Pow2(10) == 32 * Pow2(5) && DEFAULT_ALIGN < Pow2(10) by {
      Pow2Adds(5, 5);
    }
    Pow2IsMonotone(10, 31);
    var log2 := CeilingLog2(n);
    m, k := Pow2(log2), log2;
  }

  /** There is only one such modulus. */
  lemma ModulusIsUnique(align: nat, m: nat, j: nat, m': nat, k: nat)
    requires ModulusFor(align, m, j) && ModulusFor(align, m', k)
    ensures m == m'
  {
    if j < k {
      Pow2IsMonotone(j, k - 1);
    } else if k < j {
      Pow2IsMonotone(k, j - 1);
    }
  }

  lemma {:induction false} Pow2IsMonotone(j: nat, k: nat)
    requires j <= k
    ensures Pow2(j) <= Pow2(k)
  {
    if j < k {
      Pow2IsMonotone(j, k - 1);
    }
  }
}
