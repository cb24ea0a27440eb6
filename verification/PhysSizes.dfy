/** Sizes and alignments of the physical allocator (src/mem/phys.c): `get_level_by_size`,
    `get_page_level_by_size`, `get_best_level_for_block`. */
module PhysSizes {
  import opened BuddyBlocks

  const MIN_ORDER := 6
  const MIN_SIZE := 64
  const MAX_SIZE := 0x20_0000

  /** The number of bytes in a block of level k. */
  function Bytes(k: nat): nat {
    Size(k + MIN_ORDER)
  }

  lemma ByteSizes()
    ensures Bytes(0) == MIN_SIZE == 64 && Bytes(LEVELS - 1) == MAX_SIZE == 0x20_0000 && Size(PAGE_LEVEL) == 64 && Bytes(PAGE_LEVEL) == 4096
  {
    assert Size(3) == 2 * Size(2) && Size(2) == 2 * Size(1) && Size(1) == 2 * Size(0);
    SizeSum(3, 3);
    SizeSum(6, 6);
    SizeSum(12, 6);
    SizeSum(18, 3);
  }

  /** The number of bits of n: 64 less its leading zeros. */
  function BitLength(n: nat): nat {
    if n == 0 then 0 else 1 + BitLength(n / 2)
  }

  lemma {:induction false} BitLengthIs(n: nat)
    ensures n < Size(BitLength(n)) && (n > 0 ==> BitLength(n) > 0 && Size(BitLength(n) - 1) <= n)
  {
    if n > 0 {
      BitLengthIs(n / 2);
    }
  }

  lemma {:induction false} SizeMonotone(a: nat, b: nat)
    requires a <= b
    ensures Size(a) <= Size(b)
  {
    if a < b {
      SizeMonotone(a, b - 1);
    }
  }

  /** The order of a size between the smallest and the largest block. */
  lemma OrderIs(size: nat)
    requires MIN_SIZE <= size <= MAX_SIZE
    ensures var o := BitLength(size - 1);
            MIN_ORDER <= o < LEVELS + MIN_ORDER && size <= Size(o) && forall k: nat :: k + MIN_ORDER < o ==> Bytes(k) < size
  {
    var o := BitLength(size - 1);
    ByteSizes();
    BitLengthIs(size - 1);
    if o < MIN_ORDER {
      SizeMonotone(o, MIN_ORDER - 1);
    }
    if o > LEVELS - 1 + MIN_ORDER {
      SizeMonotone(LEVELS - 1 + MIN_ORDER, o - 1);
    }
    forall k: nat | k + MIN_ORDER < o
      ensures Bytes(k) < size
    {
      SizeMonotone(k + MIN_ORDER, o - 1);
    }
  }

  /** get_level_by_size: the level of the smallest block that holds the size, -1 if there is none. */
  function LevelBySize(size: nat): (level: int)
    ensures -1 <= level < LEVELS && (level == -1 <==> size > MAX_SIZE)
    ensures level >= 0 ==> size <= Bytes(level) && forall k: nat :: k < level ==> Bytes(k) < size
  {
    if size > MAX_SIZE then -1
    else
      var size' := if size < MIN_SIZE then MIN_SIZE else size;
      OrderIs(size');
      ByteSizes();
      BitLength(size' - 1) - MIN_ORDER
  }

  /** get_page_level_by_size: the level if the size is exactly a block of pages, -1 otherwise. */
  function PageLevelBySize(size: nat): (level: int)
    ensures level == -1 || (PAGE_LEVEL <= level < LEVELS && size == Bytes(level))
    ensures level == -1 ==> forall k: nat :: PAGE_LEVEL <= k < LEVELS ==> size != Bytes(k)
  {
    var level := LevelBySize(size);
    ExactLevel(size);
    if level < PAGE_LEVEL || size != Bytes(level) then -1 else level
  }

  lemma ExactLevel(size: nat)
    ensures forall k: nat :: k < LEVELS && size == Bytes(k) ==> LevelBySize(size) == k
  {
    ByteSizes();
    var l := LevelBySize(size);
    forall k: nat | k < LEVELS && size == Bytes(k)
      ensures l == k
    {
      SizeMonotone(k + MIN_ORDER, LEVELS - 1 + MIN_ORDER);
      if 0 <= l < k {
        SizeStrict(l + MIN_ORDER, k + MIN_ORDER);
      }
    }
  }

  lemma {:induction false} SizeStrict(a: nat, b: nat)
    requires a < b
    ensures Size(a) < Size(b)
  {
    SizeMonotone(a, b - 1);
  }

  // ----- alignment -----

  /** The low k bits of u are zero: (u & (2^k - 1)) == 0. */
  predicate LowBitsZero(u: nat, k: nat) {
    k == 0 || (u % 2 == 0 && LowBitsZero(u / 2, k - 1))
  }

  lemma {:induction false} AlignedIs(u: nat, k: nat)
    ensures LowBitsZero(u, k) <==> Head(k, Anc(u, k)) == u
  {
    if k > 0 {
      AlignedIs(u / 2, k - 1);
    }
  }

  /** The largest level of a block that is aligned at the start and fits the range; -1 if there is none. */
  ghost predicate Best(start: nat, end: nat, level: int) {
    && -1 <= level < LEVELS && (level >= 0 ==> LowBitsZero(start, level) && start + Size(level) <= end)
    && forall k: nat :: level < k < LEVELS ==> !LowBitsZero(start, k) || start + Size(k) > end
  }

  /** get_best_level_for_block: the largest aligned block at the start of the range. */
  method BestLevel(start: nat, end: nat) returns (level: int)
    ensures Best(start, end, level)
  {
    level := LEVELS - 1;
    while level >= 0
      invariant -1 <= level < LEVELS
      invariant forall k: nat :: level < k < LEVELS ==> !LowBitsZero(start, k) || start + Size(k) > end
    {
      if start + Size(level) <= end && LowBitsZero(start, level) {
        return;
      }
      level := level - 1;
    }
  }

  /** Between page-aligned ends there is room for a page. */
  lemma PageFits(start: nat, end: nat)
    requires LowBitsZero(start, PAGE_LEVEL) && LowBitsZero(end, PAGE_LEVEL) && start < end
    ensures start + Size(PAGE_LEVEL) <= end
  {
    AlignedIs(start, PAGE_LEVEL);
    AlignedIs(end, PAGE_LEVEL);
    InRange(end, PAGE_LEVEL, Anc(start, PAGE_LEVEL));
  }

  lemma {:induction false} StillAligned(u: nat, k: nat, j: nat)
    requires LowBitsZero(u, k) && j <= k
    ensures LowBitsZero(u, j) && LowBitsZero(u + Size(k), j)
  {
    if j > 0 {
      StillAligned(u / 2, k - 1, j - 1);
    }
  }

  lemma {:induction false} SizeSum(a: nat, b: nat)
    ensures Size(a + b) == Size(a) * Size(b)
  {
    if a > 0 {
      SizeSum(a - 1, b);
    }
  }
}
