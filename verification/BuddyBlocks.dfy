/** The blocks of the buddy allocator (src/mem/phys.c).

    Memory is counted in units of the smallest block (64 bytes) from a base that is aligned to the largest
    block.  Block(k, i) is the i-th aligned run of 2^k units. */
module BuddyBlocks {

  const LEVELS := 16
  const PAGE_LEVEL := 6

  datatype Block = Block(k: nat, i: nat)

  /** The number of units in a block of level k. */
  function Size(k: nat): (n: nat)
    ensures n > 0
  {
    if k == 0 then 1 else 2 * Size(k - 1)
  }

  /** The first unit of block i of level k. */
  function Head(k: nat, i: nat): nat {
    if k == 0 then i else 2 * Head(k - 1, i)
  }

  /** The block of level k that holds unit u. */
  function Anc(u: nat, k: nat): nat {
    if k == 0 then u else Anc(u / 2, k - 1)
  }

  /** u with bit k flipped. */
  function XorBit(u: nat, k: nat): nat {
    if k == 0 then (if u % 2 == 0 then u + 1 else u - 1) else 2 * XorBit(u / 2, k - 1) + u % 2
  }

  predicate In(u: nat, b: Block) {
    Anc(u, b.k) == b.i
  }

  function HeadOf(b: Block): nat {
    Head(b.k, b.i)
  }

  function Lower(b: Block): Block
    requires b.k > 0
  {
    Block(b.k - 1, 2 * b.i)
  }

  function Upper(b: Block): Block
    requires b.k > 0
  {
    Block(b.k - 1, 2 * b.i + 1)
  }

  function Parent(b: Block): Block {
    Block(b.k + 1, b.i / 2)
  }

  function Buddy(b: Block): Block {
    Block(b.k, if b.i % 2 == 0 then b.i + 1 else b.i - 1)
  }

  // ----- arithmetic -----

  lemma {:induction false} AncAdd(u: nat, a: nat, b: nat)
    ensures Anc(Anc(u, a), b) == Anc(u, a + b)
  {
    if a > 0 {
      AncAdd(u / 2, a - 1, b);
    }
  }

  lemma AncUp(u: nat, k: nat)
    ensures Anc(u, k + 1) == Anc(u, k) / 2
  {
    AncAdd(u, k, 1);
    assert Anc(Anc(u, k), 1) == Anc(Anc(u, k) / 2, 0);
  }

  lemma {:induction false} AncHead(k: nat, i: nat, j: nat)
    requires j <= k
    ensures Anc(Head(k, i), j) == Head(k - j, i)
  {
    if j > 0 {
      AncHead(k - 1, i, j - 1);
    }
  }

  lemma {:induction false} HeadAdd(a: nat, b: nat, i: nat)
    ensures Head(a, Head(b, i)) == Head(a + b, i)
  {
    if a > 0 {
      HeadAdd(a - 1, b, i);
    }
  }

  /** A block is the run of Size(k) units from its head. */
  lemma {:induction false} InRange(u: nat, k: nat, i: nat)
    ensures Anc(u, k) == i <==> Head(k, i) <= u < Head(k, i) + Size(k)
  {
    if k > 0 {
      InRange(u / 2, k - 1, i);
    }
  }

  lemma {:induction false} HeadTimes(k: nat, i: nat)
    ensures Head(k, i + 1) == Head(k, i) + Size(k)
  {
    if k > 0 {
      HeadTimes(k - 1, i);
    }
  }

  /** The head is at a multiple of the size, and the block that holds a unit is the quotient. */
  lemma {:induction false} HeadIs(k: nat, i: nat)
    ensures Head(k, i) == i * Size(k)
  {
    if k > 0 {
      HeadIs(k - 1, i);
      assert 2 * (i * Size(k - 1)) == i * (2 * Size(k - 1));
    }
  }

  /** Flipping the size bit of an aligned address gives the buddy. */
  lemma {:induction false} XorIsBuddy(b: Block)
    ensures XorBit(HeadOf(b), b.k) == HeadOf(Buddy(b))
    decreases b.k
  {
    if b.k > 0 {
      var h, n := Head(b.k - 1, b.i), Head(b.k - 1, Buddy(b).i);
      XorIsBuddy(Block(b.k - 1, b.i));
      assert HeadOf(b) == 2 * h && HeadOf(Buddy(b)) == 2 * n && XorBit(h, b.k - 1) == n;
    }
  }

  /** Of two buddies the one with the odd index is the upper one; together they are the parent. */
  lemma BuddyOrder(b: Block)
    ensures HeadOf(b) > HeadOf(Buddy(b)) <==> b.i % 2 == 1
    ensures HeadOf(Parent(b)) == if b.i % 2 == 1 then HeadOf(Buddy(b)) else HeadOf(b)
    ensures Parent(Buddy(b)) == Parent(b) && Buddy(Buddy(b)) == b && Buddy(b) != b
  {
    if b.i % 2 == 0 {
      HeadTimes(b.k, b.i);
    } else {
      HeadTimes(b.k, b.i - 1);
    }
    HeadAdd(b.k, 1, b.i / 2);
    assert Head(1, b.i / 2) == 2 * Head(0, b.i / 2);
  }

  // ----- how blocks lie -----

  lemma HeadIn(b: Block)
    ensures In(HeadOf(b), b)
  {
    AncHead(b.k, b.i, b.k);
  }

  /** Blocks that share a unit are nested. */
  lemma Nested(a: Block, b: Block, u: nat, v: nat)
    requires In(u, a) && In(u, b) && a.k <= b.k && In(v, a)
    ensures In(v, b)
  {
    AncAdd(u, a.k, b.k - a.k);
    AncAdd(v, a.k, b.k - a.k);
  }

  lemma SameLevel(a: Block, b: Block, u: nat)
    requires In(u, a) && In(u, b) && a.k == b.k
    ensures a == b
  {
  }

  /** A block no larger than b that holds the head of b starts there. */
  lemma SameHead(b: Block, c: Block)
    requires In(HeadOf(b), c) && c.k <= b.k
    ensures HeadOf(c) == HeadOf(b)
  {
    AncHead(b.k, b.i, c.k);
    HeadAdd(c.k, b.k - c.k, b.i);
  }

  lemma Halves(b: Block, u: nat)
    requires b.k > 0
    ensures In(u, b) <==> In(u, Lower(b)) || In(u, Upper(b))
    ensures !(In(u, Lower(b)) && In(u, Upper(b)))
  {
    AncUp(u, b.k - 1);
  }

  lemma ParentIs(b: Block, u: nat)
    ensures In(u, Parent(b)) <==> In(u, b) || In(u, Buddy(b))
    ensures !(In(u, b) && In(u, Buddy(b)))
  {
    AncUp(u, b.k);
  }

  /** A larger block that shares a unit with b's buddy holds b too. */
  lemma HoldsBuddy(b: Block, c: Block, u: nat, v: nat)
    requires In(u, Buddy(b)) && In(u, c) && c.k > b.k && In(v, b)
    ensures In(v, c)
  {
    ParentIs(b, u);
    ParentIs(b, v);
    Nested(Parent(b), c, u, v);
  }

  // ----- sets of units -----

  function Units(k: nat, i: nat): (s: set<nat>) {
    if k == 0 then {i} else Units(k - 1, 2 * i) + Units(k - 1, 2 * i + 1)
  }

  lemma {:induction false} UnitsAre(k: nat, i: nat, u: nat)
    ensures u in Units(k, i) <==> Anc(u, k) == i
  {
    if k > 0 {
      UnitsAre(k - 1, 2 * i, u);
      UnitsAre(k - 1, 2 * i + 1, u);
      AncUp(u, k - 1);
    }
  }

  lemma {:induction false} UnitsCount(k: nat, i: nat)
    ensures |Units(k, i)| == Size(k)
  {
    if k > 0 {
      UnitsCount(k - 1, 2 * i);
      UnitsCount(k - 1, 2 * i + 1);
      var low, high := Units(k - 1, 2 * i), Units(k - 1, 2 * i + 1);
      forall u | u in low
        ensures u !in high
      {
        UnitsAre(k - 1, 2 * i, u);
        UnitsAre(k - 1, 2 * i + 1, u);
      }
    }
  }
}
