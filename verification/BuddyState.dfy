/** What the buddy allocator keeps true of its blocks (src/mem/phys.c). */
module BuddyState {
  import opened BuddyBlocks

  /** The blocks are pairwise disjoint and together exactly the managed units. */
  ghost predicate Tiling(blocks: set<Block>, managed: set<nat>) {
    && (forall b :: b in blocks ==> b.k < LEVELS)
    && (forall b, u: nat :: b in blocks && In(u, b) ==> u in managed)
    && (forall u :: u in managed ==> exists b :: b in blocks && In(u, b))
    && (forall a, b, u: nat :: a in blocks && b in blocks && In(u, a) && In(u, b) ==> a == b)
  }

  /** No two buddies below the top level are both free. */
  ghost predicate Canonical(free: set<Block>) {
    forall b :: b in free && b.k < LEVELS - 1 ==> Buddy(b) !in free
  }

  lemma SplitTiling(blocks: set<Block>, managed: set<nat>, c: Block)
    requires Tiling(blocks, managed) && c in blocks && c.k > 0
    ensures Tiling(blocks - {c} + {Lower(c), Upper(c)}, managed)
    ensures Lower(c) !in blocks && Upper(c) !in blocks
  {
    var bs := blocks - {c} + {Lower(c), Upper(c)};
    forall u: nat
      ensures In(u, c) <==> In(u, Lower(c)) || In(u, Upper(c))
      ensures !(In(u, Lower(c)) && In(u, Upper(c)))
    {
      Halves(c, u);
    }
    HeadIn(Lower(c));
    HeadIn(Upper(c));
    forall u | u in managed
      ensures exists b :: b in bs && In(u, b)
    {
      var b :| b in blocks && In(u, b);
      if b == c {
        assert In(u, Lower(c)) || In(u, Upper(c));
      } else {
        assert b in bs;
      }
    }
  }

  lemma MergeTiling(blocks: set<Block>, managed: set<nat>, c: Block)
    requires Tiling(blocks, managed) && c in blocks && Buddy(c) in blocks && c.k < LEVELS - 1
    ensures Tiling(blocks - {c, Buddy(c)} + {Parent(c)}, managed) && Parent(c) !in blocks
  {
    var bs := blocks - {c, Buddy(c)} + {Parent(c)};
    forall u: nat
      ensures In(u, Parent(c)) <==> In(u, c) || In(u, Buddy(c))
    {
      ParentIs(c, u);
    }
    HeadIn(c);
    HeadIn(Parent(c));
    forall u | u in managed
      ensures exists b :: b in bs && In(u, b)
    {
      var b :| b in blocks && In(u, b);
      if b == c || b == Buddy(c) {
        assert In(u, Parent(c));
      } else {
        assert b in bs;
      }
    }
  }

  // ----- canonical form -----

  ghost predicate Covers(free: set<Block>, units: set<nat>) {
    && (forall b, u: nat :: b in free && In(u, b) ==> u in units)
    && (forall u :: u in units ==> exists b :: b in free && In(u, b))
  }

  ghost predicate Apart(free: set<Block>) {
    && (forall b :: b in free ==> b.k < LEVELS)
    && (forall a, b, u: nat :: a in free && b in free && In(u, a) && In(u, b) ==> a == b)
  }

  /** The smallest blocks of a canonical set that fill part of c would have to merge. */
  lemma {:induction false} NoneInside(free: set<Block>, c: Block, b: Block)
    requires Apart(free) && Canonical(free) && c.k < LEVELS
    requires b in free && b.k < c.k && In(HeadOf(b), c)
    requires forall u: nat :: In(u, c) ==> exists d :: d in free && In(u, d)
    ensures false
    decreases b.k
  {
    // the buddy of b lies in c as well, and is free in parts no smaller than b, or smaller ones exist
    var n := Buddy(b);
    HeadIn(b);
    HeadIn(n);
    ParentIs(b, HeadOf(b));
    ParentIs(b, HeadOf(n));
    Nested(Parent(b), c, HeadOf(b), HeadOf(n));
    var d :| d in free && In(HeadOf(n), d);
    if d.k > b.k {
      HoldsBuddy(b, d, HeadOf(n), HeadOf(b));
    } else if d.k == b.k {
      SameLevel(d, n, HeadOf(n));
    } else {
      SameHead(n, d);
      NoneInside(free, c, d);
    }
  }

  /** The canonical form is determined by the free units. */
  lemma CanonicalUnique(f: set<Block>, g: set<Block>, units: set<nat>)
    requires Apart(f) && Apart(g) && Canonical(f) && Canonical(g) && Covers(f, units) && Covers(g, units)
    ensures f == g
  {
    CanonicalInside(f, g, units);
    CanonicalInside(g, f, units);
  }

  lemma CanonicalInside(f: set<Block>, g: set<Block>, units: set<nat>)
    requires Apart(f) && Apart(g) && Canonical(f) && Canonical(g) && Covers(f, units) && Covers(g, units)
    ensures f <= g
  {
    forall b | b in f
      ensures b in g
    {
      var h := HeadOf(b);
      HeadIn(b);
      assert h in units;
      var c :| c in g && In(h, c);
      if b.k < c.k {
        NoneInside(f, c, b);
      } else if c.k < b.k {
        SameHead(b, c);
        NoneInside(g, b, c);
      }
    }
  }
}
