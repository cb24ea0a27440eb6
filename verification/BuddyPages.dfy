/** Counting the whole free pages of the buddy allocator (src/mem/phys.c). */
module BuddyPages {
  import opened BuddyBlocks
  import opened BuddyState
  import opened BuddySteps

  /** Every unit of page p is in the set. */
  ghost predicate Whole(units: set<nat>, p: nat) {
    forall u: nat :: Anc(u, PAGE_LEVEL) == p ==> u in units
  }

  /** The pages that lie in the set entirely. */
  ghost function Pages(units: set<nat>): set<nat> {
    set u | u in units && Whole(units, Anc(u, PAGE_LEVEL)) :: Anc(u, PAGE_LEVEL)
  }

  lemma PagesAre(units: set<nat>, p: nat)
    ensures p in Pages(units) <==> Whole(units, p)
  {
    AncHead(PAGE_LEVEL, p, PAGE_LEVEL);
    if Whole(units, p) {
      assert Head(PAGE_LEVEL, p) in units;
    }
  }

  lemma PagesMonotone(a: set<nat>, b: set<nat>)
    requires a <= b
    ensures Pages(a) <= Pages(b) && |Pages(a)| <= |Pages(b)|
  {
    forall p | p in Pages(a)
      ensures p in Pages(b)
    {
      PagesAre(a, p);
      PagesAre(b, p);
    }
    SubsetCount(Pages(a), Pages(b));
  }

  lemma SubsetCount(a: set<nat>, b: set<nat>)
    requires a <= b
    ensures |a| <= |b|
  {
    assert b == a + (b - a);
  }

  /** Whether page p lies in a block of pages, and in a set with that block. */
  lemma BlockPage(a: set<nat>, c: Block, p: nat)
    requires c.k >= PAGE_LEVEL && a !! Units(c.k, c.i)
    ensures var pages := Units(c.k - PAGE_LEVEL, c.i);
            && (Whole(a + Units(c.k, c.i), p) <==> Whole(a, p) || p in pages)
            && !(Whole(a, p) && p in pages)
  {
    var units, h := Units(c.k, c.i), Head(PAGE_LEVEL, p);
    UnitsAre(c.k - PAGE_LEVEL, c.i, p);
    AncHead(PAGE_LEVEL, p, PAGE_LEVEL);
    forall u: nat | Anc(u, PAGE_LEVEL) == p
      ensures u in units <==> p in Units(c.k - PAGE_LEVEL, c.i)
    {
      UnitsAre(c.k, c.i, u);
      AncAdd(u, PAGE_LEVEL, c.k - PAGE_LEVEL);
    }
  }

  lemma PageWithBlock(a: set<nat>, c: Block, p: nat)
    requires c.k >= PAGE_LEVEL && a !! Units(c.k, c.i)
    ensures var pages := Units(c.k - PAGE_LEVEL, c.i);
            (p in Pages(a + Units(c.k, c.i)) <==> p in Pages(a) || p in pages) && !(p in Pages(a) && p in pages)
  {
    PagesAre(a, p);
    PagesAre(a + Units(c.k, c.i), p);
    BlockPage(a, c, p);
  }

  lemma UnionCount(u: set<nat>, a: set<nat>, b: set<nat>)
    requires forall p: nat :: (p in u <==> p in a || p in b) && !(p in a && p in b)
    ensures u == a + b && |u| == |a| + |b|
  {
    assert u == a + b && a !! b;
  }

  /** A block of pages adds its pages. */
  lemma PagesWithBlock(a: set<nat>, c: Block)
    requires c.k >= PAGE_LEVEL && a !! Units(c.k, c.i)
    ensures Pages(a + Units(c.k, c.i)) == Pages(a) + Units(c.k - PAGE_LEVEL, c.i)
    ensures |Pages(a + Units(c.k, c.i))| == |Pages(a)| + Size(c.k - PAGE_LEVEL)
  {
    var pages := Units(c.k - PAGE_LEVEL, c.i);
    forall p: nat
      ensures p in Pages(a + Units(c.k, c.i)) <==> p in Pages(a) || p in pages
      ensures !(p in Pages(a) && p in pages)
    {
      PageWithBlock(a, c, p);
    }
    UnionCount(Pages(a + Units(c.k, c.i)), Pages(a), pages);
    UnitsCount(c.k - PAGE_LEVEL, c.i);
  }

  /** A piece of a page lies in no other page. */
  lemma PiecePage(a: set<nat>, c: Block, p: nat, q: nat)
    requires c.k < PAGE_LEVEL && a !! Units(c.k, c.i) && p == Anc(c.i, PAGE_LEVEL - c.k)
    ensures !Whole(a, p) && (q != p ==> (Whole(a + Units(c.k, c.i), q) <==> Whole(a, q)))
  {
    var units, h := Units(c.k, c.i), HeadOf(c);
    HeadIn(c);
    UnitsAre(c.k, c.i, h);
    AncAdd(h, c.k, PAGE_LEVEL - c.k);
    forall u: nat | Anc(u, PAGE_LEVEL) == q && q != p
      ensures u !in units
    {
      UnitsAre(c.k, c.i, u);
      AncAdd(u, c.k, PAGE_LEVEL - c.k);
    }
  }

  /** A piece of a page adds that page if it was the last piece missing. */
  lemma PagesWithPiece(a: set<nat>, c: Block, p: nat)
    requires c.k < PAGE_LEVEL && a !! Units(c.k, c.i) && p == Anc(c.i, PAGE_LEVEL - c.k)
    ensures var b := a + Units(c.k, c.i);
            |Pages(b)| == |Pages(a)| + if Whole(b, p) then 1 else 0
  {
    var b := a + Units(c.k, c.i);
    forall q: nat
      ensures q in Pages(b) <==> q in Pages(a) || (q == p && Whole(b, p))
    {
      PagesAre(a, q);
      PagesAre(b, q);
      PiecePage(a, c, p, q);
    }
    PagesAre(a, p);
    PiecePage(a, c, p, p);
    assert Pages(b) == if Whole(b, p) then Pages(a) + {p} else Pages(a);
  }

  // ----- the free units -----

  ghost predicate LiveAt(s: State, u: nat) {
    Owned(s.live, u)
  }

  ghost function Unowned(live: set<Block>, managed: set<nat>): set<nat> {
    set u | u in managed && !Owned(live, u)
  }

  /** The managed units that belong to no allocated block. */
  ghost function FreeUnits(s: State): set<nat> {
    Unowned(s.live, s.managed)
  }

  lemma FreeCover(s: State)
    requires Ok(s, {})
    ensures Covers(s.free, FreeUnits(s)) && Apart(s.free)
  {
    var blocks := s.free + s.live + {};
    forall b, u: nat | b in s.free && In(u, b)
      ensures u in FreeUnits(s)
    {
      assert b in blocks && forall a :: a in s.live ==> a in blocks;
    }
    forall u | u in FreeUnits(s)
      ensures exists b :: b in s.free && In(u, b)
    {
      var b :| b in blocks && In(u, b);
      assert b in s.free;
    }
    assert forall b :: b in s.free ==> b in blocks;
  }

  /** A page is wholly free exactly if the free block around it is at least a page. */
  lemma WholeIff(s: State, m: Block, u: nat)
    requires Ok(s, {}) && m in s.free && In(u, m)
    ensures Whole(FreeUnits(s), Anc(u, PAGE_LEVEL)) <==> m.k >= PAGE_LEVEL
  {
    FreeCover(s);
    var page := Block(PAGE_LEVEL, Anc(u, PAGE_LEVEL));
    if m.k >= PAGE_LEVEL {
      forall v: nat | Anc(v, PAGE_LEVEL) == page.i
        ensures v in FreeUnits(s)
      {
        Nested(page, m, u, v);
      }
    } else if Whole(FreeUnits(s), page.i) {
      HeadIn(m);
      Nested(m, page, u, HeadOf(m));
      NoneInside(s.free, page, m);
    }
  }

  /** A whole free page means a free block of a page or more. */
  lemma PageMeansBlock(s: State) returns (m: Block)
    requires Ok(s, {}) && Pages(FreeUnits(s)) != {}
    ensures m in s.free && m.k >= PAGE_LEVEL
  {
    FreeCover(s);
    var p :| p in Pages(FreeUnits(s));
    PagesAre(FreeUnits(s), p);
    var u := Head(PAGE_LEVEL, p);
    AncHead(PAGE_LEVEL, p, PAGE_LEVEL);
    m :| m in s.free && In(u, m);
    WholeIff(s, m, u);
  }

  /** Allocating a block takes its units, freeing it gives them back. */
  lemma LiveUnits(s: State, t: State, c: Block)
    requires Ok(s, {}) && Ok(t, {}) && t.managed == s.managed && c !in s.live && t.live == s.live + {c}
    ensures FreeUnits(s) == FreeUnits(t) + Units(c.k, c.i) && FreeUnits(t) !! Units(c.k, c.i)
  {
    var blocks := t.free + t.live + {};
    assert forall a :: a in t.live ==> a in blocks;
    forall u: nat
      ensures u in FreeUnits(s) <==> u in FreeUnits(t) || u in Units(c.k, c.i)
      ensures !(u in FreeUnits(t) && u in Units(c.k, c.i))
    {
      UnitsAre(c.k, c.i, u);
      if In(u, c) {
        assert c in blocks && u in s.managed;
        assert LiveAt(t, u);
        assert forall a :: a in s.live ==> !In(u, a);
      } else {
        assert LiveAt(t, u) <==> LiveAt(s, u) by {
          if LiveAt(s, u) {
            var a :| a in s.live && In(u, a);
            assert a in t.live;
          }
        }
      }
    }
  }

  /** How many whole pages go with the block c, taken from or merged into the free block around it. */
  function PageShare(level: nat, around: nat): nat {
    if level >= PAGE_LEVEL then Size(level - PAGE_LEVEL) else if around >= PAGE_LEVEL then 1 else 0
  }

  lemma ShareOf(s: State, t: State, c: Block, m: Block)
    requires Sound(s, {}) && Sound(t, {}) && t.managed == s.managed && c !in s.live && t.live == s.live + {c}
    requires m in s.free && In(HeadOf(c), m)
    ensures |Pages(FreeUnits(s))| == |Pages(FreeUnits(t))| + PageShare(c.k, m.k)
  {
    OpenSound(s, {});
    OpenSound(t, {});
    LiveUnits(s, t, c);
    if c.k < PAGE_LEVEL {
      PieceWhole(s, c, m);
    }
    ShareIs(FreeUnits(s), FreeUnits(t), c, m.k);
  }

  lemma ShareIs(fs: set<nat>, ft: set<nat>, c: Block, around: nat)
    requires fs == ft + Units(c.k, c.i) && ft !! Units(c.k, c.i)
    requires c.k < PAGE_LEVEL ==> (Whole(fs, Anc(c.i, PAGE_LEVEL - c.k)) <==> around >= PAGE_LEVEL)
    ensures |Pages(fs)| == |Pages(ft)| + PageShare(c.k, around)
  {
    if c.k >= PAGE_LEVEL {
      PagesWithBlock(ft, c);
    } else {
      PagesWithPiece(ft, c, Anc(c.i, PAGE_LEVEL - c.k));
    }
  }

  lemma PieceWhole(s: State, c: Block, m: Block)
    requires Ok(s, {}) && m in s.free && In(HeadOf(c), m) && c.k < PAGE_LEVEL
    ensures Whole(FreeUnits(s), Anc(c.i, PAGE_LEVEL - c.k)) <==> m.k >= PAGE_LEVEL
  {
    HeadIn(c);
    AncAdd(HeadOf(c), c.k, PAGE_LEVEL - c.k);
    WholeIff(s, m, HeadOf(c));
  }

  /** The same allocated blocks, the same free blocks: the free lists as sets depend on nothing else. */
  lemma FreeDetermined(s: State, t: State)
    requires Sound(s, {}) && Sound(t, {}) && s.managed == t.managed && s.live == t.live
    ensures s.free == t.free
  {
    OpenSound(s, {});
    OpenSound(t, {});
    FreeCover(s);
    FreeCover(t);
    CanonicalUnique(s.free, t.free, FreeUnits(s));
  }
}
