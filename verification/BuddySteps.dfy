/** The steps of the buddy allocator on its abstract state (src/mem/phys.c): the free and the allocated blocks,
    the bitmap, and the contents of memory.  While a call is under way it holds one block in its hand. */
module BuddySteps {
  import opened BuddyBlocks
  import opened BuddyState

  /** The contents of one unit of memory: zero, the header of a free block, or somebody's data. */
  datatype Unit = Zero | Header(level: nat) | Data(value: int)

  datatype State = State(free: set<Block>, live: set<Block>, managed: set<nat>, bits: seq<bool>, mem: seq<Unit>)

  /** The arrays cover a whole number of largest blocks. */
  ghost predicate Ranged(s: State) {
    && |s.bits| == |s.mem|
    && |s.mem| == Head(LEVELS - 1, Anc(|s.mem|, LEVELS - 1))
    && (forall u :: u in s.managed ==> u < |s.mem|)
  }

  /** The bit and the header are right at the head of every block, and free memory is zero otherwise;
      nothing is said of the bits inside blocks. */
  ghost predicate Marked(s: State, hand: set<Block>)
    requires |s.bits| == |s.mem|
  {
    && (forall b, u: nat :: b in s.free && In(u, b) && u < |s.mem| ==> s.mem[u] == if u == HeadOf(b) then Header(b.k) else Zero)
    && (forall b :: b in s.free && HeadOf(b) < |s.bits| ==> s.bits[HeadOf(b)])
    && (forall b :: b in s.live && HeadOf(b) < |s.bits| ==> !s.bits[HeadOf(b)])
    && (forall b, u: nat :: b in hand && In(u, b) && u < |s.mem| ==> s.mem[u] == Zero)
    && (forall u :: 0 <= u < |s.bits| && u !in s.managed ==> !s.bits[u])
  }

  ghost predicate Ok(s: State, hand: set<Block>) {
    && Ranged(s)
    && s.free !! s.live && s.free !! hand && s.live !! hand
    && Tiling(s.free + s.live + hand, s.managed) && Canonical(s.free) && Marked(s, hand)
  }

  ghost predicate OkAt(k: int, s: State, hand: set<Block>) {
    k == 0 ==> Ok(s, hand)
  }

  /** Ok, stated under a quantifier so that proofs which only pass it on do not look inside. */
  ghost predicate Sound(s: State, hand: set<Block>) {
    forall k :: OkAt(k, s, hand)
  }

  lemma OpenSound(s: State, hand: set<Block>)
    requires Sound(s, hand)
    ensures Ok(s, hand)
  {
    assert OkAt(0, s, hand);
  }

  lemma FoldSound(s: State, hand: set<Block>)
    requires Ok(s, hand)
    ensures Sound(s, hand)
  {
    forall k ensures OkAt(k, s, hand) {
    }
  }

  // ----- what the bitmap tells -----

  lemma {:induction false} AncMonotone(u: nat, v: nat, k: nat)
    requires u <= v
    ensures Anc(u, k) <= Anc(v, k)
  {
    if k > 0 {
      AncMonotone(u / 2, v / 2, k - 1);
    }
  }

  lemma BelowTop(u: nat, v: nat, k: nat, tops: nat)
    requires u < Head(k, tops) && Anc(v, k) == Anc(u, k)
    ensures v < Head(k, tops)
  {
    if v >= Head(k, tops) {
      AncMonotone(Head(k, tops), v, k);
      AncHead(k, tops, k);
      InRange(u, k, Anc(u, k));
      AncMonotone(u, Head(k, tops), k);
      InRange(Head(k, tops), k, Anc(u, k));
      InRange(u, k, tops);
    }
  }

  /** The buddy of a managed block below the top level is inside the arrays. */
  lemma BuddyInRange(s: State, b: Block)
    requires Ranged(s) && HeadOf(b) in s.managed && b.k < LEVELS - 1
    ensures HeadOf(Buddy(b)) < |s.mem|
  {
    var tops := Anc(|s.mem|, LEVELS - 1);
    var u, v := HeadOf(b), HeadOf(Buddy(b));
    HeadIn(b);
    HeadIn(Buddy(b));
    ParentIs(b, u);
    ParentIs(b, v);
    AncAdd(u, b.k + 1, LEVELS - 2 - b.k);
    AncAdd(v, b.k + 1, LEVELS - 2 - b.k);
    BelowTop(u, v, LEVELS - 1, tops);
  }

  /** The test before a merge: bit and level are those of the buddy exactly when the buddy is a free block of
      the same size.  So a merge never takes allocated, unmanaged or wrong-sized memory, whatever
      stale bits there are. */
  lemma MergeTest(s: State, b: Block)
    requires Sound(s, {b}) && b.k < LEVELS - 1
    ensures HeadOf(Buddy(b)) < |s.mem| == |s.bits|
    ensures var u := HeadOf(Buddy(b));
            && (s.bits[u] ==> s.mem[u].Header?)
            && (s.bits[u] && s.mem[u].level == b.k <==> Buddy(b) in s.free)
  {
    OpenSound(s, {b});
    HeadIn(b);
    HeadIn(Buddy(b));
    assert b in s.free + s.live + {b};
    BuddyInRange(s, b);
    var u := HeadOf(Buddy(b));
    if s.bits[u] {
      var c :| c in s.free + s.live + {b} && In(u, c);
      BlockAtBuddy(s, b, c);
    }
  }

  lemma BlockAtBuddy(s: State, b: Block, c: Block)
    requires Ok(s, {b}) && c in s.free + s.live + {b} && In(HeadOf(Buddy(b)), c)
    ensures c != b && c.k <= b.k && HeadOf(c) == HeadOf(Buddy(b)) && (c.k == b.k ==> c == Buddy(b))
  {
    var u := HeadOf(Buddy(b));
    HeadIn(b);
    HeadIn(Buddy(b));
    ParentIs(b, u);
    assert b in s.free + s.live + {b};
    if c.k > b.k {
      HoldsBuddy(b, c, u, HeadOf(b));
    }
    SameHead(Buddy(b), c);
  }

  // ----- the steps -----

  lemma HeadsIn()
    ensures forall b: Block :: In(HeadOf(b), b)
  {
    forall b: Block
      ensures In(HeadOf(b), b)
    {
      HeadIn(b);
    }
  }

  /** A free block leaves its list, and its header is cleared. */
  lemma TakeStep(s: State, b: Block) returns (t: State)
    requires Sound(s, {}) && b in s.free
    ensures HeadOf(b) < |s.mem| && s.mem[HeadOf(b)] == Header(b.k) && t == s.(free := s.free - {b}, mem := s.mem[HeadOf(b) := Zero]) && Sound(t, {b})
  {
    OpenSound(s, {});
    HeadsIn();
    assert b in s.free + s.live + {};
    t := s.(free := s.free - {b}, mem := s.mem[HeadOf(b) := Zero]);
    assert t.free + t.live + {b} == s.free + s.live + {};
    assert Ranged(t);
    assert Marked(t, {b}) by {
      forall a, u: nat | a in t.free && In(u, a) && u < |t.mem|
        ensures t.mem[u] == if u == HeadOf(a) then Header(a.k) else Zero
      {
        assert a in s.free + s.live + {};
      }
    }
    FoldSound(t, {b});
  }

  /** The block in hand is cut in two and the upper half is free. */
  lemma SplitStep(s: State, c: Block) returns (t: State)
    requires Sound(s, {c}) && c.k > 0
    ensures var u := HeadOf(Upper(c));
            && u < |s.mem| == |s.bits| && HeadOf(Lower(c)) == HeadOf(c) && u == HeadOf(c) + Size(c.k - 1)
            && t == s.(free := s.free + {Upper(c)}, bits := s.bits[u := true], mem := s.mem[u := Header(c.k - 1)])
            && Sound(t, {Lower(c)})
  {
    OpenSound(s, {c});
    var blocks, u := s.free + s.live + {c}, HeadOf(Upper(c));
    assert c in blocks;
    assert Tiling(blocks - {c} + {Lower(c), Upper(c)}, s.managed) && Lower(c) !in blocks && Upper(c) !in blocks by {
      SplitTiling(blocks, s.managed, c);
    }
    assert u in s.managed by {
      HeadIn(Upper(c));
      Halves(c, u);
    }
    SplitHeads(c);
    t := s.(free := s.free + {Upper(c)}, bits := s.bits[u := true], mem := s.mem[u := Header(c.k - 1)]);
    assert t.free + t.live + {Lower(c)} == blocks - {c} + {Lower(c), Upper(c)};
    assert Ranged(t);
    assert Marked(t, {Lower(c)}) by { SplitMarked(s, t, c); }
    assert Canonical(t.free) by { SplitCanonical(s.free, c); }
    FoldSound(t, {Lower(c)});
  }

  lemma SplitCanonical(free: set<Block>, c: Block)
    requires Canonical(free) && c.k > 0 && Lower(c) !in free
    ensures Canonical(free + {Upper(c)})
  {
    assert Buddy(Upper(c)) == Lower(c);
    forall b | b in free && b.k < LEVELS - 1
      ensures Buddy(b) != Upper(c)
    {
      BuddyOrder(b);
    }
  }

  lemma SplitHeads(c: Block)
    requires c.k > 0
    ensures HeadOf(Lower(c)) == HeadOf(c) && HeadOf(Upper(c)) == HeadOf(c) + Size(c.k - 1)
  {
    HeadAdd(c.k - 1, 1, c.i);
    assert Head(1, c.i) == 2 * Head(0, c.i);
    HeadTimes(c.k - 1, 2 * c.i);
  }

  lemma SplitMarked(s: State, t: State, c: Block)
    requires Ok(s, {c}) && c.k > 0
    requires var u := HeadOf(Upper(c));
             && u < |s.mem| && u in s.managed
             && t == s.(free := s.free + {Upper(c)}, bits := s.bits[u := true], mem := s.mem[u := Header(c.k - 1)])
    ensures Marked(t, {Lower(c)})
  {
    var blocks, h := s.free + s.live + {c}, HeadOf(Upper(c));
    HeadsIn();
    Halves(c, h);
    forall b, u: nat | b in t.free && In(u, b) && u < |t.mem|
      ensures t.mem[u] == if u == HeadOf(b) then Header(b.k) else Zero
    {
      Halves(c, u);
      assert c in blocks && (b == Upper(c) || b in blocks);
    }
    forall b, u: nat | b == Lower(c) && In(u, b) && u < |t.mem|
      ensures t.mem[u] == Zero
    {
      Halves(c, u);
    }
    forall b | b in t.live && HeadOf(b) < |t.bits|
      ensures !t.bits[HeadOf(b)]
    {
      assert c in blocks && b in blocks;
    }
  }

  /** The block in hand goes to the caller. */
  lemma GiveStep(s: State, c: Block) returns (t: State)
    requires Sound(s, {c})
    ensures HeadOf(c) < |s.mem| == |s.bits| && c !in s.live && t == s.(live := s.live + {c}, bits := s.bits[HeadOf(c) := false]) && Sound(t, {})
  {
    OpenSound(s, {c});
    HeadsIn();
    var blocks := s.free + s.live + {c};
    assert c in blocks;
    t := s.(live := s.live + {c}, bits := s.bits[HeadOf(c) := false]);
    assert t.free + t.live + {} == blocks;
    assert Ranged(t);
    forall b | b in t.free && HeadOf(b) < |t.bits|
      ensures t.bits[HeadOf(b)]
    {
      assert b in blocks;
    }
    FoldSound(t, {});
  }

  /** The unit belongs to an allocated block. */
  ghost predicate Owned(live: set<Block>, u: nat) {
    exists b :: b in live && In(u, b)
  }

  /** The memory that is not the allocator's: what is allocated and what it does not manage. */
  ghost predicate Foreign(s: State, u: nat) {
    u in s.managed ==> Owned(s.live, u)
  }

  /** All memory that is not the allocator's in s is unchanged. */
  ghost predicate KeepsForeign(s: State, mem: seq<Unit>) {
    |mem| == |s.mem| && forall u: nat :: u < |s.mem| && Foreign(s, u) ==> mem[u] == s.mem[u]
  }

  /** Others store into memory that is not the allocator's. */
  lemma WriteStep(s: State, mem: seq<Unit>) returns (t: State)
    requires Sound(s, {}) && |mem| == |s.mem| && forall u: nat :: u < |mem| && mem[u] != s.mem[u] ==> Foreign(s, u)
    ensures t == s.(mem := mem) && Sound(t, {})
  {
    OpenSound(s, {});
    t := s.(mem := mem);
    var blocks := s.free + s.live + {};
    assert Ranged(t);
    forall b, u: nat | b in t.free && In(u, b) && u < |t.mem|
      ensures t.mem[u] == if u == HeadOf(b) then Header(b.k) else Zero
    {
      assert b in blocks && u in s.managed && forall a :: a in s.live ==> a in blocks && !In(u, a);
    }
    FoldSound(t, {});
  }

  /** The memory of block c is zero. */
  ghost predicate Zeroed(s: State, c: Block) {
    forall u: nat :: In(u, c) ==> u < |s.mem| && s.mem[u] == Zero
  }

  /** An allocated block, zeroed, comes back into the hand. */
  lemma ReleaseStep(s: State, c: Block) returns (t: State)
    requires Sound(s, {}) && c in s.live && Zeroed(s, c)
    ensures HeadOf(c) < |s.mem| == |s.bits| && !s.bits[HeadOf(c)]
    ensures t == s.(live := s.live - {c}, bits := s.bits[HeadOf(c) := true]) && Sound(t, {c})
  {
    OpenSound(s, {});
    HeadsIn();
    var blocks := s.free + s.live + {};
    assert c in blocks;
    t := s.(live := s.live - {c}, bits := s.bits[HeadOf(c) := true]);
    assert t.free + t.live + {c} == blocks;
    assert Ranged(t);
    forall b | b in t.live && HeadOf(b) < |t.bits|
      ensures !t.bits[HeadOf(b)]
    {
      assert b in blocks;
    }
    FoldSound(t, {c});
  }

  /** The free buddy of the block in hand leaves its list and joins it. */
  lemma MergeStep(s: State, b: Block) returns (t: State)
    requires Sound(s, {b}) && Buddy(b) in s.free && b.k < LEVELS - 1
    ensures HeadOf(Buddy(b)) < |s.mem|
    ensures t == s.(free := s.free - {Buddy(b)}, mem := s.mem[HeadOf(Buddy(b)) := Zero]) && Sound(t, {Parent(b)})
  {
    OpenSound(s, {b});
    HeadsIn();
    var blocks, n := s.free + s.live + {b}, Buddy(b);
    assert b in blocks && n in blocks;
    t := s.(free := s.free - {n}, mem := s.mem[HeadOf(n) := Zero]);
    MergeTiling(blocks, s.managed, b);
    assert t.free + t.live + {Parent(b)} == blocks - {b, n} + {Parent(b)};
    assert Ranged(t);
    forall a, u: nat | a in t.free && In(u, a) && u < |t.mem|
      ensures t.mem[u] == if u == HeadOf(a) then Header(a.k) else Zero
    {
      assert a in blocks;
    }
    forall a, u: nat | a == Parent(b) && In(u, a) && u < |t.mem|
      ensures t.mem[u] == Zero
    {
      ParentIs(b, u);
    }
    FoldSound(t, {Parent(b)});
  }

  /** The block in hand goes on its free list. */
  lemma PutStep(s: State, b: Block) returns (t: State)
    requires Sound(s, {b}) && (b.k < LEVELS - 1 ==> Buddy(b) !in s.free)
    ensures HeadOf(b) < |s.mem| == |s.bits| && b !in s.free && b.k < LEVELS
    ensures t == s.(free := s.free + {b}, bits := s.bits[HeadOf(b) := true], mem := s.mem[HeadOf(b) := Header(b.k)]) && Sound(t, {})
  {
    OpenSound(s, {b});
    HeadsIn();
    var blocks := s.free + s.live + {b};
    assert b in blocks;
    t := s.(free := s.free + {b}, bits := s.bits[HeadOf(b) := true], mem := s.mem[HeadOf(b) := Header(b.k)]);
    assert t.free + t.live + {} == blocks;
    assert Ranged(t);
    forall a | a in t.free && a.k < LEVELS - 1
      ensures Buddy(a) !in t.free
    {
      BuddyOrder(a);
    }
    forall a, u: nat | a in t.free && In(u, a) && u < |t.mem|
      ensures t.mem[u] == if u == HeadOf(a) then Header(a.k) else Zero
    {
      assert a in blocks;
    }
    forall a | a in t.live && HeadOf(a) < |t.bits|
      ensures !t.bits[HeadOf(a)]
    {
      assert a in blocks;
    }
    FoldSound(t, {});
  }

  /** A zeroed block that was not managed before. */
  lemma ExtendStep(s: State, b: Block) returns (t: State)
    requires Sound(s, {}) && b.k < LEVELS
    requires forall u :: u in Units(b.k, b.i) ==> u !in s.managed && u < |s.mem| && s.mem[u] == Zero
    ensures t == s.(managed := s.managed + Units(b.k, b.i)) && Sound(t, {b})
  {
    OpenSound(s, {});
    var units := Units(b.k, b.i);
    forall u: nat
      ensures u in units <==> In(u, b)
    {
      UnitsAre(b.k, b.i, u);
    }
    HeadsIn();
    t := s.(managed := s.managed + units);
    var blocks := s.free + s.live + {};
    assert t.free + t.live + {b} == blocks + {b};
    assert b !in blocks;
    assert Ranged(t);
    forall u | u in t.managed
      ensures exists a :: a in blocks + {b} && In(u, a)
    {
      if u in s.managed {
        var a :| a in blocks && In(u, a);
        assert a in blocks + {b};
      }
    }
    FoldSound(t, {b});
  }
}
