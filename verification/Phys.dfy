/** The physical memory allocator (src/mem/phys.c): the buddy allocator with its page accounting. */
module Phys {
  import opened BuddyBlocks
  import opened BuddySteps
  import opened BuddyPages
  import opened BuddyHeap
  import opened Counters
  import opened PhysSizes

  datatype Ptr = Null | At(unit: nat)

  /** The lowest level from `level` up that has a free block. */
  ghost predicate Serves(s: State, level: nat, at: nat) {
    && at >= level && (exists b :: b in s.free && b.k == at)
    && forall b :: b in s.free && b.k >= level ==> b.k >= at
  }

  /** What one more allocated block changes. */
  ghost predicate Allocated(s: State, t: State, c: Block) {
    && c !in s.live && t.live == s.live + {c} && t.managed == s.managed
    && Zeroed(t, c) && KeepsForeign(s, t.mem)
  }

  class PhysMem {
    const heap: Allocator
    const acct: PageCounters
    /** The pages that were freed and are not uncommitted yet. */
    ghost var owed: nat
    /** The pages that were counted as committed from the start. */
    ghost var boot: nat

    constructor (tops: nat)
      ensures Valid() && fresh(heap) && fresh(heap.bits) && fresh(heap.mem) && fresh(acct)
      ensures heap.st.live == {} && heap.st.managed == {} && heap.mem.Length == Head(LEVELS - 1, tops)
    {
      heap := new Allocator(tops);
      acct := new PageCounters();
      owed, boot := 0, 0;
      new;
      assert FreeUnits(heap.st) == {};
      assert Pages({}) == {};
    }

    ghost function FreePages(): nat
      reads this, heap
    {
      |Pages(FreeUnits(heap.st))|
    }

    /** Between any two steps: the pages that are promised to somebody or available are exactly the whole
        free pages, less those whose uncommit is still to come. */
    ghost predicate Valid()
      reads this, heap, heap.bits, heap.mem, acct
    {
      && heap.Holding({}) && acct.Balanced()
      && acct.available + acct.reserved + owed == FreePages()
      && acct.total == |Pages(heap.st.managed)| + boot
    }

    /** So what is owed can always be uncommitted. */
    lemma OwedIsCommitted()
      requires Valid()
      ensures owed <= acct.committed
    {
      PagesMonotone(FreeUnits(heap.st), heap.st.managed);
    }

    /** The commit of phys_alloc_internal: a block of pages commits them all, a piece of a page commits the page
        if it has to split one. */
    method CommitFor(level: nat, at: nat, fromReserved: bool) returns (ok: bool)
      requires acct.Balanced() && (fromReserved ==> level >= PAGE_LEVEL && PageShare(level, at) <= acct.reserved)
      modifies acct
      ensures acct.Balanced() && acct.total == old(acct.total)
      ensures ok == (fromReserved || PageShare(level, at) <= old(acct.available))
      ensures acct.available == old(acct.available) - (if ok && !fromReserved then PageShare(level, at) else 0)
      ensures acct.reserved == old(acct.reserved) - (if ok && fromReserved then PageShare(level, at) else 0)
    {
      ok := true;
      if level >= PAGE_LEVEL {
        var pageCount := Size(level - PAGE_LEVEL);
        if fromReserved {
          acct.CommitReserved(pageCount);
        } else {
          ok := acct.Commit(pageCount);
        }
      } else if at >= PAGE_LEVEL {
        ok := acct.Commit(1);
      }
    }

    /** phys_alloc_internal */
    method AllocInternal(level: nat, fromReserved: bool) returns (r: Ptr, ghost c: Block, ghost at: nat)
      requires Valid() && level < LEVELS
      requires fromReserved ==> level >= PAGE_LEVEL && Size(level - PAGE_LEVEL) <= acct.reserved
      modifies heap, heap.bits, heap.mem, acct
      ensures Valid() && acct.total == old(acct.total)
      ensures r.Null? <==> forall k :: Serves(old(heap.st), level, k) ==> !fromReserved && PageShare(level, k) > old(acct.available)
      ensures r.Null? ==> heap.st == old(heap.st) && acct.available == old(acct.available) && acct.reserved == old(acct.reserved)
      ensures r.At? ==> Allocated(old(heap.st), heap.st, c) && c.k == level && r.unit == HeadOf(c) && Serves(old(heap.st), level, at)
      ensures r.At? ==> at < |old(heap.lists)| && old(heap.lists)[at] != [] && r.unit == old(heap.lists)[at][0]
      ensures r.At? ==> acct.reserved == old(acct.reserved) - (if fromReserved then PageShare(level, at) else 0)
      ensures r.At? ==> acct.available == old(acct.available) - (if fromReserved then 0 else PageShare(level, at))
      ensures fromReserved && level == PAGE_LEVEL ==> r.At?
    {
      c, at := Block(0, 0), 0;
      heap.IsSound();
      var k := heap.Search(level);
      assert forall j :: Serves(heap.st, level, j) <==> k < LEVELS && j == k by {
        heap.Open({});
        SearchServes(heap.lists, heap.st.free, level, k);
      }
      if fromReserved && level == PAGE_LEVEL {
        ReservedServes(heap.st);
      }
      if k == LEVELS {
        return Null, c, at;
      }
      at := k;
      assert Serves(heap.st, level, k);
      var ok := CommitFor(level, k, fromReserved);
      if !ok {
        return Null, c, at;
      }
      ghost var s := heap.st;
      var block;
      ghost var b;
      block, c, b := heap.Carve(level, k);
      heap.IsSound();
      ShareOf(s, heap.st, c, b);
      r := At(block);
    }

    /** phys_free_internal for an allocated block.  Its pages are free from here on, but owed to the accounting. */
    method FreeInternal(ptr: nat, level: nat, ghost b: Block) returns (merged: nat)
      requires Valid() && b in heap.st.live && b.k == level && ptr == HeadOf(b) && Zeroed(heap.st, b)
      modifies this`owed, heap, heap.bits, heap.mem
      ensures Valid() && owed == old(owed) + PageShare(level, merged)
      ensures heap.st.live == old(heap.st).live - {b} && heap.st.managed == old(heap.st).managed
      ensures KeepsForeign(old(heap.st).(live := heap.st.live), heap.st.mem)
    {
      ghost var s := heap.st;
      heap.IsSound();
      heap.Release(ptr, b);
      ghost var s1 := heap.st;
      ghost var m;
      merged, m := heap.MergeUp(ptr, level, b, s1);
      assert s.live == heap.st.live + {b};
      heap.IsSound();
      ShareOf(heap.st, s, b, m);
      owed := owed + PageShare(level, merged);
    }

    /** The accounting at the end of phys_free_block pays what is owed. */
    method UncommitFor(level: nat, merged: nat, toReserved: bool)
      requires Valid() && PageShare(level, merged) <= owed && (toReserved ==> level >= PAGE_LEVEL)
      modifies this`owed, acct
      ensures Valid() && owed == old(owed) - PageShare(level, merged) && acct.total == old(acct.total)
      ensures acct.reserved == old(acct.reserved) + (if toReserved then PageShare(level, merged) else 0)
      ensures acct.available == old(acct.available) + (if toReserved then 0 else PageShare(level, merged))
    {
      OwedIsCommitted();
      if level >= PAGE_LEVEL {
        var pageCount := Size(level - PAGE_LEVEL);
        if toReserved {
          acct.UncommitToReserved(pageCount);
        } else {
          acct.Uncommit(pageCount);
        }
      } else if merged >= PAGE_LEVEL {
        acct.Uncommit(1);
      }
      owed := owed - PageShare(level, merged);
    }

    /** phys_free_block */
    method FreeBlock(ptr: nat, level: nat, toReserved: bool, ghost b: Block) returns (merged: nat)
      requires Valid() && b in heap.st.live && b.k == level && ptr == HeadOf(b) && (toReserved ==> level >= PAGE_LEVEL)
      modifies this`owed, heap, heap.bits, heap.mem, acct
      ensures Valid() && owed == old(owed) && acct.total == old(acct.total)
      ensures heap.st.live == old(heap.st).live - {b} && heap.st.managed == old(heap.st).managed
      ensures acct.reserved == old(acct.reserved) + (if toReserved then PageShare(level, merged) else 0)
      ensures acct.available == old(acct.available) + (if toReserved then 0 else PageShare(level, merged))
      ensures KeepsForeign(old(heap.st).(live := heap.st.live), heap.st.mem)
    {
      heap.Clear(ptr, Size(level), b);
      merged := FreeInternal(ptr, level, b);
      UncommitFor(level, merged, toReserved);
    }

    /** A block that is allocated and freed again leaves the same free blocks and the same counters. */
    method AllocateAndFree(level: nat) returns (r: Ptr)
      requires Valid() && level < LEVELS
      modifies this`owed, heap, heap.bits, heap.mem, acct
      ensures Valid() && owed == old(owed) && heap.st.free == old(heap.st).free && heap.st.live == old(heap.st).live
      ensures acct.available == old(acct.available) && acct.reserved == old(acct.reserved) && acct.committed == old(acct.committed)
      ensures KeepsForeign(old(heap.st), heap.st.mem)
    {
      ghost var s := heap.st;
      heap.IsSound();
      ghost var c, at;
      r, c, at := AllocInternal(level, false);
      if r.At? {
        var merged := FreeBlock(r.unit, level, false, c);
        assert heap.st.live == s.live;
        heap.IsSound();
        FreeDetermined(s, heap.st);
      }
    }

    /** phys_alloc: a block of the smallest level that holds the size. */
    method Alloc(size: nat) returns (r: Ptr, ghost c: Block, ghost at: nat)
      requires Valid()
      modifies heap, heap.bits, heap.mem, acct
      ensures Valid() && (size > MAX_SIZE ==> r.Null?)
      ensures r.Null? ==> heap.st == old(heap.st) && acct.available == old(acct.available) && acct.reserved == old(acct.reserved)
      ensures size <= MAX_SIZE ==>
                (r.Null? <==> forall k :: Serves(old(heap.st), LevelBySize(size), k) ==> PageShare(LevelBySize(size), k) > old(acct.available))
      ensures r.At? ==> Allocated(old(heap.st), heap.st, c) && c.k == LevelBySize(size) && r.unit == HeadOf(c) && size <= Bytes(c.k)
    {
      c, at := Block(0, 0), 0;
      var level := LevelBySize(size);
      if level < 0 {
        return Null, c, at;
      }
      r, c, at := AllocInternal(level, false);
    }

    /** phys_alloc_reserved.  The size must be a block of pages that the caller holds in reserve; a single page
        never fails. */
    method AllocReserved(size: nat) returns (r: Ptr, ghost c: Block)
      requires Valid() && PageLevelBySize(size) >= 0 && Size(PageLevelBySize(size) - PAGE_LEVEL) <= acct.reserved
      modifies heap, heap.bits, heap.mem, acct
      ensures Valid() && acct.available == old(acct.available)
      ensures r.Null? ==> heap.st == old(heap.st) && acct.reserved == old(acct.reserved)
      ensures r.Null? <==> forall b :: b in old(heap.st).free ==> b.k < PageLevelBySize(size)
      ensures r.At? ==> Allocated(old(heap.st), heap.st, c) && r.unit == HeadOf(c) && size == Bytes(c.k)
                        && acct.reserved == old(acct.reserved) - Size(c.k - PAGE_LEVEL)
      ensures size == Bytes(PAGE_LEVEL) ==> r.At?
    {
      var level := PageLevelBySize(size);
      ExactLevel(size);
      ghost var at;
      ghost var s := heap.st;
      heap.IsSound();
      r, c, at := AllocInternal(level, true);
      if r.Null? {
        NothingServes(s, level);
      }
    }

    /** phys_free */
    method Free(r: Ptr, size: nat, ghost b: Block)
      requires Valid() && (r.At? ==> b in heap.st.live && r.unit == HeadOf(b) && b.k == LevelBySize(size))
      modifies this`owed, heap, heap.bits, heap.mem, acct
      ensures Valid() && owed == old(owed) && acct.reserved == old(acct.reserved) && heap.st.managed == old(heap.st).managed
      ensures heap.st.live == if r.At? then old(heap.st).live - {b} else old(heap.st).live
      ensures KeepsForeign(old(heap.st).(live := heap.st.live), heap.st.mem)
    {
      if r.At? {
        var merged := FreeBlock(r.unit, LevelBySize(size), false, b);
      }
    }

    /** phys_free_reserved: the pages go back to the reserve. */
    method FreeReserved(r: Ptr, size: nat, ghost b: Block)
      requires Valid() && (r.At? ==> b in heap.st.live && r.unit == HeadOf(b) && b.k == PageLevelBySize(size))
      modifies this`owed, heap, heap.bits, heap.mem, acct
      ensures Valid() && owed == old(owed) && acct.available == old(acct.available)
      ensures r.At? ==> b.k >= PAGE_LEVEL && acct.reserved == old(acct.reserved) + Size(b.k - PAGE_LEVEL)
      ensures heap.st.live == if r.At? then old(heap.st).live - {b} else old(heap.st).live
    {
      if r.At? {
        var merged := FreeBlock(r.unit, PageLevelBySize(size), true, b);
      }
    }

    /** mem_acct_reserve and mem_acct_unreserve need no block to move. */
    method Reserve(n: nat) returns (ok: bool)
      requires Valid()
      modifies acct
      ensures Valid() && ok == (old(acct.available) >= n) && acct.reserved == old(acct.reserved) + if ok then n else 0
    {
      ok := acct.Reserve(n);
    }

    method Unreserve(n: nat)
      requires Valid() && n <= acct.reserved
      modifies acct
      ensures Valid() && acct.reserved == old(acct.reserved) - n
    {
      acct.Unreserve(n);
    }

    /** The loop of phys_add_memory. */
    method AddBlocks(from: nat, end: nat, ghost s: State) returns (ghost n: nat)
      requires heap.Holding({}) && LowBitsZero(from, PAGE_LEVEL) && LowBitsZero(end, PAGE_LEVEL) && from <= end <= |heap.st.mem|
      requires s == heap.st && NewRange(s, from, end)
      modifies heap, heap.bits, heap.mem
      ensures heap.Holding({}) && Adding(s, heap.st, from, end, n)
    {
      var start := from;
      n := 0;
      AddingNone(s, from);
      while start < end
        invariant heap.Holding({}) && LowBitsZero(start, PAGE_LEVEL) && from <= start <= end
        invariant Adding(s, heap.st, from, start, n)
      {
        var level := BestLevel(start, end);
        n := AddNext(start, level, end, from, s, n);
        start := start + Size(level);
      }
    }

    /** One round: the best block at the start of what is left is added. */
    method AddNext(start: nat, level: int, ghost end: nat, ghost from: nat, ghost s: State, ghost n: nat) returns (ghost n': nat)
      requires heap.Holding({}) && from <= start < end && LowBitsZero(start, PAGE_LEVEL) && LowBitsZero(end, PAGE_LEVEL)
      requires Best(start, end, level) && NewRange(s, from, end) && Adding(s, heap.st, from, start, n)
      modifies heap, heap.bits, heap.mem
      ensures heap.Holding({}) && level >= PAGE_LEVEL && start + Size(level) <= end && LowBitsZero(start + Size(level), PAGE_LEVEL)
      ensures Adding(s, heap.st, from, start + Size(level), n')
    {
      ghost var t := heap.st;
      ghost var b := NextBlock(s, t, from, start, end, level);
      heap.IsSound();
      var merged := heap.AddBlock(start, level, b);
      heap.IsSound();
      AddingOn(s, t, heap.st, from, start, b, n);
      n' := n + Size(level - PAGE_LEVEL);
    }

    /** phys_add_memory */
    method AddMemory(start: nat, end: nat)
      requires Valid() && LowBitsZero(start, PAGE_LEVEL) && LowBitsZero(end, PAGE_LEVEL) && start <= end <= heap.mem.Length
      requires forall u :: start <= u < end ==> u !in heap.st.managed
      modifies heap, heap.bits, heap.mem, acct
      ensures Valid() && heap.st.live == old(heap.st).live && heap.st.managed == old(heap.st).managed + Run(start, end)
      ensures acct.total == old(acct.total) + (end - start) / 64 && acct.available == old(acct.available) + (end - start) / 64
      ensures KeepsForeign(old(heap.st).(managed := heap.st.managed), heap.st.mem)
    {
      var pageCount := (end - start) / 64;
      heap.IsSound();
      ghost var s := heap.st;
      heap.ClearRange(start, end);
      ghost var s1 := heap.st;
      ghost var n := AddBlocks(start, end, s1);
      acct.AddTotal(pageCount);
      KeepsCleared(s, s1, heap.st, start, end);
    }
  }

  /** phys_add_memory has added [from, start), which are n pages, to the state s. */
  ghost predicate Adding(s: State, t: State, from: nat, start: nat, n: nat) {
    && from <= start && start - from == 64 * n
    && t.live == s.live && t.managed == s.managed + Run(from, start) && KeepsForeign(s.(managed := t.managed), t.mem)
    && |Pages(FreeUnits(t))| == |Pages(FreeUnits(s))| + n && |Pages(t.managed)| == |Pages(s.managed)| + n
  }

  lemma AddingNone(s: State, from: nat)
    ensures Adding(s, s, from, from, 0)
  {
    assert s.managed + Run(from, from) == s.managed;
  }

  lemma AddingOn(s: State, t: State, t': State, from: nat, start: nat, b: Block, n: nat)
    requires Sound(t, {}) && Sound(t', {}) && Adding(s, t, from, start, n) && b.k >= PAGE_LEVEL && t.managed !! Units(b.k, b.i)
    requires t'.live == t.live && t'.managed == t.managed + Units(b.k, b.i) == s.managed + Run(from, start + Size(b.k))
    requires KeepsForeign(t.(managed := t'.managed), t'.mem) && Size(b.k) == 64 * Size(b.k - PAGE_LEVEL)
    ensures Adding(s, t', from, start + Size(b.k), n + Size(b.k - PAGE_LEVEL))
  {
    AddedPages(t, t', b);
    KeepsOn(s, t, t', from, start, b);
  }

  lemma KeepsOn(s: State, t: State, t': State, from: nat, start: nat, b: Block)
    requires KeepsForeign(s.(managed := t.managed), t.mem) && KeepsForeign(t.(managed := t'.managed), t'.mem)
    requires t.live == s.live == t'.live && t.managed <= t'.managed
    ensures KeepsForeign(s.(managed := t'.managed), t'.mem)
  {
    forall u: nat | u < |s.mem| && Foreign(s.(managed := t'.managed), u)
      ensures t'.mem[u] == s.mem[u]
    {
      assert Foreign(t.(managed := t'.managed), u) && Foreign(s.(managed := t.managed), u);
    }
  }

  lemma KeepsCleared(s: State, s1: State, t: State, start: nat, end: nat)
    requires Sound(s, {}) && s1 == s.(mem := s1.mem) && KeepsForeign(s1.(managed := t.managed), t.mem)
    requires |s1.mem| == |s.mem| && forall u: nat :: u < |s.mem| && !Within(u, start, end) ==> s1.mem[u] == s.mem[u]
    requires t.managed == s.managed + Run(start, end) && forall u :: start <= u < end ==> u !in s.managed
    ensures KeepsForeign(s.(managed := t.managed), t.mem)
  {
    OpenSound(s, {});
    var blocks := s.free + s.live + {};
    assert forall b :: b in s.live ==> b in blocks;
    forall u: nat | u < |s.mem| && Foreign(s.(managed := t.managed), u)
      ensures t.mem[u] == s.mem[u]
    {
      assert Foreign(s1.(managed := t.managed), u);
      assert !Within(u, start, end);
    }
  }

  ghost predicate Within(u: nat, a: nat, b: nat) {
    a <= u < b
  }

  ghost function Run(a: nat, b: nat): set<nat> {
    set u: nat | u < b && Within(u, a, b)
  }

  ghost predicate NewRange(s: State, from: nat, end: nat) {
    end <= |s.mem| && forall u :: from <= u < end ==> u !in s.managed && s.mem[u] == Zero
  }

  lemma NextBlock(s: State, t: State, from: nat, start: nat, end: nat, level: int) returns (b: Block)
    requires from <= start < end && LowBitsZero(start, PAGE_LEVEL) && LowBitsZero(end, PAGE_LEVEL) && Best(start, end, level)
    requires NewRange(s, from, end) && t.managed == s.managed + Run(from, start) && KeepsForeign(s.(managed := t.managed), t.mem)
    ensures level >= PAGE_LEVEL && b.k == level && HeadOf(b) == start && LowBitsZero(start + Size(level), PAGE_LEVEL)
    ensures start + Size(level) <= end && Size(level) == 64 * Size(level - PAGE_LEVEL)
    ensures Untouched(t, b) && t.managed !! Units(b.k, b.i)
    ensures t.managed + Units(b.k, b.i) == s.managed + Run(from, start + Size(level))
  {
    PageFits(start, end);
    b := Block(level, Anc(start, level));
    NewBlock(s, t, from, start, end, b);
  }

  /** The next block of new memory. */
  lemma NewBlock(s: State, t: State, from: nat, start: nat, end: nat, b: Block)
    requires from <= start < end <= |s.mem| && b.k >= PAGE_LEVEL && b == Block(b.k, Anc(start, b.k))
    requires LowBitsZero(start, b.k) && start + Size(b.k) <= end
    requires t.managed == s.managed + Run(from, start) && KeepsForeign(s.(managed := t.managed), t.mem)
    requires NewRange(s, from, end)
    ensures HeadOf(b) == start && LowBitsZero(start + Size(b.k), PAGE_LEVEL)
    ensures Untouched(t, b) && t.managed !! Units(b.k, b.i)
    ensures t.managed + Units(b.k, b.i) == s.managed + Run(from, start + Size(b.k))
    ensures Size(b.k) == 64 * Size(b.k - PAGE_LEVEL)
  {
    AlignedIs(start, b.k);
    StillAligned(start, b.k, PAGE_LEVEL);
    var units := Units(b.k, b.i);
    forall u: nat
      ensures u in units <==> start <= u < start + Size(b.k)
    {
      UnitsAre(b.k, b.i, u);
      InRange(u, b.k, b.i);
    }
    SizeSum(b.k - PAGE_LEVEL, PAGE_LEVEL);
    ByteSizes();
  }

  lemma AddedPages(s: State, t: State, b: Block)
    requires t.live == s.live && t.managed == s.managed + Units(b.k, b.i) && s.managed !! Units(b.k, b.i) && b.k >= PAGE_LEVEL
    requires Sound(s, {}) && Sound(t, {})
    ensures |Pages(FreeUnits(t))| == |Pages(FreeUnits(s))| + Size(b.k - PAGE_LEVEL)
    ensures |Pages(t.managed)| == |Pages(s.managed)| + Size(b.k - PAGE_LEVEL)
  {
    var units := Units(b.k, b.i);
    OpenSound(s, {});
    PagesWithBlock(s.managed, b);
    var blocks := s.free + s.live + {};
    assert forall a :: a in s.live ==> a in blocks;
    assert FreeUnits(t) == FreeUnits(s) + units;
    PagesWithBlock(FreeUnits(s), b);
  }

  lemma NothingServes(s: State, level: nat)
    requires forall k :: !Serves(s, level, k)
    ensures forall b :: b in s.free ==> b.k < level
  {
    forall b | b in s.free
      ensures b.k < level
    {
      if b.k >= level {
        var m := Lowest(s.free, level, b);
        assert Serves(s, level, m.k);
      }
    }
  }

  lemma {:induction false} Lowest(free: set<Block>, level: nat, b: Block) returns (m: Block)
    requires b in free && b.k >= level
    ensures m in free && m.k >= level && forall a :: a in free && a.k >= level ==> a.k >= m.k
    decreases b.k
  {
    m := b;
    if !forall a :: a in free && a.k >= level ==> a.k >= b.k {
      var a :| a in free && level <= a.k < b.k;
      m := Lowest(free, level, a);
    }
  }

  lemma SearchServes(lists: Lists, free: set<Block>, level: nat, at: nat)
    requires Listed(lists, free) && level <= at <= LEVELS
    requires at < LEVELS ==> lists[at] != []
    requires forall k :: level <= k < at ==> lists[k] == []
    ensures forall s: State, k: nat :: s.free == free ==> (Serves(s, level, k) <==> at < LEVELS && k == at)
  {
    if at < LEVELS {
      assert Block(at, Anc(lists[at][0], at)) in free;
    }
    forall b | b in free && b.k >= level
      ensures b.k >= at
    {
    }
  }

  /** A page held in reserve has a free block waiting for it. */
  lemma ReservedServes(s: State)
    requires Sound(s, {}) && Pages(FreeUnits(s)) != {}
    ensures exists k :: Serves(s, PAGE_LEVEL, k)
  {
    OpenSound(s, {});
    var m := PageMeansBlock(s);
    if forall k :: !Serves(s, PAGE_LEVEL, k) {
      NothingServes(s, PAGE_LEVEL);
    }
  }
}
