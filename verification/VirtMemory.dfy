/** Demand paging (src/mem/virt.c): `virt_reserve_page_tables`, `virt_populate`, `virt_free`, and what they do to
    the page accounting.  The calls of one mapping are serialized by its lock. */
module VirtMemory {
  import opened Common
  import opened PageTable
  import opened Counters

  /** A leaf entry: its address bits, and of its flags the two that the code looks at. */
  datatype Entry = Entry(page: nat, present: bool, global: bool)

  const ZERO := Entry(0, false, false)

  datatype View = View(tables: Tables, leaf: map<Slot, Entry>, root: nat, levels: nat)

  function Value(leaf: map<Slot, Entry>, s: Slot): Entry {
    if s in leaf then leaf[s] else ZERO
  }

  /** Page v of the address space, and whether its leaf entry has a table to be in. */
  ghost predicate Mapped(w: View, v: nat) {
    w.levels > 0 && High(v, w.levels) == 0 && Leaf(w.tables, w.root, w.levels, v).Some?
  }

  ghost function SlotOf(w: View, v: nat): Slot
    requires Mapped(w, v)
  {
    Leaf(w.tables, w.root, w.levels, v).value
  }

  /** The leaf entry of page v. */
  ghost function At(w: View, v: nat): Entry {
    if Mapped(w, v) then Value(w.leaf, SlotOf(w, v)) else ZERO
  }

  ghost predicate MappedRange(w: View, base: nat, n: nat) {
    forall v :: base <= v < base + n ==> Mapped(w, v)
  }

  /** The number of pages of the range with a present entry. */
  ghost function Populated(w: View, base: nat, n: nat): (k: nat)
    ensures k <= n
  {
    if n == 0 then 0 else Populated(w, base, n - 1) + if At(w, base + n - 1).present then 1 else 0
  }

  /** The entry is backed by physical page 0. */
  predicate OnZero(e: Entry) {
    e.present && e.page == 0
  }

  /** The number of pages of the range that are backed by physical page 0. */
  ghost function OnPageZero(w: View, base: nat, n: nat): (k: nat)
    ensures k <= n
  {
    if n == 0 then 0
    else OnPageZero(w, base, n - 1) + if OnZero(At(w, base + n - 1)) then 1 else 0
  }

  /** The tables are a tree and nothing is stored outside of them. */
  ghost predicate ViewOk(w: View) {
    && w.levels > 0 && Tree(w.tables, w.root)
    && (forall s :: s in w.tables ==> s.table == w.root || s.table in w.tables.Values)
    && (forall s :: s in w.leaf && w.leaf[s] != ZERO ==> s.table == w.root || s.table in w.tables.Values)
  }

  ghost predicate SameOn(w: View, w': View, base: nat, n: nat) {
    forall v :: base <= v < base + n ==> At(w', v) == At(w, v)
  }

  lemma {:induction false} PopulatedSame(w: View, w': View, base: nat, n: nat)
    requires SameOn(w, w', base, n)
    ensures Populated(w', base, n) == Populated(w, base, n) && OnPageZero(w', base, n) == OnPageZero(w, base, n)
  {
    if n > 0 {
      PopulatedSame(w, w', base, n - 1);
    }
  }

  lemma {:induction false} PopulatedSplit(w: View, base: nat, m: nat, n: nat)
    ensures Populated(w, base, m + n) == Populated(w, base, m) + Populated(w, base + m, n)
  {
    if n > 0 {
      PopulatedSplit(w, base, m, n - 1);
    }
  }

  /** Storing into the entry of page v changes no other page. */
  lemma StoreOne(w: View, v: nat, e: Entry, u: nat)
    requires ViewOk(w) && Mapped(w, v)
    ensures var w' := w.(leaf := w.leaf[SlotOf(w, v) := e]);
            At(w', u) == (if u == v then e else At(w, u)) && (Mapped(w', u) <==> Mapped(w, u))
  {
    var w' := w.(leaf := w.leaf[SlotOf(w, v) := e]);
    if Mapped(w, u) && u != v && SlotOf(w, u) == SlotOf(w, v) {
      LeavesDiffer(w.tables, w.root, w.levels, u, v);
    }
  }

  /** The leaf table of a mapped page is one of the tables. */
  lemma LeafTable(w: View, v: nat)
    requires Mapped(w, v)
    ensures SlotOf(w, v).table == w.root || SlotOf(w, v).table in w.tables.Values
  {
  }

  lemma StoreOk(w: View, v: nat, e: Entry)
    requires ViewOk(w) && Mapped(w, v)
    ensures ViewOk(w.(leaf := w.leaf[SlotOf(w, v) := e]))
  {
    LeafTable(w, v);
  }

  /** A new, empty table changes no leaf entry. */
  lemma GrowKeeps(w: View, slot: Slot, page: nat, v: nat)
    requires ViewOk(w) && slot !in w.tables && page != w.root && page !in w.tables.Values
    requires slot.table == w.root || slot.table in w.tables.Values
    ensures var w' := w.(tables := w.tables[slot := page]);
            At(w', v) == At(w, v) && (Mapped(w, v) ==> Mapped(w', v) && SlotOf(w', v) == SlotOf(w, v))
  {
    var w' := w.(tables := w.tables[slot := page]);
    if Mapped(w, v) {
      ReachStays(w.tables, w'.tables, w.root, w.levels, v, 0);
    } else if Mapped(w', v) {
      NewLeafTable(w, slot, page, v, 0);
    }
  }

  /** A way that was not there before leads through the new table; at its end there is a table
      that held no entry. */
  lemma {:induction false} NewLeafTable(w: View, slot: Slot, page: nat, v: nat, i: nat)
    requires w.levels > 0 && i < w.levels && Tree(w.tables, w.root) && slot !in w.tables && page != w.root && page !in w.tables.Values
    requires slot.table != page && forall s :: s in w.tables ==> s.table == w.root || s.table in w.tables.Values
    requires Reach(w.tables[slot := page], w.root, w.levels, v, i).Some? && Reach(w.tables, w.root, w.levels, v, i).None?
    ensures Reach(w.tables[slot := page], w.root, w.levels, v, i).value == page
    decreases w.levels - i
  {
    var up := Reach(w.tables, w.root, w.levels, v, i + 1);
    if up.Some? {
      ReachStays(w.tables, w.tables[slot := page], w.root, w.levels, v, i + 1);
    } else {
      NewLeafTable(w, slot, page, v, i + 1);
    }
  }

  lemma GrowKeepsAll(w: View, slot: Slot, page: nat)
    requires ViewOk(w) && slot !in w.tables && page != w.root && page !in w.tables.Values
    requires slot.table == w.root || slot.table in w.tables.Values
    ensures Grown(w, w.(tables := w.tables[slot := page]))
  {
    forall v: nat
      ensures At(w.(tables := w.tables[slot := page]), v) == At(w, v)
    {
      GrowKeeps(w, slot, page, v);
    }
  }

  lemma GrownTwice(a: View, b: View, c: View)
    requires Grown(a, b) && Grown(b, c)
    ensures Grown(a, c)
  {
    assert GrownAt(0, a, b) && GrownAt(0, b, c);
  }

  lemma GrownSame(w: View)
    ensures Grown(w, w)
  {
  }

  lemma GrownMapped(a: View, b: View, v: nat)
    requires Grown(a, b) && Mapped(a, v)
    ensures Mapped(b, v) && SlotOf(b, v) == SlotOf(a, v)
  {
    assert GrownAt(0, a, b);
    ReachStays(a.tables, b.tables, a.root, a.levels, v, 0);
  }

  lemma GrowOk(w: View, slot: Slot, page: nat)
    requires ViewOk(w) && slot !in w.tables && page != w.root && page !in w.tables.Values
    requires slot.table == w.root || slot.table in w.tables.Values
    ensures ViewOk(w.(tables := w.tables[slot := page]))
    ensures w.tables[slot := page].Values == w.tables.Values + {page}
  {
    var tables := w.tables[slot := page];
    forall p: nat
      ensures p in tables.Values <==> p in w.tables.Values || p == page
    {
      if p in w.tables.Values {
        var a :| a in w.tables && w.tables[a] == p;
        assert a in tables && tables[a] == p;
      }
      assert tables[slot] == page;
    }
  }

  ghost predicate GrownAt(k: int, w: View, w': View) {
    k == 0 ==>
      && w'.root == w.root && w'.levels == w.levels && w'.leaf == w.leaf && Extends(w.tables, w'.tables)
      && forall v: nat :: At(w', v) == At(w, v)
  }

  /** What a walk may have changed: tables were added, leaf entries are as they were. */
  ghost predicate Grown(w: View, w': View) {
    forall k :: GrownAt(k, w, w')
  }

  class AddressSpace {
    const root: nat
    const levels: nat
    const acct: PageCounters
    /** Physical page 0 was never given to the allocator. */
    ghost const noPageZero: bool
    var tables: Tables
    var leaf: map<Slot, Entry>
    /** The physical pages that the allocator can hand out: as many as are available or reserved. */
    var free: set<nat>
    /** The physical pages that were allocated for tables and for the pages of mappings. */
    var used: set<nat>

    constructor (root: nat, levels: nat, acct: PageCounters, free: set<nat>)
      requires levels > 0 && root !in free && acct.Balanced() && |free| == acct.available + acct.reserved
      ensures Valid() && this.acct == acct && this.levels == levels && this.free == free && used == {} && tables == map[] && leaf == map[]
      ensures noPageZero == (0 !in free)
    {
      this.root, this.levels, this.acct, this.free := root, levels, acct, free;
      tables, leaf, used := map[], map[], {};
      noPageZero := 0 !in free;
      new;
      Fold();
    }

    ghost function Now(): View
      reads this
    {
      View(tables, leaf, root, levels)
    }

    ghost predicate PagesOk()
      reads this
    {
      && free !! used && root !in free + used && tables.Values <= used && (noPageZero ==> 0 !in free + used)
      && (forall s :: s in leaf && leaf[s] != ZERO ==> leaf[s].page in used - tables.Values)
      && (forall s, t :: s in leaf && t in leaf && leaf[s] != ZERO && leaf[t] != ZERO && leaf[s].page == leaf[t].page ==> s == t)
    }

    ghost predicate Parts()
      reads this, acct
    {
      && ViewOk(Now()) && PagesOk()
      && acct.Balanced() && |used| <= acct.committed && |free| == acct.available + acct.reserved
    }

    ghost predicate PartsAt(k: int)
      reads this, acct
    {
      k == 0 ==> Parts()
    }

    /** What every operation keeps; closed to proofs that only pass it on. */
    ghost predicate Valid()
      reads this, acct
    {
      forall k :: PartsAt(k)
    }

    lemma Open()
      requires Valid()
      ensures Parts()
    {
      assert PartsAt(0);
    }

    lemma Fold()
      requires Parts()
      ensures Valid()
    {
      forall k ensures PartsAt(k) {
      }
    }

    /** The tables, the pool and the counters that an allocation changes. */
    ghost function Stock(): (Tables, set<nat>, set<nat>, nat, nat)
      reads this, acct
    {
      (tables, free, used, acct.available, acct.committed)
    }

    /** A page that is allocated and stored nowhere yet. */
    ghost predicate Spare(page: nat)
      reads this
    {
      page in used && page !in tables.Values && page != root && forall s :: s in leaf && leaf[s] != ZERO ==> leaf[s].page != page
    }

    /** phys_alloc of a page: fails exactly if none is available. */
    method AllocPage() returns (page: Option<nat>)
      requires Valid()
      modifies this`free, this`used, acct
      ensures Valid() && (page.None? <==> old(acct.available) == 0)
      ensures page.None? ==> free == old(free) && used == old(used) && acct.available == old(acct.available) && acct.committed == old(acct.committed)
      ensures page.Some? ==> page.value in old(free) && free == old(free) - {page.value} && used == old(used) + {page.value}
                             && acct.available == old(acct.available) - 1 && acct.committed == old(acct.committed) + 1
      ensures acct.reserved == old(acct.reserved) && acct.total == old(acct.total) && (page.Some? ==> Spare(page.value))
    {
      Open();
      var ok := acct.Commit(1);
      if !ok {
        Fold();
        return None;
      }
      var p :| p in free;
      free, used := free - {p}, used + {p};
      page := Some(p);
      Fold();
    }

    /** phys_alloc_reserved of a page: there is always one for a page held in reserve. */
    method AllocReservedPage() returns (page: nat)
      requires Valid() && acct.reserved > 0
      modifies this`free, this`used, acct
      ensures Valid() && page in old(free) && free == old(free) - {page} && used == old(used) + {page}
      ensures acct.reserved == old(acct.reserved) - 1 && acct.available == old(acct.available) && acct.total == old(acct.total)
      ensures acct.committed == old(acct.committed) + 1 && Spare(page)
    {
      Open();
      acct.CommitReserved(1);
      page :| page in free;
      free, used := free - {page}, used + {page};
      Fold();
    }

    /** virt_get_next_level where the entry is absent and nobody races. */
    method NewTable(slot: Slot) returns (page: Option<nat>)
      requires Valid() && slot !in tables && (slot.table == root || slot.table in tables.Values)
      modifies this`tables, this`free, this`used, acct
      ensures Valid() && Grown(old(Now()), Now()) && (page.None? <==> old(acct.available) == 0)
      ensures page.Some? ==> slot in tables && tables[slot] == page.value
      ensures page.None? ==> tables == old(tables)
      ensures Extends(old(tables), tables)
      ensures acct.available + |tables| == old(acct.available) + |old(tables)|
      ensures acct.reserved == old(acct.reserved) && acct.total == old(acct.total)
    {
      GrownSame(Now());
      page := AllocPage();
      if page.Some? {
        LinkTable(slot, page.value);
      }
    }

    method LinkTable(slot: Slot, page: nat)
      requires Valid() && Spare(page) && slot !in tables && (slot.table == root || slot.table in tables.Values)
      modifies this`tables
      ensures Valid() && Grown(old(Now()), Now()) && Extends(old(tables), tables) && tables == old(tables)[slot := page]
    {
      ghost var w := Now();
      Open();
      GrowOk(w, slot, page);
      tables := tables[slot := page];
      Fold();
      GrowKeepsAll(w, slot, page);
    }

    /** virt_get_next_level where nobody races. */
    method NextLevel(v: nat, i: nat, table: nat, alloc: bool) returns (next: Option<nat>)
      requires Valid() && 0 < i < levels && Reach(tables, root, levels, v, i) == Some(table)
      requires !alloc ==> Slot(table, Index(v, i)) in tables
      modifies this`tables, this`free, this`used, acct
      ensures Valid() && Grown(old(Now()), Now())
      ensures next.Some? ==> Reach(tables, root, levels, v, i - 1) == next
      ensures next.None? ==> alloc && acct.available == 0
      ensures !alloc ==> Stock() == old(Stock())
      ensures acct.available + |tables| == old(acct.available) + |old(tables)|
      ensures acct.reserved == old(acct.reserved) && acct.total == old(acct.total)
    {
      ghost var before := tables;
      GrownSame(Now());
      var entry := Slot(table, Index(v, i));
      if entry in tables {
        return Some(tables[entry]);
      }
      ReachIsTable(tables, root, levels, v, i);
      next := NewTable(entry);
      if next.Some? {
        ReachStays(before, tables, root, levels, v, i);
      }
    }

    /** virt_get_pte */
    method GetPte(v: nat, alloc: bool) returns (slot: Option<Slot>)
      requires Valid() && High(v, levels) == 0 && (!alloc ==> Mapped(Now(), v))
      modifies this`tables, this`free, this`used, acct
      ensures Valid() && Grown(old(Now()), Now())
      ensures slot.Some? ==> Mapped(Now(), v) && SlotOf(Now(), v) == slot.value && slot.value.index == v % 512
      ensures slot.None? ==> alloc && acct.available == 0
      ensures !alloc ==> Stock() == old(Stock())
      ensures acct.available + |tables| == old(acct.available) + |old(tables)|
      ensures acct.reserved == old(acct.reserved) && acct.total == old(acct.total)
    {
      ghost var w := Now();
      GrownSame(w);
      var table := root;
      assert levels > 0 by { Open(); }
      var i := levels - 1;
      while i > 0
        invariant 0 <= i < levels && Reach(tables, root, levels, v, i) == Some(table)
        invariant Valid() && Grown(w, Now())
        invariant !alloc ==> Stock() == old(Stock())
        invariant acct.available + |tables| == old(acct.available) + |old(tables)|
        invariant acct.reserved == old(acct.reserved) && acct.total == old(acct.total)
      {
        if !alloc {
          WholeWay(tables, root, levels, v, i - 1);
        }
        ghost var w1 := Now();
        var next := NextLevel(v, i, table, alloc);
        GrownTwice(w, w1, Now());
        if next.None? {
          return None;
        }
        table, i := next.value, i - 1;
      }
      slot := Some(Slot(table, Index(v, 0)));
    }

    /** virt_reserve_page_tables: all of it, or the whole reservation is given back. */
    method ReservePageTables(base: nat, n: nat) returns (ok: bool)
      requires Valid() && forall v :: base <= v < base + n ==> High(v, levels) == 0
      modifies this`tables, this`free, this`used, acct
      ensures Valid() && Grown(old(Now()), Now()) && acct.total == old(acct.total)
      ensures ok ==> MappedRange(Now(), base, n)
      ensures acct.reserved == old(acct.reserved) + if ok then n else 0
      ensures acct.available + acct.reserved + |tables| == old(acct.available) + old(acct.reserved) + |old(tables)|
      ensures !ok ==> old(acct.available) < n || acct.available == n
    {
      ghost var w := Now();
      GrownSame(w);
      ok := ReservePages(n);
      if !ok {
        return;
      }
      var i := 0;
      while i < n
        invariant i <= n && Valid() && Grown(w, Now()) && MappedRange(Now(), base, i)
        invariant acct.reserved == old(acct.reserved) + n && acct.total == old(acct.total)
        invariant acct.available + acct.reserved + |tables| == old(acct.available) + old(acct.reserved) + |old(tables)|
      {
        ghost var w1 := Now();
        var pte := GetPte(base + i, true);
        GrownTwice(w, w1, Now());
        if pte.None? {
          UnreservePages(n);
          return false;
        }
        RangeGrows(w1, Now(), base, i);
        i := i + 1;
      }
    }

    method ReservePages(n: nat) returns (ok: bool)
      requires Valid()
      modifies acct
      ensures Valid() && ok == (old(acct.available) >= n) && acct.total == old(acct.total)
      ensures acct.reserved == old(acct.reserved) + (if ok then n else 0) && acct.available + acct.reserved == old(acct.available) + old(acct.reserved)
    {
      Open();
      ok := acct.Reserve(n);
      Fold();
    }

    method UnreservePages(n: nat)
      requires Valid() && n <= acct.reserved
      modifies acct
      ensures Valid() && acct.total == old(acct.total) && acct.committed == old(acct.committed)
      ensures acct.reserved == old(acct.reserved) - n && acct.available == old(acct.available) + n
    {
      Open();
      acct.Unreserve(n);
      Fold();
    }

    /** Publish a page in the entry of page v. */
    method StorePresent(slot: Slot, page: nat, global: bool, ghost v: nat)
      requires Valid() && Spare(page) && Mapped(Now(), v) && SlotOf(Now(), v) == slot
      modifies this`leaf
      ensures Valid() && Stored(old(Now()), Now(), v, Entry(page, true, global))
    {
      Open();
      ghost var w := Now();
      StoreOk(w, v, Entry(page, true, global));
      StoredIs(w, v, Entry(page, true, global));
      leaf := leaf[slot := Entry(page, true, global)];
      Fold();
    }

    /** One round of virt_populate. */
    method PopulateOne(v: nat, global: bool)
      requires Valid() && Mapped(Now(), v) && (At(Now(), v).present || acct.reserved > 0)
      modifies this`leaf, this`tables, this`free, this`used, acct
      ensures Valid() && Backed(old(Now()), Now(), v, global)
      ensures acct.reserved == old(acct.reserved) - if At(old(Now()), v).present then 0 else 1
      ensures acct.available == old(acct.available) && acct.total == old(acct.total)
    {
      var pte := GetPte(v, false);
      var slot := pte.value;
      if !Value(leaf, slot).present {
        var page := AllocReservedPage();
        StorePresent(slot, page, global, v);
      }
    }

    /** virt_populate: every page that is missing is backed from the reserve. */
    method Populate(base: nat, n: nat, global: bool)
      requires Valid() && MappedRange(Now(), base, n) && n - Populated(Now(), base, n) <= acct.reserved
      modifies this`leaf, this`tables, this`free, this`used, acct
      ensures Valid() && Filled(old(Now()), Now(), base, n, global)
      ensures acct.reserved == old(acct.reserved) - (n - Populated(old(Now()), base, n))
      ensures acct.available == old(acct.available) && acct.total == old(acct.total)
    {
      ghost var w := Now();
      var i := 0;
      while i < n
        invariant i <= n && Valid() && Filled(w, Now(), base, i, global) && MappedRange(Now(), base, n)
        invariant acct.reserved == old(acct.reserved) - (i - Populated(w, base, i))
        invariant acct.available == old(acct.available) && acct.total == old(acct.total)
      {
        ghost var w1 := Now();
        MissingMonotone(w, base, i + 1, n);
        assert At(w1, base + i) == At(w, base + i);
        PopulateOne(base + i, global);
        FilledOn(w, w1, Now(), base, i, n, global);
        i := i + 1;
      }
    }

    /** One round of the first loop of virt_free: all but the address bits is cleared. */
    method ClearOne(v: nat) returns (wasZero: bool)
      requires Valid() && Mapped(Now(), v) && !At(Now(), v).global
      modifies this`leaf, this`tables, this`free, this`used, acct
      ensures Valid() && wasZero == (At(old(Now()), v) == ZERO) && Stored(old(Now()), Now(), v, Address(At(old(Now()), v)))
      ensures Stock() == old(Stock()) && acct.reserved == old(acct.reserved) && acct.total == old(acct.total)
    {
      var pte := GetPte(v, false);
      var value := Value(leaf, pte.value);
      wasZero := value == ZERO;
      ghost var w := Now();
      Open();
      StoreOk(w, v, Address(value));
      StoredIs(w, v, Address(value));
      if value != ZERO {
        leaf := leaf[pte.value := Address(value)];
      }
      Fold();
      StoredSame(w, Now(), v, Address(value));
    }

    /** One round of the second loop of virt_free: the page goes back to the allocator. */
    method FreeOne(v: nat)
      requires Valid() && Mapped(Now(), v) && At(Now(), v) == Address(At(Now(), v))
      modifies this`leaf, this`tables, this`free, this`used, acct
      ensures Valid() && Stored(old(Now()), Now(), v, ZERO)
      ensures acct.available == old(acct.available) + (if At(old(Now()), v) == ZERO then 0 else 1)
      ensures acct.reserved == old(acct.reserved) && acct.total == old(acct.total)
    {
      var pte := GetPte(v, false);
      var value := Value(leaf, pte.value);
      if value != ZERO {
        ReturnPage(pte.value, v);
      } else {
        StoredNothing(Now(), v);
      }
    }

    /** phys_free of the page of a leaf entry, and the entry cleared. */
    method ReturnPage(slot: Slot, ghost v: nat)
      requires Valid() && Mapped(Now(), v) && slot == SlotOf(Now(), v) && slot in leaf && leaf[slot] != ZERO
      modifies this`leaf, this`free, this`used, acct
      ensures Valid() && Stored(old(Now()), Now(), v, ZERO)
      ensures acct.available == old(acct.available) + 1 && acct.reserved == old(acct.reserved) && acct.total == old(acct.total)
    {
      ghost var w := Now();
      Open();
      var page := leaf[slot].page;
      StoreOk(w, v, ZERO);
      PageIsUsed(used, page);
      free, used := free + {page}, used - {page};
      acct.Uncommit(1);
      leaf := leaf[slot := ZERO];
      Fold();
      StoredIs(w, v, ZERO);
    }

    /** virt_free: the leaf entries of the range are zero afterwards.  What was reserved and not used is available
        again, and so is every page, except physical page 0, which the second loop takes for an empty entry. */
    method Free(base: nat, n: nat)
      requires Valid() && MappedRange(Now(), base, n) && Settled(Now(), base, n) && n - Populated(Now(), base, n) <= acct.reserved
      modifies this`leaf, this`tables, this`free, this`used, acct
      ensures Valid() && Emptied(old(Now()), Now(), base, n) && acct.total == old(acct.total)
      ensures acct.reserved == old(acct.reserved) - (n - Populated(old(Now()), base, n))
      ensures acct.available == old(acct.available) + n - OnPageZero(old(Now()), base, n)
      // so all of it is available again exactly if no page of the range was on page 0
      ensures acct.available == old(acct.available) + n <==> forall v :: base <= v < base + n ==> !OnZero(old(At(Now(), v)))
    {
      ghost var w := Now();
      AllReturned(w, base, n);
      var early := ClearRange(base, n);
      UnreservePages(early);
      FreeRange(base, n, w);
    }

    /** The first loop of virt_free. */
    method ClearRange(base: nat, n: nat) returns (early: nat)
      requires Valid() && MappedRange(Now(), base, n) && Settled(Now(), base, n)
      modifies this`leaf, this`tables, this`free, this`used, acct
      ensures Valid() && Cleared(old(Now()), Now(), base, n) && MappedRange(Now(), base, n)
      ensures early == n - Populated(old(Now()), base, n)
      ensures Stock() == old(Stock()) && acct.reserved == old(acct.reserved) && acct.total == old(acct.total)
    {
      ghost var w := Now();
      early := 0;
      var i := 0;
      while i < n
        invariant i <= n && Valid() && Cleared(w, Now(), base, i) && MappedRange(Now(), base, n)
        invariant early == i - Populated(w, base, i)
        invariant Stock() == old(Stock()) && acct.reserved == old(acct.reserved) && acct.total == old(acct.total)
      {
        ghost var w1 := Now();
        assert At(w1, base + i) == At(w, base + i);
        var wasZero := ClearOne(base + i);
        if wasZero {
          early := early + 1;
        }
        ClearedOn(w, w1, Now(), base, i, n);
        i := i + 1;
      }
    }

    /** The second loop of virt_free; w is the address space before the first. */
    method FreeRange(base: nat, n: nat, ghost w: View)
      requires Valid() && Cleared(w, Now(), base, n) && MappedRange(Now(), base, n) && Settled(w, base, n)
      modifies this`leaf, this`tables, this`free, this`used, acct
      ensures Valid() && Emptied(w, Now(), base, n) && acct.total == old(acct.total) && acct.reserved == old(acct.reserved)
      ensures acct.available == old(acct.available) + Populated(w, base, n) - OnPageZero(w, base, n)
    {
      var i := 0;
      while i < n
        invariant i <= n && Valid() && Emptying(w, Now(), base, i, n) && MappedRange(Now(), base, n)
        invariant acct.available == old(acct.available) + Populated(w, base, i) - OnPageZero(w, base, i)
        invariant acct.total == old(acct.total) && acct.reserved == old(acct.reserved)
      {
        ghost var w1 := Now();
        assert At(w1, base + i) == Address(At(w, base + i));
        FreeOne(base + i);
        EmptyingOn(w, w1, Now(), base, i, n);
        i := i + 1;
      }
    }

    lemma NothingOnPageZero(base: nat, n: nat)
      requires Valid() && noPageZero
      ensures OnPageZero(Now(), base, n) == 0
    {
      Open();
      AllReturned(Now(), base, n);
    }

    /** A page fault inside the mapping [base, base + n), of whose reserved pages `others` belong to others:
        the mapping goes on holding a reserved page for every page that is not present. */
    method Fault(v: nat, ghost base: nat, ghost n: nat, global: bool, ghost others: nat)
      requires Valid() && MappedRange(Now(), base, n) && base <= v < base + n
      requires acct.reserved == others + n - Populated(Now(), base, n)
      modifies this`leaf, this`tables, this`free, this`used, acct
      ensures Valid() && Filled(old(Now()), Now(), v, 1, global) && MappedRange(Now(), base, n)
      ensures acct.reserved == others + n - Populated(Now(), base, n)
      ensures acct.available == old(acct.available) && acct.total == old(acct.total)
    {
      ghost var w := Now();
      MissingInside(w, base, n, v, 1);
      assert MappedRange(w, v, 1);
      Populate(v, 1, global);
      FilledCount(w, Now(), base, n, v, 1, global);
      SameTables(w, Now(), base, n);
    }

    /** The life of a mapping: reserve, any page faults, free.  Whatever faults there were, the counters are
        as before, but for the pages of new interior tables. */
    method MapFaultUnmap(base: nat, n: nat, faults: seq<nat>) returns (ok: bool)
      requires Valid() && noPageZero && (forall v :: base <= v < base + n ==> High(v, levels) == 0)
      requires (forall f :: f in faults ==> f < n) && forall v :: base <= v < base + n ==> At(Now(), v) == ZERO
      modifies this`leaf, this`tables, this`free, this`used, acct
      ensures Valid() && acct.reserved == old(acct.reserved) && acct.total == old(acct.total)
      ensures acct.available + |tables| == old(acct.available) + |old(tables)|
      ensures forall v: nat :: At(Now(), v) == At(old(Now()), v)
    {
      ghost var w := Now();
      ok := ReservePageTables(base, n);
      assert GrownAt(0, w, Now());
      if !ok {
        return;
      }
      ghost var w1 := Now();
      NonePopulated(w1, base, n);
      FaultMany(base, n, faults, old(acct.reserved));
      NothingOnPageZero(base, n);
      Free(base, n);
    }

    method FaultMany(base: nat, n: nat, faults: seq<nat>, ghost others: nat)
      requires Valid() && MappedRange(Now(), base, n) && Settled(Now(), base, n) && forall f :: f in faults ==> f < n
      requires acct.reserved == others + n - Populated(Now(), base, n)
      modifies this`leaf, this`tables, this`free, this`used, acct
      ensures Valid() && MappedRange(Now(), base, n) && Settled(Now(), base, n) && SameShape(old(Now()), Now())
      ensures acct.reserved == others + n - Populated(Now(), base, n)
      ensures acct.available == old(acct.available) && acct.total == old(acct.total)
      ensures forall v: nat :: !(base <= v < base + n) ==> At(Now(), v) == At(old(Now()), v)
    {
      var i := 0;
      while i < |faults|
        invariant i <= |faults| && Valid() && MappedRange(Now(), base, n) && Settled(Now(), base, n) && SameShape(old(Now()), Now())
        invariant acct.reserved == others + n - Populated(Now(), base, n)
        invariant acct.available == old(acct.available) && acct.total == old(acct.total)
        invariant forall v: nat :: !(base <= v < base + n) ==> At(Now(), v) == At(old(Now()), v)
      {
        assert faults[i] in faults;
        Fault(base + faults[i], base, n, false, others);
        i := i + 1;
      }
    }
  }

  lemma {:induction false} NonePopulated(w: View, base: nat, n: nat)
    requires forall v :: base <= v < base + n ==> At(w, v) == ZERO
    ensures Populated(w, base, n) == 0
  {
    if n > 0 {
      NonePopulated(w, base, n - 1);
    }
  }

  lemma {:induction false} AllPopulated(w: View, base: nat, n: nat)
    requires forall v :: base <= v < base + n ==> At(w, v).present
    ensures Populated(w, base, n) == n
  {
    if n > 0 {
      AllPopulated(w, base, n - 1);
    }
  }

  /** Filling a part of the range fills what was missing in it. */
  lemma FilledCount(w: View, w': View, base: nat, n: nat, a: nat, m: nat, global: bool)
    requires Filled(w, w', a, m, global) && base <= a && a + m <= base + n
    ensures Populated(w', base, n) == Populated(w, base, n) + m - Populated(w, a, m)
  {
    var k, l := a - base, base + n - a - m;
    Thirds(w, w', base, k, m, l, n);
    FilledApart(w, w', a, m, global, base, k);
    FilledApart(w, w', a, m, global, a + m, l);
    FilledInside(w, w', a, m, global);
  }

  lemma FilledApart(w: View, w': View, a: nat, m: nat, global: bool, b: nat, k: nat)
    requires Filled(w, w', a, m, global) && (b + k <= a || a + m <= b)
    ensures Populated(w', b, k) == Populated(w, b, k)
  {
    assert SameOn(w, w', b, k);
    PopulatedSame(w, w', b, k);
  }

  lemma FilledInside(w: View, w': View, a: nat, m: nat, global: bool)
    requires Filled(w, w', a, m, global)
    ensures Populated(w', a, m) == m
  {
    AllPopulated(w', a, m);
  }

  lemma Thirds(w: View, w': View, base: nat, k: nat, m: nat, l: nat, n: nat)
    requires n == k + m + l
    ensures Populated(w', base, n) - Populated(w, base, n) == (Populated(w', base, k) - Populated(w, base, k))
              + (Populated(w', base + k, m) - Populated(w, base + k, m)) + (Populated(w', base + k + m, l) - Populated(w, base + k + m, l))
  {
    PopulatedSplit(w, base, k, m + l);
    PopulatedSplit(w, base + k, m, l);
    PopulatedSplit(w', base, k, m + l);
    PopulatedSplit(w', base + k, m, l);
  }

  lemma MissingInside(w: View, base: nat, n: nat, a: nat, m: nat)
    requires base <= a && a + m <= base + n
    ensures m - Populated(w, a, m) <= n - Populated(w, base, n)
  {
    PopulatedSplit(w, base, a - base, base + n - a);
    PopulatedSplit(w, a, m, base + n - a - m);
  }

  /** Why page 0 must not be in the allocator: the address space of one page, which is reserved, backed by page 0 and
      freed.  No page is available or reserved afterwards, though the entry is zero. */
  method PageZeroIsLost() returns (a: AddressSpace, ghost before: View)
    ensures a.Valid() && Emptied(before, a.Now(), 0, 1) && At(before, 0) == Entry(0, true, false)
    ensures a.acct.total == 1 && a.acct.available == a.acct.reserved == 0 && forall v: nat :: At(a.Now(), v) == ZERO
  {
    var acct := new PageCounters();
    acct.AddTotal(1);
    a := new AddressSpace(1, 1, acct, {0});
    assert High(0, 1) == High(0, 0) / ENTRIES;
    assert Mapped(a.Now(), 0) by { assert Reach(map[], 1, 1, 0, 0) == Some(1); }
    var ok := a.ReservePages(1);
    ghost var w := a.Now();
    assert forall v: nat :: At(w, v) == ZERO;
    var pte := a.GetPte(0, false);
    GrownMapped(w, a.Now(), 0);
    assert GrownAt(0, w, a.Now());
    var page := a.AllocReservedPage();
    a.StorePresent(pte.value, page, false, 0);
    before := a.Now();
    assert Populated(before, 0, 0) == 0 && Populated(before, 0, 1) == 1;
    a.Free(0, 1);
  }

  /** The address bits of an entry. */
  function Address(e: Entry): Entry {
    Entry(e.page, false, false)
  }

  /** The entries of the range are zero or present, and none is pinned. */
  ghost predicate Settled(w: View, base: nat, n: nat) {
    forall v :: base <= v < base + n ==> (At(w, v) == ZERO || At(w, v).present) && !At(w, v).global
  }

  ghost predicate SameShape(w: View, w': View) {
    w'.tables == w.tables && w'.root == w.root && w'.levels == w.levels
  }

  ghost predicate Cleared(w: View, w': View, base: nat, n: nat) {
    SameShape(w, w') && forall v: nat :: At(w', v) == (if base <= v < base + n then Address(At(w, v)) else At(w, v))
  }

  ghost predicate Emptying(w: View, w': View, base: nat, i: nat, n: nat) {
    && SameShape(w, w')
    && forall v: nat :: At(w', v) == (if base <= v < base + i then ZERO else if base <= v < base + n then Address(At(w, v)) else At(w, v))
  }

  /** The entries of the range are zero and no other changed. */
  ghost predicate Emptied(w: View, w': View, base: nat, n: nat) {
    SameShape(w, w') && forall v: nat :: At(w', v) == (if base <= v < base + n then ZERO else At(w, v))
  }

  lemma ClearedOn(w: View, w1: View, w2: View, base: nat, i: nat, n: nat)
    requires Cleared(w, w1, base, i) && Stored(w1, w2, base + i, Address(At(w1, base + i))) && MappedRange(w1, base, n)
    ensures Cleared(w, w2, base, i + 1) && MappedRange(w2, base, n)
  {
    SameTables(w1, w2, base, n);
  }

  lemma EmptyingOn(w: View, w1: View, w2: View, base: nat, i: nat, n: nat)
    requires Emptying(w, w1, base, i, n) && Stored(w1, w2, base + i, ZERO) && MappedRange(w1, base, n)
    ensures Emptying(w, w2, base, i + 1, n) && MappedRange(w2, base, n)
  {
    SameTables(w1, w2, base, n);
  }

  lemma StoredSame(w: View, w': View, v: nat, e: Entry)
    requires Mapped(w, v) && Stored(w, w.(leaf := w.leaf[SlotOf(w, v) := e]), v, e)
    requires w' == w.(leaf := w.leaf[SlotOf(w, v) := e]) || (w' == w && At(w, v) == e)
    ensures Stored(w, w', v, e)
  {
  }

  lemma StoredNothing(w: View, v: nat)
    requires At(w, v) == ZERO
    ensures Stored(w, w, v, ZERO)
  {
  }

  lemma PageIsUsed(used: set<nat>, page: nat)
    requires page in used
    ensures |used| > 0 && |used - {page}| == |used| - 1
  {
  }

  /** Everything comes back exactly if no page of the range is backed by physical page 0. */
  lemma {:induction false} AllReturned(w: View, base: nat, n: nat)
    ensures OnPageZero(w, base, n) == 0 <==> forall v :: base <= v < base + n ==> !OnZero(At(w, v))
  {
    if n > 0 {
      AllReturned(w, base, n - 1);
    }
  }

  /** Only the entry of page v differs, it is e. */
  ghost predicate Stored(w: View, w': View, v: nat, e: Entry) {
    && w'.tables == w.tables && w'.root == w.root && w'.levels == w.levels
    && forall u: nat :: At(w', u) == (if u == v then e else At(w, u))
  }

  lemma StoredIs(w: View, v: nat, e: Entry)
    requires ViewOk(w) && Mapped(w, v)
    ensures Stored(w, w.(leaf := w.leaf[SlotOf(w, v) := e]), v, e)
  {
    forall u: nat
      ensures At(w.(leaf := w.leaf[SlotOf(w, v) := e]), u) == (if u == v then e else At(w, u))
    {
      StoreOne(w, v, e, u);
    }
  }

  lemma MissingMonotone(w: View, base: nat, m: nat, n: nat)
    requires m <= n
    ensures m - Populated(w, base, m) <= n - Populated(w, base, n)
  {
    PopulatedSplit(w, base, m, n - m);
  }

  /** All pages of the range are present: those that were not are new. */
  ghost predicate Filled(w: View, w': View, base: nat, n: nat, global: bool) {
    && w'.tables == w.tables && w'.root == w.root && w'.levels == w.levels
    && forall v: nat :: if base <= v < base + n && !At(w, v).present then At(w', v) == Entry(At(w', v).page, true, global)
                        else At(w', v) == At(w, v)
  }

  /** The entry of page v is present, and new if it was not. */
  ghost predicate Backed(w: View, w': View, v: nat, global: bool) {
    if At(w, v).present then w' == w else exists page: nat :: Stored(w, w', v, Entry(page, true, global))
  }

  lemma FilledOn(w: View, w1: View, w2: View, base: nat, i: nat, n: nat, global: bool)
    requires Filled(w, w1, base, i, global) && Backed(w1, w2, base + i, global) && MappedRange(w1, base, n)
    ensures Filled(w, w2, base, i + 1, global) && MappedRange(w2, base, n)
  {
    SameTables(w1, w2, base, n);
  }

  lemma SameTables(w: View, w': View, base: nat, n: nat)
    requires w'.tables == w.tables && w'.root == w.root && w'.levels == w.levels && MappedRange(w, base, n)
    ensures MappedRange(w', base, n)
  {
    forall v | base <= v < base + n
      ensures Mapped(w', v)
    {
      assert Mapped(w, v);
    }
  }

  lemma RangeGrows(a: View, b: View, base: nat, i: nat)
    requires Grown(a, b) && MappedRange(a, base, i) && Mapped(b, base + i)
    ensures MappedRange(b, base, i + 1)
  {
    forall v | base <= v < base + i
      ensures Mapped(b, v)
    {
      GrownMapped(a, b, v);
    }
  }

  lemma WholeWay(tables: Tables, root: nat, levels: nat, v: nat, i: nat)
    requires i < levels && Reach(tables, root, levels, v, 0).Some?
    ensures Reach(tables, root, levels, v, i).Some?
  {
    if Reach(tables, root, levels, v, i).None? {
      NoGap(tables, root, levels, v, i, 0);
    }
  }

  /** If the way ends at level i it is not there below either. */
  lemma {:induction false} NoGap(tables: Tables, root: nat, levels: nat, v: nat, i: nat, j: nat)
    requires j <= i < levels && Reach(tables, root, levels, v, i).None?
    ensures Reach(tables, root, levels, v, j).None?
    decreases i - j
  {
    if j < i {
      NoGap(tables, root, levels, v, i, j + 1);
    }
  }
}
