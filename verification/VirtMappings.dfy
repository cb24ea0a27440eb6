/** Several mappings in one address space (src/mem/virt.c with src/mem/vmar.c): runs of mapping, page faults,
    populating and unmapping. */
module VirtMappings {
  import opened PageTable
  import opened Counters
  import opened VirtMemory

  datatype Mapping = Mapping(base: nat, pages: nat)

  /** A call.  Mappings are named by their place in the list of those that are there; a call on one that is not
      there does nothing. */
  datatype Command =
    | Map(base: nat, pages: nat)       // vmar_map: virt_reserve_page_tables
    | Fault(target: nat, page: nat)    // a page fault in it
    | Populate(target: nat)            // vmar_populate
    | Unmap(target: nat)               // vmar_unmap: virt_free

  predicate Apart(m: Mapping, base: nat, pages: nat) {
    m.base + m.pages <= base || base + pages <= m.base
  }

  ghost predicate AllApart(ms: seq<Mapping>) {
    forall i, j :: 0 <= i < j < |ms| ==> Apart(ms[i], ms[j].base, ms[j].pages)
  }

  predicate In(ms: seq<Mapping>, v: nat) {
    exists i :: 0 <= i < |ms| && ms[i].base <= v < ms[i].base + ms[i].pages
  }

  /** How many pages of the mapping have no entry yet. */
  ghost function MissingIn(w: View, m: Mapping): nat {
    m.pages - Populated(w, m.base, m.pages)
  }

  /** The same for all of them. */
  ghost function Missing(w: View, ms: seq<Mapping>): nat {
    if ms == [] then 0 else Missing(w, ms[..|ms| - 1]) + MissingIn(w, ms[|ms| - 1])
  }

  function Pages(ms: seq<Mapping>): nat {
    if ms == [] then 0 else Pages(ms[..|ms| - 1]) + ms[|ms| - 1].pages
  }

  ghost predicate MappingOk(w: View, m: Mapping) {
    MappedRange(w, m.base, m.pages) && Settled(w, m.base, m.pages)
  }

  /** Mappings have tables and entries that are zero or present; no other entry is there. */
  ghost predicate Parts(w: View, ms: seq<Mapping>) {
    && AllApart(ms) && (forall i :: 0 <= i < |ms| ==> MappingOk(w, ms[i]))
    && forall v: nat :: At(w, v) != ZERO ==> In(ms, v)
  }

  // ----- the sum over the mappings -----

  lemma {:induction false} MissingSame(w: View, w': View, ms: seq<Mapping>)
    requires forall i :: 0 <= i < |ms| ==> SameOn(w, w', ms[i].base, ms[i].pages)
    ensures Missing(w', ms) == Missing(w, ms)
  {
    if ms != [] {
      var m := ms[|ms| - 1];
      assert forall i :: 0 <= i < |ms| - 1 ==> ms[..|ms| - 1][i] == ms[i];
      MissingSame(w, w', ms[..|ms| - 1]);
      PopulatedSame(w, w', m.base, m.pages);
    }
  }

  function Drop(ms: seq<Mapping>, j: nat): seq<Mapping>
    requires j < |ms|
  {
    ms[..j] + ms[j + 1..]
  }

  /** The sum without one mapping. */
  lemma {:induction false} MissingDrop(w: View, ms: seq<Mapping>, j: nat)
    requires j < |ms|
    ensures Missing(w, ms) == Missing(w, Drop(ms, j)) + MissingIn(w, ms[j]) && Pages(ms) == Pages(Drop(ms, j)) + ms[j].pages
  {
    var n := |ms| - 1;
    if j < n {
      MissingDrop(w, ms[..n], j);
      assert Drop(ms, j)[..n - 1] == Drop(ms[..n], j) && Drop(ms, j)[n - 1] == ms[n];
    } else {
      assert Drop(ms, j) == ms[..n];
    }
  }

  lemma MissingMore(w: View, ms: seq<Mapping>, m: Mapping)
    ensures Missing(w, ms + [m]) == Missing(w, ms) + MissingIn(w, m) && Pages(ms + [m]) == Pages(ms) + m.pages
  {
    assert (ms + [m])[..|ms|] == ms;
  }

  /** A mapping is not touched by what happens in the range of another. */
  lemma OthersSame(w: View, w': View, ms: seq<Mapping>, j: nat)
    requires AllApart(ms) && j < |ms|
    requires forall v: nat :: !(ms[j].base <= v < ms[j].base + ms[j].pages) ==> At(w', v) == At(w, v)
    ensures Missing(w', Drop(ms, j)) == Missing(w, Drop(ms, j))
    ensures forall i :: 0 <= i < |ms| && i != j ==> SameOn(w, w', ms[i].base, ms[i].pages)
  {
    forall i | 0 <= i < |ms| && i != j
      ensures SameOn(w, w', ms[i].base, ms[i].pages)
    {
      var a, b := if i < j then i else j, if i < j then j else i;
      assert Apart(ms[a], ms[b].base, ms[b].pages);
    }
    var ds := Drop(ms, j);
    forall i | 0 <= i < |ds|
      ensures SameOn(w, w', ds[i].base, ds[i].pages)
    {
      assert ds[i] == ms[if i < j then i else i + 1];
    }
    MissingSame(w, w', ds);
  }

  // ----- the calls -----

  /** The pages in reserve are those that the mappings still miss, and pages only go to mappings and to tables. */
  ghost predicate KeptParts(w: View, ms: seq<Mapping>, available: nat, reserved: nat, all: nat, noPageZero: bool) {
    Parts(w, ms) && reserved == Missing(w, ms) && (noPageZero ==> available + |w.tables| + Pages(ms) == all)
  }

  ghost predicate KeptAt(k: int, w: View, ms: seq<Mapping>, available: nat, reserved: nat, all: nat, noPageZero: bool) {
    k == 0 ==> KeptParts(w, ms, available, reserved, all, noPageZero)
  }

  /** The same, closed to proofs that only pass it on. */
  ghost predicate Kept(w: View, ms: seq<Mapping>, available: nat, reserved: nat, all: nat, noPageZero: bool) {
    forall k :: KeptAt(k, w, ms, available, reserved, all, noPageZero)
  }

  lemma Open(w: View, ms: seq<Mapping>, available: nat, reserved: nat, all: nat, noPageZero: bool)
    requires Kept(w, ms, available, reserved, all, noPageZero)
    ensures KeptParts(w, ms, available, reserved, all, noPageZero)
  {
    assert KeptAt(0, w, ms, available, reserved, all, noPageZero);
  }

  /** What every call keeps. */
  ghost predicate Keeping(a: AddressSpace, ms: seq<Mapping>, all: nat)
    reads a, a.acct
  {
    a.Valid() && Kept(a.Now(), ms, a.acct.available, a.acct.reserved, all, a.noPageZero)
  }

  lemma GrownParts(w: View, w': View, ms: seq<Mapping>)
    requires Parts(w, ms) && Grown(w, w')
    ensures Parts(w', ms) && Missing(w', ms) == Missing(w, ms)
  {
    assert GrownAt(0, w, w');
    forall i | 0 <= i < |ms|
      ensures MappingOk(w', ms[i]) && SameOn(w, w', ms[i].base, ms[i].pages)
    {
      assert MappingOk(w, ms[i]);
      forall v | ms[i].base <= v < ms[i].base + ms[i].pages
        ensures Mapped(w', v)
      {
        GrownMapped(w, w', v);
      }
    }
    MissingSame(w, w', ms);
  }

  lemma NewParts(w: View, ms: seq<Mapping>, m: Mapping)
    requires Parts(w, ms) && MappedRange(w, m.base, m.pages) && forall i :: 0 <= i < |ms| ==> Apart(ms[i], m.base, m.pages)
    ensures Parts(w, ms + [m]) && Missing(w, ms + [m]) == Missing(w, ms) + m.pages && Pages(ms + [m]) == Pages(ms) + m.pages
  {
    forall v | m.base <= v < m.base + m.pages
      ensures At(w, v) == ZERO
    {
      assert !In(ms, v);
    }
    NonePopulated(w, m.base, m.pages);
    MissingMore(w, ms, m);
    forall v: nat | At(w, v) != ZERO
      ensures In(ms + [m], v)
    {
      var i :| 0 <= i < |ms| && ms[i].base <= v < ms[i].base + ms[i].pages;
      assert (ms + [m])[i] == ms[i];
    }
  }

  lemma MapKept(w: View, w': View, ms: seq<Mapping>, m: Mapping, ok: bool, available: nat, reserved: nat,
                available': nat, reserved': nat, all: nat, noPageZero: bool)
    requires Kept(w, ms, available, reserved, all, noPageZero) && Grown(w, w')
    requires ok ==> MappedRange(w', m.base, m.pages) && forall i :: 0 <= i < |ms| ==> Apart(ms[i], m.base, m.pages)
    requires reserved' == reserved + (if ok then m.pages else 0)
    requires available' + reserved' + |w'.tables| == available + reserved + |w.tables|
    ensures Kept(w', if ok then ms + [m] else ms, available', reserved', all, noPageZero)
  {
    Open(w, ms, available, reserved, all, noPageZero);
    GrownParts(w, w', ms);
    if ok {
      NewParts(w', ms, m);
    }
    assert KeptParts(w', if ok then ms + [m] else ms, available', reserved', all, noPageZero);
  }

  /** vmar_map, for a range that the address space has free. */
  method DoMap(a: AddressSpace, ms: seq<Mapping>, base: nat, pages: nat, ghost all: nat) returns (ok: bool, ms': seq<Mapping>)
    requires Keeping(a, ms, all) && (forall v :: base <= v < base + pages ==> High(v, a.levels) == 0)
    requires forall i :: 0 <= i < |ms| ==> Apart(ms[i], base, pages)
    modifies a`tables, a`free, a`used, a.acct
    ensures Keeping(a, ms', all) && ms' == if ok then ms + [Mapping(base, pages)] else ms
    ensures Grown(old(a.Now()), a.Now()) && (!ok ==> old(a.acct.available) < pages || a.acct.available == pages)
  {
    ghost var w, available, reserved := a.Now(), a.acct.available, a.acct.reserved;
    ok := a.ReservePageTables(base, pages);
    ms' := if ok then ms + [Mapping(base, pages)] else ms;
    MapKept(w, a.Now(), ms, Mapping(base, pages), ok, available, reserved, a.acct.available, a.acct.reserved, all, a.noPageZero);
  }

  /** The entries of mapping j were filled in part. */
  lemma FilledParts(w: View, w': View, ms: seq<Mapping>, j: nat, from: nat, n: nat)
    requires Parts(w, ms) && j < |ms| && Filled(w, w', from, n, false) && ms[j].base <= from && from + n <= ms[j].base + ms[j].pages
    ensures Parts(w', ms) && Missing(w', ms) == Missing(w, ms) - (n - Populated(w, from, n))
  {
    FilledMissing(w, w', ms, j, from, n);
    forall i | 0 <= i < |ms|
      ensures MappingOk(w', ms[i])
    {
      assert MappingOk(w, ms[i]);
      FilledOk(w, w', ms[i], from, n);
    }
    forall v: nat | At(w', v) != ZERO
      ensures In(ms, v)
    {
      assert At(w, v) == ZERO ==> ms[j].base <= v < ms[j].base + ms[j].pages;
    }
  }

  lemma FilledOk(w: View, w': View, m: Mapping, from: nat, n: nat)
    requires MappingOk(w, m) && Filled(w, w', from, n, false)
    ensures MappingOk(w', m)
  {
    SameTables(w, w', m.base, m.pages);
  }

  lemma FilledMissing(w: View, w': View, ms: seq<Mapping>, j: nat, from: nat, n: nat)
    requires AllApart(ms) && j < |ms| && Filled(w, w', from, n, false) && ms[j].base <= from && from + n <= ms[j].base + ms[j].pages
    ensures Missing(w', ms) == Missing(w, ms) - (n - Populated(w, from, n))
  {
    OthersSame(w, w', ms, j);
    FilledCount(w, w', ms[j].base, ms[j].pages, from, n, false);
    MissingDrop(w, ms, j);
    MissingDrop(w', ms, j);
  }

  lemma FillKept(w: View, w': View, ms: seq<Mapping>, j: nat, from: nat, n: nat, available: nat, reserved: nat, all: nat, noPageZero: bool)
    requires Kept(w, ms, available, reserved, all, noPageZero) && n - Populated(w, from, n) <= reserved
    requires j < |ms| && Filled(w, w', from, n, false) && ms[j].base <= from && from + n <= ms[j].base + ms[j].pages
    ensures Kept(w', ms, available, reserved - (n - Populated(w, from, n)), all, noPageZero)
  {
    Open(w, ms, available, reserved, all, noPageZero);
    FilledParts(w, w', ms, j, from, n);
    assert KeptParts(w', ms, available, reserved - (n - Populated(w, from, n)), all, noPageZero);
  }

  /** A mapping can be populated, in part or whole, and freed. */
  lemma MappingFacts(w: View, ms: seq<Mapping>, j: nat, from: nat, n: nat, available: nat, reserved: nat, all: nat, noPageZero: bool)
    requires Kept(w, ms, available, reserved, all, noPageZero)
    requires j < |ms| && ms[j].base <= from && from + n <= ms[j].base + ms[j].pages
    ensures MappingOk(w, ms[j]) && MappedRange(w, from, n)
    ensures n - Populated(w, from, n) <= MissingIn(w, ms[j]) <= reserved
  {
    Open(w, ms, available, reserved, all, noPageZero);
    assert MappingOk(w, ms[j]);
    MissingDrop(w, ms, j);
    MissingInside(w, ms[j].base, ms[j].pages, from, n);
  }

  /** virt_populate on a part of mapping j: a page fault, or all of it. */
  method DoPopulate(a: AddressSpace, ms: seq<Mapping>, j: nat, from: nat, n: nat, ghost all: nat)
    requires Keeping(a, ms, all) && j < |ms| && ms[j].base <= from && from + n <= ms[j].base + ms[j].pages
    modifies a`leaf, a`tables, a`free, a`used, a.acct
    ensures Keeping(a, ms, all) && a.acct.available == old(a.acct.available) && Filled(old(a.Now()), a.Now(), from, n, false)
  {
    ghost var w, available, reserved := a.Now(), a.acct.available, a.acct.reserved;
    MappingFacts(w, ms, j, from, n, available, reserved, all, a.noPageZero);
    a.Populate(from, n, false);
    FillKept(w, a.Now(), ms, j, from, n, available, reserved, all, a.noPageZero);
  }

  lemma OtherOk(w: View, w': View, m: Mapping)
    requires MappingOk(w, m) && SameShape(w, w') && SameOn(w, w', m.base, m.pages)
    ensures MappingOk(w', m)
  {
    SameTables(w, w', m.base, m.pages);
  }

  lemma DropApart(ms: seq<Mapping>, j: nat)
    requires AllApart(ms) && j < |ms|
    ensures AllApart(Drop(ms, j))
  {
    var ds := Drop(ms, j);
    assert forall i :: 0 <= i < |ds| ==> ds[i] == ms[if i < j then i else i + 1];
  }

  lemma EmptiedIn(w: View, w': View, ms: seq<Mapping>, j: nat, v: nat)
    requires (At(w, v) != ZERO ==> In(ms, v)) && j < |ms| && Emptied(w, w', ms[j].base, ms[j].pages) && At(w', v) != ZERO
    ensures In(Drop(ms, j), v)
  {
    var i :| 0 <= i < |ms| && ms[i].base <= v < ms[i].base + ms[i].pages;
    assert i != j;
    assert Drop(ms, j)[if i < j then i else i - 1] == ms[i];
  }

  lemma EmptiedParts(w: View, w': View, ms: seq<Mapping>, j: nat)
    requires Parts(w, ms) && j < |ms| && Emptied(w, w', ms[j].base, ms[j].pages)
    ensures Parts(w', Drop(ms, j)) && Missing(w', Drop(ms, j)) == Missing(w, ms) - MissingIn(w, ms[j])
    ensures Pages(ms) == Pages(Drop(ms, j)) + ms[j].pages
  {
    var ds := Drop(ms, j);
    OthersSame(w, w', ms, j);
    MissingDrop(w, ms, j);
    DropApart(ms, j);
    forall i | 0 <= i < |ds|
      ensures MappingOk(w', ds[i])
    {
      var k := if i < j then i else i + 1;
      assert ds[i] == ms[k] && MappingOk(w, ms[k]);
      OtherOk(w, w', ms[k]);
    }
    forall v: nat | At(w', v) != ZERO
      ensures In(ds, v)
    {
      EmptiedIn(w, w', ms, j, v);
    }
  }

  lemma EmptyKept(w: View, w': View, ms: seq<Mapping>, j: nat, available: nat, reserved: nat, available': nat, all: nat, noPageZero: bool)
    requires Kept(w, ms, available, reserved, all, noPageZero) && j < |ms| && Emptied(w, w', ms[j].base, ms[j].pages)
    requires MissingIn(w, ms[j]) <= reserved && (noPageZero ==> available' == available + ms[j].pages)
    ensures Kept(w', Drop(ms, j), available', reserved - MissingIn(w, ms[j]), all, noPageZero)
  {
    Open(w, ms, available, reserved, all, noPageZero);
    EmptiedParts(w, w', ms, j);
    assert KeptParts(w', Drop(ms, j), available', reserved - MissingIn(w, ms[j]), all, noPageZero);
  }

  /** vmar_unmap of mapping j. */
  method DoUnmap(a: AddressSpace, ms: seq<Mapping>, j: nat, ghost all: nat) returns (ms': seq<Mapping>)
    requires Keeping(a, ms, all) && j < |ms|
    modifies a`leaf, a`tables, a`free, a`used, a.acct
    ensures Keeping(a, ms', all) && ms' == Drop(ms, j) && Emptied(old(a.Now()), a.Now(), ms[j].base, ms[j].pages)
    ensures a.noPageZero ==> a.acct.available == old(a.acct.available) + ms[j].pages
  {
    ghost var w, available, reserved := a.Now(), a.acct.available, a.acct.reserved;
    MappingFacts(w, ms, j, ms[j].base, ms[j].pages, available, reserved, all, a.noPageZero);
    if a.noPageZero {
      a.NothingOnPageZero(ms[j].base, ms[j].pages);
    }
    a.Free(ms[j].base, ms[j].pages);
    EmptyKept(w, a.Now(), ms, j, available, reserved, a.acct.available, all, a.noPageZero);
    ms' := Drop(ms, j);
  }

  // ----- runs -----

  /** The range is not empty, in the address space, and free: what the regions see to. */
  predicate CanMap(ms: seq<Mapping>, levels: nat, base: nat, pages: nat) {
    pages > 0 && High(base + pages - 1, levels) == 0 && forall i :: 0 <= i < |ms| ==> Apart(ms[i], base, pages)
  }

  lemma {:induction false} HighMonotone(v: nat, w: nat, i: nat)
    requires v <= w
    ensures High(v, i) <= High(w, i)
  {
    if i > 0 {
      HighMonotone(v, w, i - 1);
    }
  }

  /** The mappings, the leaf entries and the available pages. */
  datatype State = State(ms: seq<Mapping>, w: View, available: nat)

  ghost predicate Filling(s: State, s': State, m: Mapping, from: nat, n: nat) {
    && s'.ms == s.ms && s'.available == s.available
    && m.base <= from && from + n <= m.base + m.pages && Filled(s.w, s'.w, from, n, false)
  }

  /** What a call does.  Mapping fails only for want of memory, for the pages or for the tables. */
  ghost predicate Does(c: Command, s: State, s': State, noPageZero: bool) {
    match c
    case Map(base, pages) =>
      && Grown(s.w, s'.w)
      && if s'.ms == s.ms then !CanMap(s.ms, s.w.levels, base, pages) || s.available < pages || s'.available == pages
         else CanMap(s.ms, s.w.levels, base, pages) && s'.ms == s.ms + [Mapping(base, pages)]
    case Fault(target, page) =>
      if target < |s.ms| && page < s.ms[target].pages then Filling(s, s', s.ms[target], s.ms[target].base + page, 1) else s' == s
    case Populate(target) =>
      if target < |s.ms| then Filling(s, s', s.ms[target], s.ms[target].base, s.ms[target].pages) else s' == s
    case Unmap(target) =>
      if target < |s.ms| then
        && s'.ms == Drop(s.ms, target) && Emptied(s.w, s'.w, s.ms[target].base, s.ms[target].pages)
        && (noPageZero ==> s'.available == s.available + s.ms[target].pages)
      else s' == s
  }

  ghost function StateOf(a: AddressSpace, ms: seq<Mapping>): State
    reads a, a.acct
  {
    State(ms, a.Now(), a.acct.available)
  }

  method MapIfFree(a: AddressSpace, ms: seq<Mapping>, base: nat, pages: nat, ghost all: nat) returns (ms': seq<Mapping>)
    requires Keeping(a, ms, all)
    modifies a`tables, a`free, a`used, a.acct
    ensures Keeping(a, ms', all) && Does(Map(base, pages), old(StateOf(a, ms)), StateOf(a, ms'), a.noPageZero)
  {
    GrownSame(a.Now());
    ms' := ms;
    if CanMap(ms, a.levels, base, pages) {
      forall v | base <= v < base + pages
        ensures High(v, a.levels) == 0
      {
        HighMonotone(v, base + pages - 1, a.levels);
      }
      var ok;
      ok, ms' := DoMap(a, ms, base, pages, all);
    }
  }

  method Step(a: AddressSpace, ms: seq<Mapping>, c: Command, ghost all: nat) returns (ms': seq<Mapping>)
    requires Keeping(a, ms, all)
    modifies a`leaf, a`tables, a`free, a`used, a.acct
    ensures Keeping(a, ms', all) && Does(c, old(StateOf(a, ms)), StateOf(a, ms'), a.noPageZero)
  {
    ms' := ms;
    match c
    case Map(base, pages) => ms' := MapIfFree(a, ms, base, pages, all);
    case Fault(target, page) =>
      if target < |ms| && page < ms[target].pages {
        DoPopulate(a, ms, target, ms[target].base + page, 1, all);
      }
    case Populate(target) =>
      if target < |ms| {
        DoPopulate(a, ms, target, ms[target].base, ms[target].pages, all);
      }
    case Unmap(target) =>
      if target < |ms| {
        ms' := DoUnmap(a, ms, target, all);
      }
  }

  ghost predicate IsRun(commands: seq<Command>, trace: seq<State>, noPageZero: bool) {
    && |trace| == |commands| + 1 && trace[0].ms == []
    && forall i :: 0 <= i < |commands| ==> Does(commands[i], trace[i], trace[i + 1], noPageZero)
  }

  /** Any run, from an address space without mappings: at the end the reserved pages are the sum over the mappings of
      the pages they still miss, and if page 0 is not in the allocator, every page that was available is so still, or
      belongs to a mapping or to a table. */
  method Run(a: AddressSpace, commands: seq<Command>) returns (ms: seq<Mapping>, ghost trace: seq<State>)
    requires a.Valid() && a.acct.reserved == 0 && forall v: nat :: At(a.Now(), v) == ZERO
    modifies a`leaf, a`tables, a`free, a`used, a.acct
    ensures IsRun(commands, trace, a.noPageZero) && trace[|commands|] == StateOf(a, ms)
    ensures a.Valid() && Parts(a.Now(), ms) && a.acct.reserved == Missing(a.Now(), ms)
    ensures a.noPageZero ==> a.acct.available + |a.tables| + Pages(ms) == old(a.acct.available) + |old(a.tables)|
  {
    ms := [];
    trace := [StateOf(a, ms)];
    ghost var all := a.acct.available + |a.tables|;
    assert KeptParts(a.Now(), ms, a.acct.available, a.acct.reserved, all, a.noPageZero);
    for i := 0 to |commands|
      invariant Keeping(a, ms, all) && |trace| == i + 1 && trace[0].ms == [] && trace[i] == StateOf(a, ms)
      invariant forall j :: 0 <= j < i ==> Does(commands[j], trace[j], trace[j + 1], a.noPageZero)
    {
      ms := Step(a, ms, commands[i], all);
      trace := trace + [StateOf(a, ms)];
    }
    Open(a.Now(), ms, a.acct.available, a.acct.reserved, all, a.noPageZero);
  }
}
