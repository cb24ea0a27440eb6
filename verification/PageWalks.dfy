/** Racing page walks (src/mem/virt.c): `virt_get_next_level` and `virt_get_pte` by any number of threads, with
    every load, allocation, compare-exchange and free as one step. */
module PageWalks {
  import opened Common
  import opened PageTable

  /** Where a walk is; table is the one of level i. */
  datatype Pc =
    | Looking(i: nat, table: nat)                        // about to load its entry of level i
    | Missing(i: nat, table: nat)                        // saw it absent, about to allocate
    | Holding(i: nat, table: nat, page: nat)             // has a new page, about to compare-exchange
    | Lost(i: nat, table: nat, page: nat, other: nat)    // somebody else was first, about to free the page
    | Done(slot: Slot)
    | Failed

  datatype Walk = Walk(v: nat, pc: Pc)

  /** used: the pages committed for page tables, apart from the root. */
  datatype Sys = Sys(tables: Tables, used: set<nat>, walks: seq<Walk>, root: nat, levels: nat)

  datatype Step = Begin(v: nat) | Load(w: nat) | Allocate(w: nat, page: nat) | NoMemory(w: nat) | CompareExchange(w: nat) | Free(w: nat)

  /** A walk that goes on with the table of level i. */
  function At(s: Sys, v: nat, i: nat, table: nat): Pc {
    if i == 0 then Done(Slot(table, Index(v, 0))) else Looking(i, table)
  }

  predicate Enabled(s: Sys, e: Step) {
    match e
    case Begin(v) => s.levels > 0
    case Load(w) => w < |s.walks| && s.walks[w].pc.Looking?
    case Allocate(w, page) => w < |s.walks| && s.walks[w].pc.Missing? && page !in s.used && page != s.root
    case NoMemory(w) => w < |s.walks| && s.walks[w].pc.Missing?
    case CompareExchange(w) => w < |s.walks| && s.walks[w].pc.Holding?
    case Free(w) => w < |s.walks| && s.walks[w].pc.Lost?
  }

  function Put(s: Sys, w: nat, pc: Pc): Sys
    requires w < |s.walks|
  {
    s.(walks := s.walks[w := s.walks[w].(pc := pc)])
  }

  function Next(s: Sys, e: Step): Sys
    requires Enabled(s, e)
  {
    match e
    case Begin(v) => s.(walks := s.walks + [Walk(v, At(s, v, s.levels - 1, s.root))])
    case Load(w) =>
      var v, pc := s.walks[w].v, s.walks[w].pc;
      var slot := Slot(pc.table, Index(v, pc.i));
      if slot in s.tables && pc.i > 0 then Put(s, w, At(s, v, pc.i - 1, s.tables[slot])) else Put(s, w, Missing(pc.i, pc.table))
    case Allocate(w, page) =>
      var pc := s.walks[w].pc;
      Put(s, w, Holding(pc.i, pc.table, page)).(used := s.used + {page})
    case NoMemory(w) => Put(s, w, Failed)
    case CompareExchange(w) =>
      var v, pc := s.walks[w].v, s.walks[w].pc;
      var slot := Slot(pc.table, Index(v, pc.i));
      if slot in s.tables then Put(s, w, Lost(pc.i, pc.table, pc.page, s.tables[slot]))
      else if pc.i > 0 then Put(s, w, At(s, v, pc.i - 1, pc.page)).(tables := s.tables[slot := pc.page])
      else s
    case Free(w) =>
      var v, pc := s.walks[w].v, s.walks[w].pc;
      if pc.i > 0 then Put(s, w, At(s, v, pc.i - 1, pc.other)).(used := s.used - {pc.page}) else s
  }

  // ----- the invariant -----

  predicate Holds(w: Walk, page: nat) {
    (w.pc.Holding? || w.pc.Lost?) && w.pc.page == page
  }

  /** A walk is at the table that the way to its page leads to. */
  ghost predicate OnTheWay(s: Sys, w: Walk)
    requires s.levels > 0
  {
    match w.pc
    case Done(slot) => Leaf(s.tables, s.root, s.levels, w.v) == Some(slot)
    case Failed => true
    case pc =>
      && 0 < pc.i < s.levels && Reach(s.tables, s.root, s.levels, w.v, pc.i) == Some(pc.table)
      && (pc.Lost? ==> Slot(pc.table, Index(w.v, pc.i)) in s.tables && s.tables[Slot(pc.table, Index(w.v, pc.i))] == pc.other)
  }

  /** The tables are a tree of committed pages. */
  ghost predicate Rooted(s: Sys) {
    && s.levels > 0 && Tree(s.tables, s.root) && s.root !in s.used
    && forall a :: a in s.tables ==> s.tables[a] in s.used && (a.table == s.root || a.table in s.tables.Values)
  }

  ghost predicate Ways(s: Sys)
    requires s.levels > 0
  {
    forall w :: 0 <= w < |s.walks| ==> OnTheWay(s, s.walks[w])
  }

  /** A page that a walk holds is committed, no table yet, and held by no other walk. */
  ghost predicate Own(s: Sys) {
    && (forall w, p :: 0 <= w < |s.walks| && Holds(s.walks[w], p) ==> p in s.used && p !in s.tables.Values)
    && forall w, x, p :: 0 <= w < x < |s.walks| ==> !(Holds(s.walks[w], p) && Holds(s.walks[x], p))
  }

  /** Every committed page is a table, or about to be one or to be given back. */
  ghost predicate Counted(s: Sys) {
    forall p :: p in s.used && p !in s.tables.Values ==> exists w :: 0 <= w < |s.walks| && Holds(s.walks[w], p)
  }

  ghost predicate Inv(s: Sys) {
    Rooted(s) && Ways(s) && Own(s) && Counted(s)
  }

  lemma {:induction false} WayStays(s: Sys, t: Sys, w: Walk)
    requires s.levels > 0 && OnTheWay(s, w) && Extends(s.tables, t.tables) && t.root == s.root && t.levels == s.levels
    ensures OnTheWay(t, w)
  {
    match w.pc
    case Done(slot) => ReachStays(s.tables, t.tables, s.root, s.levels, w.v, 0);
    case Failed =>
    case pc => ReachStays(s.tables, t.tables, s.root, s.levels, w.v, pc.i);
  }

  /** Going down through a present entry. */
  lemma WayDown(s: Sys, v: nat, i: nat, table: nat)
    requires 0 < i < s.levels && Reach(s.tables, s.root, s.levels, v, i) == Some(table) && Slot(table, Index(v, i)) in s.tables
    ensures OnTheWay(s, Walk(v, At(s, v, i - 1, s.tables[Slot(table, Index(v, i))])))
  {
  }

  lemma OneHolder(s: Sys, x: nat, w: nat, p: nat)
    requires Own(s) && x < |s.walks| && w < |s.walks| && x != w && Holds(s.walks[x], p)
    ensures !Holds(s.walks[w], p)
  {
    var a, b := if x < w then x else w, if x < w then w else x;
    assert !(Holds(s.walks[a], p) && Holds(s.walks[b], p));
  }

  /** A walk moves on without touching the tables; it may take a page or give one back. */
  ghost predicate Moves(s: Sys, t: Sys, w: nat, pc: Pc)
    requires w < |s.walks|
  {
    && t == Put(s, w, pc).(used := t.used)
    && (forall p :: Holds(t.walks[w], p) && !Holds(s.walks[w], p) ==> p !in s.used && p in t.used)
    && (forall p :: p in t.used - s.used ==> Holds(t.walks[w], p) && p != s.root)
    && (forall p :: p in s.used - t.used ==> Holds(s.walks[w], p) && !Holds(t.walks[w], p))
    && forall p :: Holds(s.walks[w], p) && !Holds(t.walks[w], p) ==> p !in t.used
  }

  lemma WalkWays(s: Sys, t: Sys, w: nat, pc: Pc)
    requires s.levels > 0 && Ways(s) && w < |s.walks| && Moves(s, t, w, pc) && OnTheWay(t, t.walks[w])
    ensures Ways(t)
  {
    forall x | 0 <= x < |t.walks|
      ensures OnTheWay(t, t.walks[x])
    {
      assert x != w ==> t.walks[x] == s.walks[x] && OnTheWay(s, s.walks[x]);
    }
  }

  lemma WalkRooted(s: Sys, t: Sys, w: nat, pc: Pc)
    requires Rooted(s) && Own(s) && w < |s.walks| && Moves(s, t, w, pc)
    ensures Rooted(t)
  {
    forall a | a in t.tables
      ensures t.tables[a] in t.used
    {
      assert t.tables[a] in s.tables.Values;
    }
  }

  lemma WalkCounted(s: Sys, t: Sys, w: nat, pc: Pc)
    requires Counted(s) && w < |s.walks| && Moves(s, t, w, pc)
    ensures Counted(t)
  {
    forall p | p in t.used && p !in t.tables.Values
      ensures exists x :: 0 <= x < |t.walks| && Holds(t.walks[x], p)
    {
      if p in s.used {
        var x :| 0 <= x < |s.walks| && Holds(s.walks[x], p);
        assert Holds(t.walks[x], p);
      } else {
        assert Holds(t.walks[w], p);
      }
    }
  }

  lemma WalkOwn(s: Sys, t: Sys, w: nat, pc: Pc)
    requires Rooted(s) && Own(s) && w < |s.walks| && Moves(s, t, w, pc)
    ensures Own(t)
  {
    forall x, p | 0 <= x < |t.walks| && Holds(t.walks[x], p)
      ensures p in t.used && p !in t.tables.Values
    {
      if x != w {
        OneHolder(s, x, w, p);
      }
    }
    WalkHolders(s, t, w);
  }

  lemma WalkInv(s: Sys, t: Sys, w: nat, pc: Pc)
    requires Inv(s) && w < |s.walks| && Moves(s, t, w, pc) && OnTheWay(t, t.walks[w])
    ensures Inv(t)
  {
    WalkWays(s, t, w, pc);
    WalkRooted(s, t, w, pc);
    WalkCounted(s, t, w, pc);
    WalkOwn(s, t, w, pc);
  }

  lemma WalkHolders(s: Sys, t: Sys, w: nat)
    requires Own(s) && w < |s.walks| == |t.walks|
    requires forall x :: 0 <= x < |s.walks| && x != w ==> t.walks[x] == s.walks[x]
    requires forall p :: Holds(t.walks[w], p) && !Holds(s.walks[w], p) ==> p !in s.used
    ensures forall x, y, p :: 0 <= x < y < |t.walks| ==> !(Holds(t.walks[x], p) && Holds(t.walks[y], p))
  {
    forall x, y, p | 0 <= x < y < |t.walks|
      ensures !(Holds(t.walks[x], p) && Holds(t.walks[y], p))
    {
      if x != w && y != w {
        assert !(Holds(s.walks[x], p) && Holds(s.walks[y], p));
      } else {
        var z := if x == w then y else x;
        assert t.walks[z] == s.walks[z];
        if Holds(s.walks[z], p) {
          OneHolder(s, z, w, p);
        }
      }
    }
  }

  lemma BeginInv(s: Sys, v: nat)
    requires Inv(s)
    ensures Inv(Next(s, Begin(v)))
  {
    var t := Next(s, Begin(v));
    var n := |s.walks|;
    assert forall x :: 0 <= x < n ==> t.walks[x] == s.walks[x];
    assert forall p :: !Holds(t.walks[n], p);
    forall x | 0 <= x < |t.walks|
      ensures OnTheWay(t, t.walks[x])
    {
      assert x < n ==> OnTheWay(s, s.walks[x]);
    }
    forall x, p | 0 <= x < |t.walks| && Holds(t.walks[x], p)
      ensures p in t.used && p !in t.tables.Values
    {
      assert x < n && Holds(s.walks[x], p);
    }
    forall x, y, p | 0 <= x < y < |t.walks|
      ensures !(Holds(t.walks[x], p) && Holds(t.walks[y], p))
    {
      assert y < n ==> !(Holds(s.walks[x], p) && Holds(s.walks[y], p));
    }
    forall p | p in t.used && p !in t.tables.Values
      ensures exists x :: 0 <= x < |t.walks| && Holds(t.walks[x], p)
    {
      var x :| 0 <= x < |s.walks| && Holds(s.walks[x], p);
      assert Holds(t.walks[x], p);
    }
  }

  lemma PublishRooted(s: Sys, t: Sys, w: nat, slot: Slot)
    requires Rooted(s) && Ways(s) && Own(s) && w < |s.walks| && s.walks[w].pc.Holding?
    requires slot == Slot(s.walks[w].pc.table, Index(s.walks[w].v, s.walks[w].pc.i)) && slot !in s.tables
    requires t.tables == s.tables[slot := s.walks[w].pc.page] && t.used == s.used && t.root == s.root && t.levels == s.levels
    ensures Rooted(t) && forall p: nat :: p in t.tables.Values <==> p in s.tables.Values || p == s.walks[w].pc.page
  {
    var v, pc := s.walks[w].v, s.walks[w].pc;
    assert OnTheWay(s, s.walks[w]) && Holds(s.walks[w], pc.page);
    ReachIsTable(s.tables, s.root, s.levels, v, pc.i);
    forall p: nat
      ensures p in t.tables.Values <==> p in s.tables.Values || p == pc.page
    {
      if p in s.tables.Values {
        var a :| a in s.tables && s.tables[a] == p;
        assert a in t.tables && t.tables[a] == p;
      }
      assert t.tables[slot] == pc.page;
    }
  }

  /** The compare-exchange that wins publishes the page. */
  lemma PublishInv(s: Sys, w: nat)
    requires Inv(s) && Enabled(s, CompareExchange(w))
    requires var pc := s.walks[w].pc; Slot(pc.table, Index(s.walks[w].v, pc.i)) !in s.tables
    ensures Inv(Next(s, CompareExchange(w)))
  {
    var t := Next(s, CompareExchange(w));
    var v, pc := s.walks[w].v, s.walks[w].pc;
    assert OnTheWay(s, s.walks[w]);
    PublishRooted(s, t, w, Slot(pc.table, Index(v, pc.i)));
    PublishWays(s, t, w);
    PublishHolders(s, t, w);
  }

  lemma PublishWays(s: Sys, t: Sys, w: nat)
    requires s.levels > 0 && Ways(s) && w < |s.walks| == |t.walks| && s.walks[w].pc.Holding? && t.root == s.root && t.levels == s.levels
    requires forall x :: 0 <= x < |s.walks| && x != w ==> t.walks[x] == s.walks[x]
    requires var v, pc := s.walks[w].v, s.walks[w].pc;
             var slot := Slot(pc.table, Index(v, pc.i));
             slot !in s.tables && t.tables == s.tables[slot := pc.page] && pc.i > 0 && t.walks[w] == Walk(v, At(s, v, pc.i - 1, pc.page))
    ensures Ways(t)
  {
    var v, pc := s.walks[w].v, s.walks[w].pc;
    assert Extends(s.tables, t.tables);
    forall x | 0 <= x < |t.walks|
      ensures OnTheWay(t, t.walks[x])
    {
      assert OnTheWay(s, s.walks[x]);
      if x == w {
        ReachStays(s.tables, t.tables, s.root, s.levels, v, pc.i);
        WayDown(t, v, pc.i, pc.table);
      } else {
        WayStays(s, t, s.walks[x]);
      }
    }
  }

  lemma PublishHolders(s: Sys, t: Sys, w: nat)
    requires Own(s) && Counted(s) && w < |s.walks| == |t.walks| && t.used == s.used && s.walks[w].pc.Holding?
    requires forall x :: 0 <= x < |s.walks| && x != w ==> t.walks[x] == s.walks[x]
    requires forall p :: !Holds(t.walks[w], p)
    requires forall p: nat :: p in t.tables.Values <==> p in s.tables.Values || p == s.walks[w].pc.page
    ensures Own(t) && Counted(t)
  {
    var page := s.walks[w].pc.page;
    assert Holds(s.walks[w], page);
    forall x, p | 0 <= x < |t.walks| && Holds(t.walks[x], p)
      ensures p in t.used && p !in t.tables.Values
    {
      OneHolder(s, x, w, p);
    }
    forall p | p in t.used && p !in t.tables.Values
      ensures exists x :: 0 <= x < |t.walks| && Holds(t.walks[x], p)
    {
      var x :| 0 <= x < |s.walks| && Holds(s.walks[x], p);
      assert x != w && Holds(t.walks[x], p);
    }
  }

  lemma LoadInv(s: Sys, w: nat)
    requires Inv(s) && Enabled(s, Load(w))
    ensures Inv(Next(s, Load(w)))
  {
    var t := Next(s, Load(w));
    var v, pc := s.walks[w].v, s.walks[w].pc;
    assert OnTheWay(s, s.walks[w]);
    if Slot(pc.table, Index(v, pc.i)) in s.tables {
      WayDown(s, v, pc.i, pc.table);
    }
    WalkInv(s, t, w, t.walks[w].pc);
  }

  lemma AllocateInv(s: Sys, w: nat, page: nat)
    requires Inv(s) && Enabled(s, Allocate(w, page))
    ensures Inv(Next(s, Allocate(w, page)))
  {
    var t := Next(s, Allocate(w, page));
    assert OnTheWay(s, s.walks[w]);
    WalkInv(s, t, w, t.walks[w].pc);
  }

  /** The compare-exchange that loses. */
  lemma LoseInv(s: Sys, w: nat)
    requires Inv(s) && Enabled(s, CompareExchange(w))
    requires var pc := s.walks[w].pc; Slot(pc.table, Index(s.walks[w].v, pc.i)) in s.tables
    ensures Inv(Next(s, CompareExchange(w)))
  {
    var t := Next(s, CompareExchange(w));
    assert OnTheWay(s, s.walks[w]);
    WalkInv(s, t, w, t.walks[w].pc);
  }

  lemma FreeInv(s: Sys, w: nat)
    requires Inv(s) && Enabled(s, Free(w))
    ensures Inv(Next(s, Free(w)))
  {
    var t := Next(s, Free(w));
    var v, pc := s.walks[w].v, s.walks[w].pc;
    assert OnTheWay(s, s.walks[w]) && Holds(s.walks[w], pc.page);
    WayDown(s, v, pc.i, pc.table);
    WalkInv(s, t, w, t.walks[w].pc);
  }

  lemma StepExtends(s: Sys, e: Step)
    requires Enabled(s, e)
    ensures Extends(s.tables, Next(s, e).tables)
  {
  }

  lemma StepInv(s: Sys, e: Step)
    requires Inv(s) && Enabled(s, e)
    ensures Inv(Next(s, e)) && Extends(s.tables, Next(s, e).tables)
  {
    StepExtends(s, e);
    match e
    case Begin(v) => BeginInv(s, v);
    case Load(w) => LoadInv(s, w);
    case Allocate(w, page) => AllocateInv(s, w, page);
    case NoMemory(w) => WalkInv(s, Next(s, e), w, Failed);
    case CompareExchange(w) =>
      if Slot(s.walks[w].pc.table, Index(s.walks[w].v, s.walks[w].pc.i)) in s.tables {
        LoseInv(s, w);
      } else {
        PublishInv(s, w);
      }
    case Free(w) => FreeInv(s, w);
  }

  // ----- runs -----

  ghost predicate Initial(s: Sys) {
    s.levels > 0 && s.tables == map[] && s.used == {} && s.walks == []
  }

  ghost predicate IsRun(run: seq<Sys>, steps: seq<Step>) {
    && |run| == |steps| + 1 && Initial(run[0])
    && forall i :: 0 <= i < |steps| ==> Enabled(run[i], steps[i]) && run[i + 1] == Next(run[i], steps[i])
  }

  lemma {:induction false} RunInv(run: seq<Sys>, steps: seq<Step>, i: nat)
    requires IsRun(run, steps) && i < |run|
    ensures Inv(run[i]) && run[i].root == run[0].root && run[i].levels == run[0].levels
  {
    if i > 0 {
      RunInv(run, steps, i - 1);
      StepInv(run[i - 1], steps[i - 1]);
    }
  }

  /** An interior entry is set at most once. */
  lemma {:induction false} EntriesStay(run: seq<Sys>, steps: seq<Step>, i: nat, j: nat)
    requires IsRun(run, steps) && i <= j < |run|
    ensures Extends(run[i].tables, run[j].tables)
  {
    if i < j {
      EntriesStay(run, steps, i, j - 1);
      RunInv(run, steps, j - 1);
      StepInv(run[j - 1], steps[j - 1]);
    }
  }

  /** All walks to a page, whenever they end, end at the same entry; walks to different pages of the address
      space end at different ones. */
  lemma WalksAgree(run: seq<Sys>, steps: seq<Step>, i: nat, j: nat, w: nat, x: nat)
    requires IsRun(run, steps) && i <= j < |run| && w < |run[i].walks| && x < |run[j].walks|
    requires run[i].walks[w].pc.Done? && run[j].walks[x].pc.Done?
    requires High(run[i].walks[w].v, run[0].levels) == 0 && High(run[j].walks[x].v, run[0].levels) == 0
    ensures run[i].walks[w].v == run[j].walks[x].v <==> run[i].walks[w].pc.slot == run[j].walks[x].pc.slot
  {
    RunInv(run, steps, i);
    RunInv(run, steps, j);
    EntriesStay(run, steps, i, j);
    var a, b, s := run[i].walks[w], run[j].walks[x], run[j];
    assert OnTheWay(run[i], a) && OnTheWay(s, b);
    ReachStays(run[i].tables, s.tables, s.root, s.levels, a.v, 0);
    if a.pc.slot == b.pc.slot {
      LeavesDiffer(s.tables, s.root, s.levels, a.v, b.v);
    }
  }

  /** When no walk is under way, exactly one page is committed for each present interior entry. */
  lemma OnePageCommitted(run: seq<Sys>, steps: seq<Step>, i: nat)
    requires IsRun(run, steps) && i < |run|
    requires forall w :: w in run[i].walks ==> w.pc.Done? || w.pc.Failed?
    ensures run[i].used == run[i].tables.Values && |run[i].used| == |run[i].tables|
  {
    RunInv(run, steps, i);
    var s := run[i];
    forall w, p | 0 <= w < |s.walks|
      ensures !Holds(s.walks[w], p)
    {
      assert s.walks[w] in s.walks;
    }
    assert s.used == s.tables.Values;
    OnePageEach(s.tables);
  }

  // ----- walks end -----

  /** How many steps a walk has still to make, at most. */
  function Left(pc: Pc): nat {
    match pc
    case Looking(i, _) => 4 * i + 3
    case Missing(i, _) => 4 * i + 2
    case Holding(i, _, _) => 4 * i + 1
    case Lost(i, _, _, _) => 4 * i
    case Done(_) => 0
    case Failed => 0
  }

  /** The walk that makes the step. */
  predicate Makes(e: Step, w: nat) {
    match e
    case Begin(_) => false
    case Load(x) => x == w
    case Allocate(x, _) => x == w
    case NoMemory(x) => x == w
    case CompareExchange(x) => x == w
    case Free(x) => x == w
  }

  /** A step of a walk brings it nearer to its end.  It allocates a page only where it saw the entry absent, loses it
      exactly if the entry is there by then, gives a page it lost back, and fails only for want of memory. */
  lemma StepNearer(s: Sys, e: Step, w: nat)
    requires Inv(s) && Enabled(s, e) && Makes(e, w)
    ensures var s' := Next(s, e);
            && w < |s.walks| == |s'.walks| && s'.walks[w].v == s.walks[w].v && Left(s'.walks[w].pc) < Left(s.walks[w].pc)
            && (forall x :: 0 <= x < |s.walks| && x != w ==> s'.walks[x] == s.walks[x])
            && (s'.walks[w].pc.Failed? ==> e.NoMemory?)
            && (e.Load? ==> (s'.walks[w].pc.Missing? <==> Slot(s.walks[w].pc.table, Index(s.walks[w].v, s.walks[w].pc.i)) !in s.tables))
            && (e.CompareExchange? ==> (s'.walks[w].pc.Lost? <==> Slot(s.walks[w].pc.table, Index(s.walks[w].v, s.walks[w].pc.i)) in s.tables))
            && (e.Free? ==> s'.used == s.used - {s.walks[w].pc.page})
            && (e.Allocate? ==> s'.used == s.used + {e.page})
  {
    assert OnTheWay(s, s.walks[w]);
  }

  /** A walk that has not ended can make a step, whatever page the allocator gives it. */
  lemma CanStep(s: Sys, w: nat, page: nat) returns (e: Step)
    requires Inv(s) && w < |s.walks| && !s.walks[w].pc.Done? && !s.walks[w].pc.Failed? && page !in s.used && page != s.root
    ensures Makes(e, w) && Enabled(s, e) && !e.NoMemory?
  {
    e := match s.walks[w].pc
         case Looking(_, _) => Load(w)
         case Missing(_, _) => Allocate(w, page)
         case Holding(_, _, _) => CompareExchange(w)
         case _ => Free(w);
  }

  /** The steps of walk w between two moments of a run. */
  function Made(steps: seq<Step>, w: nat, i: nat, j: nat): nat
    requires i <= j <= |steps|
  {
    if i == j then 0 else Made(steps, w, i, j - 1) + if Makes(steps[j - 1], w) then 1 else 0
  }

  /** A call starts one more walk, to its page. */
  lemma BeginStarts(s: Sys, v: nat)
    requires Inv(s)
    ensures var s' := Next(s, Begin(v));
            |s'.walks| == |s.walks| + 1 && s'.walks[..|s.walks|] == s.walks && s'.walks[|s.walks|].v == v && !s'.walks[|s.walks|].pc.Failed?
  {
  }

  /** A walk fails only because there was no memory for it. */
  lemma {:induction false} FailsForMemory(run: seq<Sys>, steps: seq<Step>, w: nat, i: nat, j: nat)
    requires IsRun(run, steps) && i <= j < |run| && w < |run[i].walks| && !run[i].walks[w].pc.Failed?
    ensures w < |run[j].walks|
    ensures run[j].walks[w].pc.Failed? ==> exists k :: i <= k < j && steps[k] == NoMemory(w)
  {
    if i < j {
      FailsForMemory(run, steps, w, i, j - 1);
      RunInv(run, steps, j - 1);
      var s, e := run[j - 1], steps[j - 1];
      if Makes(e, w) {
        StepNearer(s, e, w);
      } else {
        OtherWalk(s, e, w);
      }
    }
  }

  /** A walk is over after no more than 4 steps for each level, whatever the others do. */
  lemma {:induction false} WalkEnds(run: seq<Sys>, steps: seq<Step>, w: nat, i: nat, j: nat)
    requires IsRun(run, steps) && i <= j < |run| && w < |run[i].walks|
    ensures w < |run[j].walks| && run[j].walks[w].v == run[i].walks[w].v
    ensures Made(steps, w, i, j) + Left(run[j].walks[w].pc) <= Left(run[i].walks[w].pc)
  {
    if i < j {
      WalkEnds(run, steps, w, i, j - 1);
      RunInv(run, steps, j - 1);
      var s, e := run[j - 1], steps[j - 1];
      if Makes(e, w) {
        StepNearer(s, e, w);
      } else {
        OtherWalk(s, e, w);
      }
    }
  }

  lemma OtherWalk(s: Sys, e: Step, w: nat)
    requires Inv(s) && Enabled(s, e) && !Makes(e, w) && w < |s.walks|
    ensures w < |Next(s, e).walks| && Next(s, e).walks[w] == s.walks[w]
  {
    match e
    case Begin(_) =>
    case Load(x) => StepNearer(s, e, x);
    case Allocate(x, _) => StepNearer(s, e, x);
    case NoMemory(x) => StepNearer(s, e, x);
    case CompareExchange(x) => StepNearer(s, e, x);
    case Free(x) => StepNearer(s, e, x);
  }
}
