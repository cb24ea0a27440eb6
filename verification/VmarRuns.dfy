/** Runs of the address space (src/mem/vmar.c): any sequence of `vmar_link`, `vmar_allocate`, `vmar_map` and
    `vmar_unmap`, from an empty root region, is a run of the machine on ranges. */
module VmarRuns {
  import opened VmarNode
  import opened RbTree
  import opened RbLinked
  import opened VmarGaps
  import opened VmarRegion
  import opened VmarPlace
  import opened VmarUnder
  import opened VmarSpace
  import opened VmarNested
  import opened VmarMachine

  /** Offsets are machine words. */
  predicate MayIssue(c: Command) {
    match c
    case Link(_, _, _, _, _) => true
    case Allocate(_, offset, _, _) => offset <= ANY_OFFSET
    case Map(_, offset, _, _, _) => offset <= ANY_OFFSET
    case Unmap(_) => true
  }

  /** Every vmar but the root is linked, or it was unmapped, and none is both. */
  ghost predicate Settled(vmars: seq<Vmar>, all: set<Vmar>, up: Parents, dead: set<Vmar>) {
    && vmars != [] && Elems(vmars) == all && up.Keys <= all && up.Keys !! dead
    && forall i :: 0 < i < |vmars| ==> vmars[i] in up || vmars[i] in dead
  }

  ghost predicate RunParts(vmars: seq<Vmar>, x: Space)
    reads x.all, Roots(x.all)
  {
    SpaceOk(x) && Settled(vmars, x.all, Ups(x.all), Dead(x.all))
  }

  ghost predicate RunAt(k: int, vmars: seq<Vmar>, x: Space)
    reads x.all, Roots(x.all)
  {
    k == 0 ==> RunParts(vmars, x)
  }

  /** What every call keeps. */
  ghost predicate RunOk(vmars: seq<Vmar>, x: Space)
    reads x.all, Roots(x.all)
  {
    forall k :: RunAt(k, vmars, x)
  }

  lemma OpenRun(vmars: seq<Vmar>, x: Space)
    requires RunOk(vmars, x)
    ensures RunParts(vmars, x)
  {
    assert RunAt(0, vmars, x);
  }

  lemma SettledWith(vmars: seq<Vmar>, all: set<Vmar>, up: Parents, dead: set<Vmar>, child: Vmar, parent: Vmar)
    requires Settled(vmars, all, up, dead) && child !in all && child !in dead
    ensures Settled(vmars + [child], all + {child}, up[child := parent], dead)
  {
    assert Elems(vmars + [child]) == Elems(vmars) + {child};
  }

  lemma SettledWithout(vmars: seq<Vmar>, all: set<Vmar>, up: Parents, dead: set<Vmar>, gone: set<Vmar>)
    requires Settled(vmars, all, up, dead)
    ensures Settled(vmars, all, Minus(up, gone), dead + gone)
  {
  }

  lemma Member(vmars: seq<Vmar>, x: Space, i: nat)
    requires RunOk(vmars, x) && i < |vmars|
    ensures vmars[i] in x.all && SpaceOk(x)
  {
    OpenRun(vmars, x);
    assert vmars[i] in Elems(vmars);
  }

  // ----- what the machine sees -----

  ghost function ShotOf(vmars: seq<Vmar>, all: set<Vmar>): Shot
    reads all`parent, all`unmapped, all`kind, all`locked, all`first, all`pages
  {
    Shot(vmars, Ups(all), Dead(all), RegionsOf(all), SpecialOf(all), LockedOf(all), Spans(all))
  }

  ghost function RegionsOf(all: set<Vmar>): set<Vmar>
    reads all`kind
  {
    set v | v in all && v.kind.Region?
  }

  ghost function SpecialOf(all: set<Vmar>): set<Vmar>
    reads all`kind
  {
    set v | v in all && v.kind.Special?
  }

  ghost function LockedOf(all: set<Vmar>): set<Vmar>
    reads all`locked
  {
    set v | v in all && v.locked
  }

  /** The children of a region are the vmars linked into it. */
  lemma ChildrenAre(vmars: seq<Vmar>, x: Space, p: Vmar)
    requires SpaceOk(x) && p in x.all && p.kind.Region?
    ensures var s, y := ShotOf(vmars, x.all), ChildLayout(p, x);
            && p in x.trees && y.lo == s.sp[p].first && y.hi == s.sp[p].end
            && (forall v :: v in y.s <==> v in s.up && s.up[v] == p)
            && forall v :: v in y.s ==> v in y.sp && v in s.sp && y.sp[v] == s.sp[v]
  {
    OpenSpace(x);
    OpenRegion(p, x.trees[p]);
    ValidOrder(p.children, x.trees[p]);
    var t, s := x.trees[p], InOrder(x.trees[p]);
    assert forall v :: v in s <==> v in Elems(s);
    assert forall v :: v in Nodes(t) ==> v in x.all && v.parent == p;
  }

  /** So what is free in the layout is vacant for the machine, */
  lemma FreeIsVacant(vmars: seq<Vmar>, x: Space, p: Vmar, k: nat)
    requires SpaceOk(x) && p in x.all && p.kind.Region?
    ensures var s, y := ShotOf(vmars, x.all), ChildLayout(p, x);
            forall page: nat :: Free(y.sp, y.s, y.lo, y.hi, page, k) <==> Vacant(s, p, page, k)
  {
    ChildrenAre(vmars, x, p);
  }

  ghost predicate Agree(y: Layout, s: Shot, p: Vmar, offset: nat, k: nat) {
    forall page: nat :: Wanted(y, offset, k, page) <==> Wants(s, p, offset, k, page)
  }

  /** and the wanted place is the one the machine wants. */
  lemma WantedIsWants(vmars: seq<Vmar>, x: Space, p: Vmar, offset: nat, k: nat)
    requires SpaceOk(x) && p in x.all
    ensures p.kind.Region? ==> Agree(ChildLayout(p, x), ShotOf(vmars, x.all), p, offset, k)
  {
    if p.kind.Region? {
      ChildrenAre(vmars, x, p);
      FreeIsVacant(vmars, x, p, k);
    }
  }

  /** One more vmar, linked into parent. */
  lemma RunWith(vmars: seq<Vmar>, x: Space, x': Space, up: Parents, dead: set<Vmar>, child: Vmar, parent: Vmar)
    requires SpaceOk(x') && x'.all == x.all + {child} && child !in x.all && Ups(x'.all) == up[child := parent]
    requires Settled(vmars, x.all, up, dead) && !child.unmapped
    requires Dead(x.all) == dead
    ensures RunOk(vmars + [child], x')
  {
    assert Dead(x'.all) == dead && child !in dead;
    SettledWith(vmars, x.all, up, dead, child, parent);
  }

  // What no call changes is closed to the methods, which only pass it on.

  ghost predicate FixedAt(k: int, s: Shot, all: set<Vmar>)
    reads all`kind, all`first, all`pages, all`locked
  {
    k == 0 ==> s.regions == RegionsOf(all) && s.special == SpecialOf(all) && s.locked == LockedOf(all) && s.sp == Spans(all)
  }

  ghost predicate Fixed(s: Shot, all: set<Vmar>)
    reads all`kind, all`first, all`pages, all`locked
  {
    forall k :: FixedAt(k, s, all)
  }

  lemma Unsettle(s: Shot, x: Space)
    requires RunOk(s.vmars, x) && s == ShotOf(s.vmars, x.all)
    ensures SpaceOk(x) && Fixed(s, x.all) && s.up == Ups(x.all) && s.dead == Dead(x.all) && Settled(s.vmars, x.all, s.up, s.dead)
  {
    OpenRun(s.vmars, x);
  }

  lemma Settle(s: Shot, x: Space)
    requires SpaceOk(x) && Fixed(s, x.all) && s.up == Ups(x.all) && s.dead == Dead(x.all) && Settled(s.vmars, x.all, s.up, s.dead)
    ensures RunOk(s.vmars, x) && s == ShotOf(s.vmars, x.all)
  {
    assert FixedAt(0, s, x.all);
  }

  /** A new vmar was linked into parent; s is what the machine saw before. */
  lemma Joined(s: Shot, x: Space, x': Space, child: Vmar, parent: Vmar)
    requires Fixed(s, x.all) && s.dead == Dead(x.all) && Settled(s.vmars, x.all, s.up, s.dead) && SpaceOk(x')
    requires x'.all == x.all + {child} && child !in x.all && Ups(x'.all) == s.up[child := parent]
    requires !child.unmapped
    ensures RunOk(s.vmars + [child], x')
    ensures Grew(s, ShotOf(s.vmars + [child], x'.all), parent, child.first, child.pages, child.kind, child.locked)
  {
    assert FixedAt(0, s, x.all);
    RunWith(s.vmars, x, x', s.up, s.dead, child, parent);
    var s' := ShotOf(s.vmars + [child], x'.all);
    assert s'.dead == s.dead;
    assert s'.regions == if child.kind.Region? then s.regions + {child} else s.regions;
    assert s'.special == if child.kind.Special? then s.special + {child} else s.special;
    assert s'.locked == if child.locked then s.locked + {child} else s.locked;
    assert s'.sp == s.sp[child := Span(child.first, child.first + child.pages)];
  }

  /** The vmars in gone were unmapped. */
  lemma Removed(s: Shot, x: Space, x': Space, gone: set<Vmar>)
    requires Fixed(s, x.all) && Settled(s.vmars, x.all, s.up, s.dead) && SpaceOk(x') && x'.all == x.all
    requires Ups(x.all) == Minus(s.up, gone) && Dead(x.all) == s.dead + gone
    ensures RunOk(s.vmars, x')
    ensures ShotOf(s.vmars, x.all) == s.(up := Minus(s.up, gone), dead := s.dead + gone)
  {
    assert FixedAt(0, s, x.all);
    SettledWithout(s.vmars, x.all, s.up, s.dead, gone);
  }

  /** A placing call, by its status. */
  lemma PlacedBy(s: Shot, s': Shot, parent: nat, y: Layout, offset: nat, k: nat, memoryOk: bool, kind: Kind, ok: bool, page: nat)
    requires parent < |s.vmars| && (s.vmars[parent] in s.regions <==> s.vmars[parent].kind.Region?)
    requires s.vmars[parent] in s.dead <==> s.vmars[parent].unmapped
    requires s.vmars[parent] in s.regions ==> Agree(y, s, s.vmars[parent], offset, k)
    requires ok <==> PlaceStatus(s.vmars[parent], y, offset, k).Success? && memoryOk
    requires if ok then Wanted(y, offset, k, page) && Grew(s, s', s.vmars[parent], page, k, kind, false) else s' == s
    ensures Placing(s, s', parent, offset, k, memoryOk, kind)
  {
    if s.vmars[parent] in s.regions {
      assert HasPlace(y, offset, k) <==> exists q: nat :: Wants(s, s.vmars[parent], offset, k, q) by {
        if HasPlace(y, offset, k) {
          var q :| Wanted(y, offset, k, q);
          assert Wants(s, s.vmars[parent], offset, k, q);
        }
        if q: nat :| Wants(s, s.vmars[parent], offset, k, q) {
          assert Wanted(y, offset, k, q);
        }
      }
    }
  }

  method MapInto(p: Vmar, c: Command, vmars: seq<Vmar>, ghost x: Space, ghost s: Shot, ghost y: Layout)
      returns (child: Vmar?, vmars': seq<Vmar>, ghost x': Space)
    requires RunOk(vmars, x) && c.Map? && MayIssue(c) && s == ShotOf(vmars, x.all) && p in x.all && y == ChildLayout(p, x)
    modifies x.all`left, x.all`right, x.all`rbParent, x.all`black, x.all`maxGap, x.all`gap, x.all`prev, x.all`next, p.children
    ensures RunOk(vmars', x') && x'.all == if child != null then x.all + {child} else x.all
    ensures child != null ==> fresh(child) && fresh(child.children)
    ensures child != null <==> PlaceStatus(p, y, c.offset, c.pageCount).Success? && c.allocOk && c.reserveOk
    ensures var s' := ShotOf(vmars', x'.all);
            if child != null then Wanted(y, c.offset, c.pageCount, child.first) && Grew(s, s', p, child.first, c.pageCount, Mapping, false) else s' == s
  {
    ghost var at;
    var status;
    Unsettle(s, x);
    status, child, x', at := VmarSpace.Map(p, c.offset, c.pageCount, c.allocOk, c.reserveOk, x, y, s.up);
    vmars' := vmars;
    if child != null {
      Joined(s, x, x', child, p);
      vmars' := vmars + [child];
    } else {
      Settle(s, x);
    }
  }

  /** vmar_map */
  method DoMap(c: Command, vmars: seq<Vmar>, ghost x: Space, ghost s: Shot) returns (vmars': seq<Vmar>, ghost x': Space)
    requires RunOk(vmars, x) && c.Map? && MayIssue(c) && s == ShotOf(vmars, x.all)
    modifies x.all, Roots(x.all)
    ensures RunOk(vmars', x') && x.all <= x'.all && forall v :: v in x'.all - x.all ==> fresh(v) && fresh(v.children)
    ensures Does(c, s, ShotOf(vmars', x'.all), false)
  {
    vmars', x' := vmars, x;
    if c.parent < |vmars| {
      var p := vmars[c.parent];
      Member(vmars, x, c.parent);
      ghost var y := ChildLayout(p, x);
      WantedIsWants(vmars, x, p, c.offset, c.pageCount);
      var child;
      child, vmars', x' := MapInto(p, c, vmars, x, s, y);
      PlacedBy(s, ShotOf(vmars', x'.all), c.parent, y, c.offset, c.pageCount, c.allocOk && c.reserveOk, Mapping,
               child != null, if child != null then child.first else 0);
    }
  }

  method AllocateInto(p: Vmar, c: Command, vmars: seq<Vmar>, ghost x: Space, ghost s: Shot, ghost y: Layout)
      returns (child: Vmar?, vmars': seq<Vmar>, ghost x': Space)
    requires RunOk(vmars, x) && c.Allocate? && MayIssue(c) && s == ShotOf(vmars, x.all) && p in x.all && y == ChildLayout(p, x)
    modifies x.all`left, x.all`right, x.all`rbParent, x.all`black, x.all`maxGap, x.all`gap, x.all`prev, x.all`next, p.children
    ensures RunOk(vmars', x') && x'.all == if child != null then x.all + {child} else x.all
    ensures child != null ==> fresh(child) && fresh(child.children)
    ensures child != null <==> PlaceStatus(p, y, c.offset, c.pageCount).Success? && c.allocOk
    ensures var s' := ShotOf(vmars', x'.all);
            if child != null then Wanted(y, c.offset, c.pageCount, child.first) && Grew(s, s', p, child.first, c.pageCount, Region, false) else s' == s
  {
    ghost var at;
    var status;
    Unsettle(s, x);
    status, child, x', at := VmarSpace.Allocate(p, c.offset, c.pageCount, c.allocOk, x, y, s.up);
    vmars' := vmars;
    if child != null {
      Joined(s, x, x', child, p);
      vmars' := vmars + [child];
    } else {
      Settle(s, x);
    }
  }

  /** vmar_allocate */
  method DoAllocate(c: Command, vmars: seq<Vmar>, ghost x: Space, ghost s: Shot) returns (vmars': seq<Vmar>, ghost x': Space)
    requires RunOk(vmars, x) && c.Allocate? && MayIssue(c) && s == ShotOf(vmars, x.all)
    modifies x.all, Roots(x.all)
    ensures RunOk(vmars', x') && x.all <= x'.all && forall v :: v in x'.all - x.all ==> fresh(v) && fresh(v.children)
    ensures Does(c, s, ShotOf(vmars', x'.all), false)
  {
    vmars', x' := vmars, x;
    if c.parent < |vmars| {
      var p := vmars[c.parent];
      Member(vmars, x, c.parent);
      ghost var y := ChildLayout(p, x);
      WantedIsWants(vmars, x, p, c.offset, c.pageCount);
      var child;
      child, vmars', x' := AllocateInto(p, c, vmars, x, s, y);
      PlacedBy(s, ShotOf(vmars', x'.all), c.parent, y, c.offset, c.pageCount, c.allocOk, Region,
               child != null, if child != null then child.first else 0);
    }
  }

  /** vmar_link: its assertions are that the range is inside the region and overlaps no child; if one fails the
      kernel stops. */
  method DoLink(c: Command, vmars: seq<Vmar>, ghost x: Space, ghost s: Shot) returns (stop: bool, vmars': seq<Vmar>, ghost x': Space)
    requires RunOk(vmars, x) && c.Link? && MayIssue(c) && s == ShotOf(vmars, x.all)
    modifies x.all, Roots(x.all)
    ensures RunOk(vmars', x') && x.all <= x'.all && forall v :: v in x'.all - x.all ==> fresh(v) && fresh(v.children)
    ensures Does(c, s, ShotOf(vmars', x'.all), stop)
  {
    stop, vmars', x' := false, vmars, x;
    if c.parent < |vmars| {
      var p := vmars[c.parent];
      Member(vmars, x, c.parent);
      if !p.kind.Region? {
        return true, vmars, x;
      }
      var child := NewLeaf(c.kind, c.first, c.pages, c.locked, vmars, x);
      var linked;
      linked, x' := LinkIfFits(p, child, vmars, x, s);
      stop := !linked;
      if linked {
        vmars' := vmars + [child];
      }
    }
  }

  /** A vmar as the kernel sets it up for vmar_link. */
  method NewLeaf(kind: Kind, first: nat, pages: nat, locked: bool, ghost vmars: seq<Vmar>, ghost x: Space) returns (child: Vmar)
    requires RunOk(vmars, x)
    ensures fresh(child) && fresh(child.children) && child.kind == kind && child.first == first && child.pages == pages
    ensures child.locked == locked && !child.unmapped
    ensures Spare(x, child) && RunOk(vmars, x)
  {
    OpenRun(vmars, x);
    child := NewVmar(kind, x);
    child.first, child.pages, child.locked := first, pages, locked;
  }

  method LinkIfFits(parent: Vmar, child: Vmar, ghost vmars: seq<Vmar>, ghost x: Space, ghost s: Shot) returns (linked: bool, ghost x': Space)
    requires s == ShotOf(vmars, x.all)
    requires RunOk(vmars, x) && parent in x.all && parent.kind.Region? && Spare(x, child) && !child.unmapped
    modifies x.all`left, x.all`right, x.all`rbParent, x.all`black, x.all`maxGap, x.all`gap, x.all`prev, x.all`next, parent.children
    modifies child`left, child`right, child`rbParent, child`black, child`maxGap, child`gap, child`prev, child`next, child`parent
    ensures linked <==> Vacant(s, parent, child.first, child.pages)
    ensures if linked then RunOk(vmars + [child], x') && x'.all == x.all + {child} else RunOk(vmars, x) && x' == x
    ensures var s' := ShotOf(if linked then vmars + [child] else vmars, x'.all);
            if linked then Grew(s, s', parent, child.first, child.pages, child.kind, child.locked) else s' == s
  {
    OpenRun(vmars, x);
    linked := CanLink(parent, child, x);
    FitsIsVacant(vmars, x, parent, child);
    x' := x;
    if linked {
      x' := LinkFitting(parent, child, vmars, x, s);
    }
  }

  method LinkFitting(parent: Vmar, child: Vmar, ghost vmars: seq<Vmar>, ghost x: Space, ghost s: Shot) returns (ghost x': Space)
    requires RunOk(vmars, x) && s == ShotOf(vmars, x.all) && parent in x.trees && Spare(x, child) && !child.unmapped
    requires Fits(parent, child, Spans(Nodes(x.trees[parent])))
    modifies x.all`left, x.all`right, x.all`rbParent, x.all`black, x.all`maxGap, x.all`gap, x.all`prev, x.all`next, parent.children
    modifies child`left, child`right, child`rbParent, child`black, child`maxGap, child`gap, child`prev, child`next, child`parent
    ensures RunOk(vmars + [child], x') && x'.all == x.all + {child}
    ensures Grew(s, ShotOf(vmars + [child], x'.all), parent, child.first, child.pages, child.kind, child.locked)
  {
    ghost var at;
    Unsettle(s, x);
    x', at := LinkNew(parent, child, x, s.up);
    Joined(s, x, x', child, parent);
  }

  lemma FitsIsVacant(vmars: seq<Vmar>, x: Space, p: Vmar, child: Vmar)
    requires SpaceOk(x) && p in x.all && p.kind.Region? && p in x.trees
    ensures Fits(p, child, Spans(Nodes(x.trees[p]))) <==> Vacant(ShotOf(vmars, x.all), p, child.first, child.pages)
  {
    ChildrenAre(vmars, x, p);
    var y := ChildLayout(p, x);
    assert Elems(y.s) == y.sp.Keys by {
      OpenSpace(x);
      OpenRegion(p, x.trees[p]);
      ValidOrder(p.children, x.trees[p]);
    }
    FitsIfClear(p, child, y);
  }

  /** The conditions that vmar_link asserts. */
  method CanLink(parent: Vmar, child: Vmar, ghost x: Space) returns (fits: bool)
    requires SpaceOk(x) && parent in x.all && parent.kind.Region?
    ensures parent in x.trees && (fits <==> Fits(parent, child, Spans(Nodes(x.trees[parent]))))
  {
    assert parent in x.trees by { OpenSpace(x); }
    ghost var t := x.trees[parent];
    assert Sane(parent, t) && parent.End() <= PAGE_LIMIT by { OpenSpace(x); }
    fits := HasRoom(parent, child, t);
  }

  method HasRoom(parent: Vmar, child: Vmar, ghost t: Tree) returns (fits: bool)
    requires Sane(parent, t) && parent.End() <= PAGE_LIMIT
    ensures fits <==> Fits(parent, child, Spans(Nodes(t)))
  {
    ghost var y := LayoutOf(parent, t);
    assert Valid(parent.children, t) && Elems(y.s) == y.sp.Keys by {
      OpenRegion(parent, t);
      ValidOrder(parent.children, t);
    }
    var clear := IsClear(parent, child.first, child.pages, t, y);
    fits := InParent(parent, child) && clear;
    FitsIfClear(parent, child, y);
    assert y.sp == Spans(Nodes(t));
  }

  lemma FitsIfClear(parent: Vmar, child: Vmar, y: Layout)
    requires Elems(y.s) == y.sp.Keys
    ensures Fits(parent, child, y.sp) <==>
              && parent.first <= child.first && child.End() <= parent.End()
              && forall v :: v in y.s ==> v in y.sp && (child.first + child.pages <= y.sp[v].first || y.sp[v].end <= child.first)
  {
    assert forall v :: v in y.sp <==> v in Elems(y.s);
  }

  /** vmar_unmap; the kernel stops if one of its assertions fails. */
  method DoUnmap(c: Command, vmars: seq<Vmar>, ghost x: Space, ghost s: Shot) returns (stop: bool, ghost x': Space)
    requires RunOk(vmars, x) && c.Unmap? && MayIssue(c) && s == ShotOf(vmars, x.all)
    modifies x.all, Roots(x.all)
    ensures RunOk(vmars, x') && x'.all == x.all && Follows(c, s, ShotOf(vmars, x.all), stop)
  {
    stop, x' := false, x;
    if c.target < |vmars| {
      Member(vmars, x, c.target);
      stop, x' := UnmapAt(c, vmars[c.target], vmars, x, s);
    }
  }

  method UnmapAt(ghost c: Command, v: Vmar, ghost vmars: seq<Vmar>, ghost x: Space, ghost s: Shot) returns (stop: bool, ghost x': Space)
    requires RunOk(vmars, x) && s == ShotOf(vmars, x.all) && v in x.all && c.Unmap? && c.target < |vmars| && v == vmars[c.target]
    modifies x.all`left, x.all`right, x.all`rbParent, x.all`black, x.all`maxGap, x.all`gap
    modifies x.all`prev, x.all`next, x.all`parent, x.all`unmapped, Roots(x.all)
    ensures RunOk(vmars, x') && x'.all == x.all && Follows(c, s, ShotOf(vmars, x.all), stop)
  {
    ghost var gone;
    var o;
    Unsettle(s, x);
    ghost var below := if v in s.up then Below(s.up, x.depth, v) else {};
    Families(s, x, v);
    ghost var free := Unhindered(Whole(s.up, x.depth, v), s.dead);
    o, x', gone := UnmapBrief(v, x, s.up, s.dead, below, free);
    stop := o.Stopped?;
    Removed(s, x, x', gone);
    UnmapDoes(c, s, v, o, gone, below, free);
  }

  /** Unmap, and what of it matters to the machine. */
  method UnmapBrief(v: Vmar, ghost x: Space, ghost up: Parents, ghost dead: set<Vmar>, ghost below: set<Vmar>, ghost free: bool)
      returns (o: Outcome, ghost x': Space, ghost gone: set<Vmar>)
    requires SpaceOk(x) && v in x.all && up == Ups(x.all) && dead == Dead(x.all)
    requires below == (if v in up then Below(up, x.depth, v) else {}) && free == Unhindered(Whole(up, x.depth, v), dead)
    modifies x.all`left, x.all`right, x.all`rbParent, x.all`black, x.all`maxGap, x.all`gap
    modifies x.all`prev, x.all`next, x.all`parent, x.all`unmapped, Roots(x.all)
    ensures SpaceOk(x') && x'.all == x.all && Ups(x.all) == Minus(up, gone) && Dead(x.all) == dead + gone
    ensures v in dead ==> o.Completed? && gone == {}
    ensures v !in dead ==> (o.Completed? <==> v in up && free) && gone == if o.Completed? then below + {v} else gone * below
  {
    ghost var at;
    var log;
    o, log, x', at, gone := VmarNested.Unmap(v, x, up, dead);
  }

  lemma UnmapDoes(c: Command, s: Shot, v: Vmar, o: Outcome, gone: set<Vmar>, below: set<Vmar>, free: bool)
    requires c.Unmap? && c.target < |s.vmars| && v == s.vmars[c.target] && below <= s.up.Keys
    requires v in s.dead ==> o.Completed? && gone == {}
    requires v !in s.dead ==> (o.Completed? <==> v in s.up && free) && gone == if o.Completed? then below + {v} else gone * below
    requires if v in s.up then below == Family(s.up, v) - {v} && v in Family(s.up, v) && (free <==> Family(s.up, v) !! s.dead + s.locked + s.special)
             else below == {}
    ensures Follows(c, s, s.(up := Minus(s.up, gone), dead := s.dead + gone), o.Stopped?)
  {
    var s' := s.(up := Minus(s.up, gone), dead := s.dead + gone);
    assert s.up.Keys - s'.up.Keys == gone;
    assert gone == {} ==> s' == s;
    assert Does(c, s, s', o.Stopped?);
  }

  /** The family of v, by the depths, and whether anything in it is in the way. */
  lemma Families(s: Shot, x: Space, v: Vmar)
    requires SpaceOk(x) && Fixed(s, x.all) && s.up == Ups(x.all) && s.dead == Dead(x.all)
    ensures v in s.up ==>
              && Below(s.up, x.depth, v) == Family(s.up, v) - {v} && v in Family(s.up, v)
              && (Unhindered(Whole(s.up, x.depth, v), s.dead) <==> Family(s.up, v) !! s.dead + s.locked + s.special)
  {
    if v in s.up {
      assert Ranked(s.up, x.depth) && v !in Below(s.up, x.depth, v) by { DepthsFall(x, v); }
      FamilyIs(s.up, x.depth, v);
      assert FixedAt(0, s, x.all);
    }
  }

  lemma FamilyIs(up: Parents, depth: map<Vmar, nat>, v: Vmar)
    requires Ranked(up, depth) && v in up
    ensures Family(up, v) == Whole(up, depth, v)
  {
    forall u | u in up
      ensures u in Family(up, v) ==> u in Whole(up, depth, v)
      ensures u in Whole(up, depth, v) ==> u in Family(up, v)
    {
      if u in Family(up, v) {
        var n: nat :| Within(up, v, u, n);
        StepsUnder(up, depth, v, u, n);
      }
      if u in Whole(up, depth, v) {
        var n := Steps(up, depth, v, u);
      }
    }
  }

  lemma {:induction false} Steps(up: Parents, depth: map<Vmar, nat>, v: Vmar, u: Vmar) returns (n: nat)
    requires AtOrUnder(up, depth, v, u)
    ensures Within(up, v, u, n)
    decreases if u in depth then depth[u] else 0
  {
    if u == v {
      return 0;
    }
    n := Steps(up, depth, v, up[u]);
    n := n + 1;
  }

  lemma {:induction false} StepsUnder(up: Parents, depth: map<Vmar, nat>, v: Vmar, u: Vmar, n: nat)
    requires Ranked(up, depth) && Within(up, v, u, n)
    ensures AtOrUnder(up, depth, v, u)
  {
    if u != v {
      StepsUnder(up, depth, v, up[u], n - 1);
    }
  }

  /** One call; stop if an assertion fails. */
  method Step(c: Command, vmars: seq<Vmar>, ghost x: Space, ghost s: Shot) returns (stop: bool, vmars': seq<Vmar>, ghost x': Space)
    requires RunOk(vmars, x) && MayIssue(c) && s == ShotOf(vmars, x.all)
    modifies x.all, Roots(x.all)
    ensures RunOk(vmars', x') && x.all <= x'.all && forall v :: v in x'.all - x.all ==> fresh(v) && fresh(v.children)
    ensures Follows(c, s, ShotOf(vmars', x'.all), stop)
  {
    stop, vmars' := false, vmars;
    match c
    case Link(_, _, _, _, _) => stop, vmars', x' := DoLink(c, vmars, x, s);
    case Allocate(_, _, _, _) => vmars', x' := DoAllocate(c, vmars, x, s);
    case Map(_, _, _, _, _) => vmars', x' := DoMap(c, vmars, x, s);
    case Unmap(_) => stop, x' := DoUnmap(c, vmars, x, s);
  }

  /** The same within a set of objects that grows by new ones. */
  method StepIn(c: Command, vmars: seq<Vmar>, ghost x: Space, ghost s: Shot, ghost mine: set<object>)
      returns (stop: bool, vmars': seq<Vmar>, ghost x': Space, ghost mine': set<object>)
    requires RunOk(vmars, x) && MayIssue(c) && s == ShotOf(vmars, x.all) && x.all + Roots(x.all) <= mine
    modifies mine
    ensures RunOk(vmars', x') && Follows(c, s, ShotOf(vmars', x'.all), stop)
    ensures x'.all + Roots(x'.all) <= mine' && fresh(mine' - mine)
  {
    stop, vmars', x' := Step(c, vmars, x, s);
    ghost var more := x'.all - x.all;
    mine' := mine + more + Roots(more);
  }

  /** Any run: whatever is called, the machine does the same, and at the end every region is right. */
  method Run(first: nat, pages: nat, commands: seq<Command>) returns (vmars: seq<Vmar>, stop: bool, ghost x: Space, ghost trace: seq<Shot>)
    requires first + pages <= PAGE_LIMIT && forall c :: c in commands ==> MayIssue(c)
    ensures RunOk(vmars, x) && forall r :: r in x.trees ==> Balanced(x, r)
    ensures IsRun(commands, trace, stop) && (stop || |trace| == |commands| + 1)
    ensures trace[0].vmars != [] && trace[0] == Start(trace[0].vmars[0], first, pages)
    ensures trace[|trace| - 1] == ShotOf(vmars, x.all)
  {
    var root := NewRootRegion(first, pages);
    vmars, x := [root], RootSpace(root);
    ghost var start := ShotOf(vmars, x.all);
    trace, stop := [start], false;
    ghost var mine: set<object> := {root, root.children};
    var i := 0;
    while i < |commands| && !stop
      invariant i <= |commands| && RunOk(vmars, x) && |trace| == i + 1
      invariant Tracks(commands, trace, stop, start, ShotOf(vmars, x.all))
      invariant x.all + Roots(x.all) <= mine && fresh(mine)
    {
      ghost var s := ShotOf(vmars, x.all);
      var c := commands[i];
      assert c in commands;
      stop, vmars, x, mine := StepIn(c, vmars, x, s, mine);
      ghost var s' := ShotOf(vmars, x.all);
      TrackOn(commands, trace, stop, start, s, s');
      trace := trace + [s'];
      i := i + 1;
    }
    assert TracksAt(0, commands, trace, stop, start, ShotOf(vmars, x.all));
    OpenRun(vmars, x);
    AllBalanced(x);
  }

  lemma AllBalanced(x: Space)
    requires SpaceOk(x)
    ensures forall r :: r in x.trees ==> Balanced(x, r)
  {
    forall r | r in x.trees
      ensures Balanced(x, r)
    {
      RegionBalance(x, r);
    }
  }

  /** An empty region that is linked nowhere. */
  method NewRootRegion(first: nat, pages: nat) returns (root: Vmar)
    requires first + pages <= PAGE_LIMIT
    ensures fresh(root) && fresh(root.children) && RunOk([root], RootSpace(root)) && ShotOf([root], {root}) == Start(root, first, pages)
  {
    root := new Vmar(Region);
    root.first, root.pages := first, pages;
    RootSpaceOk(root);
    assert Elems([root]) == {root};
    assert Spans({root}) == map[root := Span(first, first + pages)];
  }
}
