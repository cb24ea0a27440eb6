/** The address space (src/mem/vmar.c): regions nested in regions, each with its own tree of children.
    `vmar_link`, `vmar_allocate_static`, `vmar_allocate`, `vmar_map`. */
module VmarSpace {
  import opened VmarNode
  import opened RbTree
  import opened RbLinked
  import opened VmarGaps
  import opened VmarRegion
  import opened VmarPlace
  import opened VmarUnder

  /** The vmars of an address space, the child tree of each region, and how deep each vmar is nested. */
  datatype Space = Space(all: set<Vmar>, trees: map<Vmar, Tree>, depth: map<Vmar, nat>, bound: nat)

  ghost predicate SaneAt(k: int, r: Vmar, t: Tree)
    reads r`first, r`pages, r.children, Nodes(t)`left, Nodes(t)`right, Nodes(t)`rbParent, Nodes(t)`black, Nodes(t)`gap
    reads Nodes(t)`maxGap, Nodes(t)`prev, Nodes(t)`next, Nodes(t)`first, Nodes(t)`pages, Nodes(t)`parent
  {
    k == 0 ==> RegionOk(r, t)
  }

  /** RegionOk, closed to proofs that only pass it on (as Valid is). */
  ghost predicate Sane(r: Vmar, t: Tree)
    reads r`first, r`pages, r.children, Nodes(t)`left, Nodes(t)`right, Nodes(t)`rbParent, Nodes(t)`black, Nodes(t)`gap
    reads Nodes(t)`maxGap, Nodes(t)`prev, Nodes(t)`next, Nodes(t)`first, Nodes(t)`pages, Nodes(t)`parent
  {
    forall k :: SaneAt(k, r, t)
  }

  lemma OpenRegion(r: Vmar, t: Tree)
    requires Sane(r, t)
    ensures RegionOk(r, t)
  {
    assert SaneAt(0, r, t);
  }

  lemma FoldRegion(r: Vmar, t: Tree)
    requires RegionOk(r, t)
    ensures Sane(r, t)
  {
    forall k ensures SaneAt(k, r, t) {
    }
  }

  lemma SaneOwned(r: Vmar, t: Tree)
    requires Sane(r, t)
    ensures r !in Nodes(t) && Owned(r, Nodes(t))
  {
    OpenRegion(r, t);
  }

  ghost predicate AllSane(trees: map<Vmar, Tree>)
    reads set r <- trees.Keys, v <- Nodes(trees[r]) :: v
    reads trees.Keys, set r <- trees.Keys :: r.children
  {
    forall r :: r in trees ==> Sane(r, trees[r])
  }

  /** Exactly the regions have a tree, and a list head of their own. */
  ghost predicate ShapeOk(all: set<Vmar>, trees: map<Vmar, Tree>)
    reads all`kind
  {
    && trees.Keys <= all
    && (forall r :: r in trees ==> r.kind.Region? && Nodes(trees[r]) <= all)
    && (forall v :: v in all && v.kind.Region? ==> v in trees)
    && (forall r, q :: r in trees && q in trees && r != q ==> r.children != q.children)
  }

  /** Every linked vmar is in the tree of its parent, and lies deeper. */
  ghost predicate Nesting(x: Space, up: Parents) {
    && x.depth.Keys == x.all && Ranked(up, x.depth)
    && (forall v :: v in x.all ==> x.depth[v] <= x.bound)
    && (forall v :: v in up ==> v in x.all && up[v] in x.trees && up[v] in x.all && v in Nodes(x.trees[up[v]]))
  }

  ghost predicate NestingOk(x: Space)
    reads x.all`parent, x.all`first, x.all`pages
  {
    Nesting(x, Ups(x.all)) && Bounded(x.all)
  }

  /** All ranges end inside the address space. */
  ghost predicate Bounded(all: set<Vmar>)
    reads all`first, all`pages
  {
    forall v :: v in all ==> v.End() <= PAGE_LIMIT
  }

  ghost predicate SpaceParts(x: Space)
    reads x.all, set v | v in x.all :: v.children
  {
    ShapeOk(x.all, x.trees) && AllSane(x.trees) && NestingOk(x)
  }

  ghost predicate SpaceAt(k: int, x: Space)
    reads x.all, set v | v in x.all :: v.children
  {
    k == 0 ==> SpaceParts(x)
  }

  /** What every operation on the address space keeps. */
  ghost predicate SpaceOk(x: Space)
    reads x.all, set v | v in x.all :: v.children
  {
    forall k :: SpaceAt(k, x)
  }

  lemma OpenSpace(x: Space)
    requires SpaceOk(x)
    ensures SpaceParts(x)
  {
    assert SpaceAt(0, x);
  }

  lemma FoldSpace(x: Space)
    requires SpaceParts(x)
    ensures SpaceOk(x)
  {
    forall k ensures SpaceAt(k, x) {
    }
  }

  lemma EmptyRegion(r: Vmar)
    requires r.children.node == null && r.children.leftmost == null
    ensures Sane(r, Nil)
  {
    assert Parts(r.children, Nil);
    Fold(r.children, Nil);
    FoldRegion(r, Nil);
  }

  // ----- a new vmar -----

  /** A vmar that is not part of the space yet; if it is a region, without children. */
  ghost predicate Spare(x: Space, child: Vmar)
    reads child`parent, child`kind, child.children
  {
    && child !in x.all && child.parent == null
    && (child.kind.Region? ==>
          && child.children.node == null && child.children.leftmost == null
          && forall r :: r in x.trees ==> r.children != child.children)
  }

  /** The space with child in it, linked nowhere. */
  ghost function Adopted(x: Space, child: Vmar, region: bool): Space {
    Space(x.all + {child}, if region then x.trees[child := Nil] else x.trees, x.depth[child := 0], x.bound)
  }

  lemma SaneToo(trees: map<Vmar, Tree>, trees': map<Vmar, Tree>)
    requires AllSane(trees) && forall r :: r in trees' ==> Sane(r, trees'[r]) || (r in trees && trees[r] == trees'[r])
    ensures AllSane(trees')
  {
    forall r | r in trees'
      ensures Sane(r, trees'[r])
    {
      assert r in trees && trees[r] == trees'[r] ==> Sane(r, trees[r]);
    }
  }

  lemma AdoptNesting(x: Space, child: Vmar, region: bool, up: Parents)
    requires Nesting(x, up) && child !in x.all
    ensures Nesting(Adopted(x, child, region), up) && child !in up && forall v :: v in up ==> up[v] != child
  {
  }

  lemma AdoptShape(x: Space, child: Vmar)
    requires ShapeOk(x.all, x.trees) && Spare(x, child)
    ensures var x' := Adopted(x, child, child.kind.Region?); ShapeOk(x'.all, x'.trees)
  {
  }

  lemma AdoptOk(x: Space, child: Vmar)
    requires SpaceOk(x) && Spare(x, child) && child.End() <= PAGE_LIMIT
    ensures var x' := Adopted(x, child, child.kind.Region?);
            && SpaceOk(x') && Ups(x'.all) == Ups(x.all) && forall u :: !Under(Ups(x.all), x'.depth, child, u)
  {
    var x', up := Adopted(x, child, child.kind.Region?), Ups(x.all);
    assert ShapeOk(x.all, x.trees) && AllSane(x.trees) && Nesting(x, up) && Bounded(x.all) by {
      OpenSpace(x);
    }
    AdoptNesting(x, child, child.kind.Region?, up);
    assert Ups(x'.all) == up by { assert AreUps(up, x'.all); }
    assert AllSane(x'.trees) by {
      if child.kind.Region? {
        EmptyRegion(child);
      }
      SaneToo(x.trees, x'.trees);
    }
    AdoptShape(x, child);
    FoldSpace(x');
    NothingUnder(up, x'.depth, child);
  }

  lemma EmptyRoot(r: Vmar, t: Tree)
    requires Sane(r, t) && InOrder(t) == []
    ensures Nodes(t) == {} && r.children.node == null && r.children.leftmost == null
  {
    NodesInOrder(t);
    OpenRegion(r, t);
    Open(r.children, t);
  }

  /** The space without an unlinked vmar. */
  ghost function Forgotten(x: Space, v: Vmar): Space {
    Space(x.all - {v}, x.trees - {v}, x.depth - {v}, x.bound)
  }

  /** An unlinked vmar without children can leave the space, and is spare then. */
  lemma ForgetOk(x: Space, v: Vmar)
    requires SpaceOk(x) && v in x.all && v.parent == null && (v in x.trees ==> InOrder(x.trees[v]) == [])
    ensures SpaceOk(Forgotten(x, v)) && Spare(Forgotten(x, v), v)
  {
    var x', up := Forgotten(x, v), Ups(x.all);
    assert ShapeOk(x.all, x.trees) && AllSane(x.trees) && Nesting(x, up) && Bounded(x.all) by {
      OpenSpace(x);
    }
    assert v in x.trees ==> Nodes(x.trees[v]) == {} && v.children.node == null && v.children.leftmost == null by {
      if v in x.trees {
        EmptyRoot(v, x.trees[v]);
      }
    }
    assert AllSane(x'.trees) by { SaneToo(x.trees, x'.trees); }
    assert ShapeOk(x'.all, x'.trees) by { ForgetShape(x, v); }
    assert Ups(x'.all) == up by { assert AreUps(up, x'.all); }
    ForgetNesting(x, v, up);
    FoldSpace(x');
  }

  lemma ForgetNesting(x: Space, v: Vmar, up: Parents)
    requires Nesting(x, up) && v !in up && (v in x.trees ==> Nodes(x.trees[v]) == {})
    ensures Nesting(Forgotten(x, v), up)
  {
    assert forall u :: u in up ==> up[u] != v;
  }

  lemma ForgetShape(x: Space, v: Vmar)
    requires ShapeOk(x.all, x.trees) && AllSane(x.trees) && v.parent == null
    ensures ShapeOk(Forgotten(x, v).all, Forgotten(x, v).trees)
  {
    forall r | r in x.trees
      ensures v !in Nodes(x.trees[r])
    {
      SaneOwned(r, x.trees[r]);
    }
  }

  // ----- vmar_link_internal -----

  /** The regions whose trees share nothing with a change to `nodes` and `root`. */
  ghost predicate Disjoint(others: map<Vmar, Tree>, nodes: set<Vmar>, root: RbRoot) {
    forall q :: q in others ==> Nodes(others[q]) !! nodes && q.children != root
  }

  method LinkApart(parent: Vmar, child: Vmar, ghost t: Tree, ghost others: map<Vmar, Tree>, ghost all: set<Vmar>)
      returns (ghost t': Tree, ghost at: nat)
    requires parent.kind.Region? && child.parent == null && Sane(parent, t) && AllSane(others)
    requires child !in Nodes(t) && child != parent && Fits(parent, child, Spans(Nodes(t)))
    requires Disjoint(others, Nodes(t) + {child}, parent.children) && forall q :: q in others ==> Nodes(others[q]) <= all
    modifies (Nodes(t) + {child})`left, (Nodes(t) + {child})`right, (Nodes(t) + {child})`rbParent
    modifies (Nodes(t) + {child})`black, (Nodes(t) + {child})`maxGap, (Nodes(t) + {child})`gap, child`parent
    modifies (Nodes(t) + {child})`prev, (Nodes(t) + {child})`next, parent.children
    ensures Sane(parent, t') && Nodes(t') == Nodes(t) + {child} && at <= |InOrder(t)| && child.parent == parent
    ensures InOrder(t') == InOrder(t)[..at] + [child] + InOrder(t)[at..] && AllSane(others)
  {
    OpenRegion(parent, t);
    t', at := LinkInternal(parent, child, t);
    assert child in Nodes(t');
    FoldRegion(parent, t');
  }

  /** The trees of the other regions. */
  ghost function Others(x: Space, r: Vmar): map<Vmar, Tree> {
    x.trees - {r}
  }

  lemma OthersApart(x: Space, r: Vmar)
    requires SpaceOk(x) && r in x.trees
    ensures Disjoint(Others(x, r), Nodes(x.trees[r]), r.children) && AllSane(Others(x, r))
    ensures forall q :: q in Others(x, r) ==> Nodes(Others(x, r)[q]) <= x.all
    ensures Sane(r, x.trees[r]) && r !in Nodes(x.trees[r]) && Nodes(x.trees[r]) <= x.all
  {
    OpenSpace(x);
    SaneOwned(r, x.trees[r]);
    forall q | q in Others(x, r)
      ensures Nodes(x.trees[q]) !! Nodes(x.trees[r])
    {
      SaneOwned(q, x.trees[q]);
    }
  }

  /** The space after child, which was in it already, was linked into parent, whose tree is now t'. */
  ghost predicate Linked(x: Space, x': Space, up: Parents, parent: Vmar, child: Vmar, t': Tree) {
    && parent in x.depth && x'.all == x.all && x'.trees == x.trees[parent := t'] && x'.depth.Keys == x.depth.Keys
    && x'.bound == x.bound + x.depth[parent] + 1
    && Moved(x.depth, x'.depth, {child} + Below(up, x.depth, child), x.depth[parent] + 1)
  }

  lemma LinkedNesting(x: Space, x': Space, up: Parents, parent: Vmar, child: Vmar, t': Tree)
    requires Nesting(x, up) && parent in x.trees && parent in x.all && child in x.all && child !in up
    requires !AtOrUnder(up, x.depth, child, parent) && Linked(x, x', up, parent, child, t')
    requires Nodes(t') == Nodes(x.trees[parent]) + {child}
    ensures Nesting(x', up[child := parent])
  {
    RankedWith(up, x.depth, x'.depth, child, parent);
  }

  lemma LinkedSane(x: Space, parent: Vmar, t': Tree)
    requires AllSane(Others(x, parent)) && Sane(parent, t')
    ensures AllSane(x.trees[parent := t'])
  {
    var trees := x.trees[parent := t'];
    forall r | r in trees
      ensures Sane(r, trees[r])
    {
      assert r != parent ==> r in Others(x, parent) && Others(x, parent)[r] == x.trees[r];
    }
  }

  lemma LinkedOk(x: Space, x': Space, up: Parents, parent: Vmar, child: Vmar, t': Tree)
    requires ShapeOk(x.all, x.trees) && Nesting(x, up) && Bounded(x.all)
    requires parent in x.trees && child in x.all && child !in up && Ups(x.all) == up[child := parent]
    requires AllSane(Others(x, parent)) && Sane(parent, t') && Nodes(t') == Nodes(x.trees[parent]) + {child}
    requires !AtOrUnder(up, x.depth, child, parent) && Linked(x, x', up, parent, child, t')
    ensures SpaceOk(x')
  {
    assert AllSane(x'.trees) by { LinkedSane(x, parent, t'); }
    assert NestingOk(x') by { LinkedNesting(x, x', up, parent, child, t'); }
    FoldSpace(x');
  }

  lemma UseSpace(x: Space, r: Vmar, child: Vmar)
    requires SpaceOk(x) && r in x.trees && child in x.all && child.parent == null
    ensures Disjoint(Others(x, r), Nodes(x.trees[r]) + {child}, r.children) && AllSane(Others(x, r))
    ensures forall q :: q in Others(x, r) ==> Nodes(Others(x, r)[q]) <= x.all
    ensures Sane(r, x.trees[r]) && r !in Nodes(x.trees[r]) && child !in Nodes(x.trees[r]) && Nodes(x.trees[r]) <= x.all
    ensures ShapeOk(x.all, x.trees) && Nesting(x, Ups(x.all)) && Bounded(x.all) && r.kind.Region? && r in x.depth && r in x.all
  {
    OthersApart(x, r);
    OpenSpace(x);
    forall q | q in x.trees
      ensures child !in Nodes(x.trees[q])
    {
      SaneOwned(q, x.trees[q]);
    }
  }

  /** The depths after child was linked into parent. */
  lemma NextSpace(x: Space, up: Parents, parent: Vmar, child: Vmar, t': Tree) returns (x': Space)
    requires parent in x.depth
    ensures Linked(x, x', up, parent, child, t')
  {
    var k := x.depth[parent] + 1;
    var d := Deepened(x.depth, {child} + Below(up, x.depth, child), k);
    x' := Space(x.all, x.trees[parent := t'], d, x.bound + k);
  }

  /** vmar_link_internal in the address space.  The child is any unlinked vmar of it, with whatever is under it,
      except that the parent must not be under it itself. */
  method LinkInSpace(parent: Vmar, child: Vmar, ghost x: Space, ghost up: Parents) returns (ghost x': Space, ghost at: nat)
    requires SpaceOk(x) && up == Ups(x.all) && parent in x.trees && child in x.all && child.parent == null
    requires !AtOrUnder(up, x.depth, child, parent) && Fits(parent, child, Spans(Nodes(x.trees[parent])))
    modifies x.all`left, x.all`right, x.all`rbParent, x.all`black, x.all`maxGap, x.all`gap
    modifies x.all`prev, x.all`next, child`parent, parent.children
    ensures SpaceOk(x') && parent in x'.trees && Linked(x, x', up, parent, child, x'.trees[parent])
    ensures child.parent == parent && Ups(x.all) == up[child := parent] && at <= |InOrder(x.trees[parent])|
    ensures InOrder(x'.trees[parent]) == InOrder(x.trees[parent])[..at] + [child] + InOrder(x.trees[parent])[at..]
  {
    ghost var t, t' := x.trees[parent], Nil;
    UseSpace(x, parent, child);
    t', at := LinkMember(parent, child, t, Others(x, parent), x.all, up);
    x' := NextSpace(x, up, parent, child, t');
    LinkedOk(x, x', up, parent, child, t');
  }

  method LinkMember(parent: Vmar, child: Vmar, ghost t: Tree, ghost others: map<Vmar, Tree>, ghost all: set<Vmar>, ghost up: Parents)
      returns (ghost t': Tree, ghost at: nat)
    requires parent.kind.Region? && child.parent == null && Sane(parent, t) && AllSane(others)
    requires child !in Nodes(t) && child != parent && Fits(parent, child, Spans(Nodes(t))) && Nodes(t) + {child} <= all
    requires Disjoint(others, Nodes(t) + {child}, parent.children) && (forall q :: q in others ==> Nodes(others[q]) <= all)
    requires up == Ups(all)
    modifies all`left, all`right, all`rbParent, all`black, all`maxGap, all`gap, child`parent
    modifies all`prev, all`next, parent.children
    ensures Sane(parent, t') && Nodes(t') == Nodes(t) + {child} && at <= |InOrder(t)| && child.parent == parent
    ensures InOrder(t') == InOrder(t)[..at] + [child] + InOrder(t)[at..] && AllSane(others)
    ensures Ups(all) == up[child := parent]
  {
    t', at := LinkApart(parent, child, t, others, all);
    UpsWith(all, up, child, parent);
  }

  lemma UpsWith(all: set<Vmar>, up: Parents, child: Vmar, parent: Vmar)
    requires child in all && child.parent == parent && child !in up
    requires forall v :: v in all && v != child ==> if v in up then v.parent == up[v] else v.parent == null
    requires up.Keys <= all
    ensures Ups(all) == up[child := parent]
  {
    assert AreUps(up[child := parent], all);
  }

  /** No linked vmar is marked as unmapped. */
  ghost predicate Alive(all: set<Vmar>)
    reads all`parent, all`unmapped
  {
    forall v :: v in all && v.parent != null ==> !v.unmapped
  }

  lemma PlaceIsRoom(parent: Vmar, child: Vmar, t: Tree, y: Layout, offset: nat)
    requires RegionOk(parent, t) && y == LayoutOf(parent, t) && Wanted(y, offset, child.pages, child.first)
    ensures Fits(parent, child, Spans(Nodes(t)))
  {
    ValidOrder(parent.children, t);
    FreeFits(parent, child, t, y);
  }

  lemma RegionOf(x: Space, r: Vmar, child: Vmar)
    requires SpaceOk(x) && r in x.trees && child !in x.all
    ensures RegionOk(r, x.trees[r]) && child !in Nodes(x.trees[r]) && r.End() <= PAGE_LIMIT
  {
    OpenSpace(x);
    OpenRegion(r, x.trees[r]);
  }

  /** vmar_find_place in the address space. */
  method PlaceInSpace(parent: Vmar, child: Vmar, offset: nat, pageCount: nat, ghost x: Space, ghost y: Layout) returns (s: Status)
    requires SpaceOk(x) && parent in x.trees && parent in x.all && child !in x.all && pageCount != 0 && offset <= ANY_OFFSET
    requires y == LayoutOf(parent, x.trees[parent])
    modifies child`first, child`pages
    ensures SpaceOk(x)
    ensures s == if !parent.unmapped && HasPlace(y, offset, pageCount) then Success else InternalError
    ensures s.Success? ==> Wanted(y, offset, pageCount, child.first) && child.pages == pageCount
    ensures s.Success? ==> Fits(parent, child, Spans(Nodes(x.trees[parent])))
  {
    ghost var t := x.trees[parent];
    RegionOf(x, parent, child);
    s := FindPlace(parent, child, offset, pageCount, t, y);
    if s.Success? {
      PlaceIsRoom(parent, child, t, y, offset);
    }
  }

  /** What vmar_allocate_static and vmar_map report. */
  ghost function PlaceStatus(parent: Vmar, y: Layout, offset: nat, pageCount: nat): Status
    reads parent`kind, parent`unmapped
  {
    if !parent.kind.Region? || pageCount == 0 then InvalidArgument
    else if !parent.unmapped && HasPlace(y, offset, pageCount) then Success
    else InternalError
  }

  /** The layout of a region's children, of nothing for other kinds. */
  ghost function ChildLayout(parent: Vmar, x: Space): Layout
    reads parent`first, parent`pages, (if parent in x.trees then Nodes(x.trees[parent]) else {})
  {
    if parent in x.trees then LayoutOf(parent, x.trees[parent]) else Layout([], map[], 0, 0)
  }

  /** child is in the space, at the wanted page and in its sorted place among parent's children. */
  ghost predicate Placed(x: Space, x': Space, parent: Vmar, child: Vmar, y: Layout, offset: nat, pageCount: nat, at: nat)
    reads child`kind, child`first, child`pages, child`parent
  {
    && parent in x.trees && child !in x.all && x'.all == x.all + {child} && parent in x'.trees
    && x'.trees == (if child.kind.Region? then x.trees[child := Nil] else x.trees)[parent := x'.trees[parent]]
    && Wanted(y, offset, pageCount, child.first) && child.pages == pageCount && child.parent == parent
    && at <= |y.s| && InOrder(x'.trees[parent]) == y.s[..at] + [child] + y.s[at..]
  }

  /** A new vmar is linked where it is. */
  method LinkNew(parent: Vmar, child: Vmar, ghost x: Space, ghost up: Parents) returns (ghost x': Space, ghost at: nat)
    requires SpaceOk(x) && up == Ups(x.all) && parent in x.trees && Spare(x, child) && Fits(parent, child, Spans(Nodes(x.trees[parent])))
    modifies (x.all + {child})`left, (x.all + {child})`right, (x.all + {child})`rbParent
    modifies (x.all + {child})`black, (x.all + {child})`maxGap, (x.all + {child})`gap, child`parent
    modifies (x.all + {child})`prev, (x.all + {child})`next, parent.children
    ensures SpaceOk(x') && x'.all == x.all + {child} && parent in x'.trees && child !in x.all && child.parent == parent
    ensures x'.trees == (if child.kind.Region? then x.trees[child := Nil] else x.trees)[parent := x'.trees[parent]]
    ensures Ups(x'.all) == up[child := parent] && at <= |InOrder(x.trees[parent])|
    ensures InOrder(x'.trees[parent]) == InOrder(x.trees[parent])[..at] + [child] + InOrder(x.trees[parent])[at..]
  {
    assert parent in x.all && parent.End() <= PAGE_LIMIT && parent != child by { OpenSpace(x); }
    AdoptOk(x, child);
    x', at := LinkInSpace(parent, child, Adopted(x, child, child.kind.Region?), up);
  }

  /** Find a place and, if the page tables could be reserved, link. */
  method PlaceAndLink(parent: Vmar, child: Vmar, offset: nat, pageCount: nat, reserveOk: bool, ghost x: Space, ghost y: Layout, ghost up: Parents)
      returns (s: Status, ghost x': Space, ghost at: nat)
    requires SpaceOk(x) && up == Ups(x.all) && parent in x.all && parent.kind.Region? && pageCount != 0
    requires Spare(x, child) && offset <= ANY_OFFSET && y == ChildLayout(parent, x)
    modifies child`first, child`pages, (x.all + {child})`left, (x.all + {child})`right, (x.all + {child})`rbParent
    modifies (x.all + {child})`black, (x.all + {child})`maxGap, (x.all + {child})`gap, child`parent
    modifies (x.all + {child})`prev, (x.all + {child})`next, parent.children
    ensures var p := PlaceStatus(parent, y, offset, pageCount); s == if p.Success? && !reserveOk then OutOfResources else p
    ensures SpaceOk(x') && Ups(x'.all) == if s.Success? then up[child := parent] else up
    ensures if s.Success? then Placed(x, x', parent, child, y, offset, pageCount, at) else x' == x
  {
    x', at := x, 0;
    assert parent in x.trees by { OpenSpace(x); }
    s := PlaceInSpace(parent, child, offset, pageCount, x, y);
    if s.Success? && !reserveOk {
      return OutOfResources, x, 0;
    }
    if s.Success? {
      x', at := LinkNew(parent, child, x, up);
    }
  }

  /** vmar_allocate_static */
  method AllocateStatic(parent: Vmar, child: Vmar, offset: nat, pageCount: nat, ghost x: Space, ghost y: Layout, ghost up: Parents)
      returns (s: Status, ghost x': Space, ghost at: nat)
    requires SpaceOk(x) && up == Ups(x.all) && parent in x.all && Spare(x, child) && offset <= ANY_OFFSET && y == ChildLayout(parent, x)
    modifies child`first, child`pages, (x.all + {child})`left, (x.all + {child})`right, (x.all + {child})`rbParent
    modifies (x.all + {child})`black, (x.all + {child})`maxGap, (x.all + {child})`gap, child`parent
    modifies (x.all + {child})`prev, (x.all + {child})`next, parent.children
    ensures s == PlaceStatus(parent, y, offset, pageCount) && SpaceOk(x')
    ensures s.InvalidArgument? <==> !parent.kind.Region? || pageCount == 0
    ensures s.InternalError? <==> parent.kind.Region? && pageCount != 0 && (parent.unmapped || !HasPlace(y, offset, pageCount))
    ensures Ups(x'.all) == if s.Success? then up[child := parent] else up
    ensures if s.Success? then Placed(x, x', parent, child, y, offset, pageCount, at) else x' == x
  {
    if !parent.kind.Region? || pageCount == 0 {
      return InvalidArgument, x, 0;
    }
    s, x', at := PlaceAndLink(parent, child, offset, pageCount, true, x, y, up);
  }

  /** A vmar as it is allocated: not locked, not unmapped. */
  ghost predicate New(child: Vmar, kind: Kind)
    reads child`kind, child`locked, child`unmapped
  {
    child.kind == kind && !child.locked && !child.unmapped
  }

  method NewVmar(kind: Kind, ghost x: Space) returns (v: Vmar)
    requires SpaceOk(x)
    ensures fresh(v) && fresh(v.children) && New(v, kind) && Spare(x, v) && SpaceOk(x)
  {
    assert forall r :: r in x.trees ==> r in x.all by { OpenSpace(x); }
    v := new Vmar(kind);
  }

  /** The common end of vmar_allocate and vmar_map, with the new vmar. */
  method PlaceNew(parent: Vmar, kind: Kind, offset: nat, pageCount: nat, reserveOk: bool, ghost x: Space, ghost y: Layout, ghost up: Parents)
      returns (s: Status, child: Vmar?, ghost x': Space, ghost at: nat)
    requires SpaceOk(x) && up == Ups(x.all) && parent in x.all && parent.kind.Region? && pageCount != 0
    requires offset <= ANY_OFFSET && y == ChildLayout(parent, x)
    modifies x.all`left, x.all`right, x.all`rbParent, x.all`black, x.all`maxGap, x.all`gap, x.all`prev, x.all`next
    modifies parent.children
    ensures var p := PlaceStatus(parent, y, offset, pageCount); s == if p.Success? && !reserveOk then OutOfResources else p
    ensures SpaceOk(x') && (child != null <==> s.Success?)
    ensures Ups(x'.all) == if s.Success? then up[child := parent] else up
    ensures if s.Success?
            then fresh(child) && fresh(child.children) && New(child, kind)
                 && Placed(x, x', parent, child, y, offset, pageCount, at)
            else x' == x
  {
    var v := NewVmar(kind, x);
    s, x', at := PlaceAndLink(parent, v, offset, pageCount, reserveOk, x, y, up);
    child := if s.Success? then v else null;
  }

  /** vmar_allocate; allocOk is the outcome of the allocation of the vmar. */
  method Allocate(parent: Vmar, offset: nat, pageCount: nat, allocOk: bool, ghost x: Space, ghost y: Layout, ghost up: Parents)
      returns (s: Status, child: Vmar?, ghost x': Space, ghost at: nat)
    requires SpaceOk(x) && up == Ups(x.all) && parent in x.all && offset <= ANY_OFFSET && y == ChildLayout(parent, x)
    modifies x.all`left, x.all`right, x.all`rbParent, x.all`black, x.all`maxGap, x.all`gap, x.all`prev, x.all`next
    modifies parent.children
    ensures var p := PlaceStatus(parent, y, offset, pageCount); s == if p.InvalidArgument? || allocOk then p else OutOfResources
    ensures s.InvalidArgument? <==> !parent.kind.Region? || pageCount == 0
    ensures s.InternalError? <==> parent.kind.Region? && pageCount != 0 && allocOk && (parent.unmapped || !HasPlace(y, offset, pageCount))
    ensures SpaceOk(x') && (child != null <==> s.Success?)
    ensures Ups(x'.all) == if s.Success? then up[child := parent] else up
    ensures if s.Success?
            then fresh(child) && fresh(child.children) && New(child, Region)
                 && Placed(x, x', parent, child, y, offset, pageCount, at)
            else x' == x
  {
    if !parent.kind.Region? || pageCount == 0 {
      return InvalidArgument, null, x, 0;
    }
    if !allocOk {
      return OutOfResources, null, x, 0;
    }
    s, child, x', at := PlaceNew(parent, Region, offset, pageCount, true, x, y, up);
  }

  /** vmar_map; allocOk and reserveOk are the outcomes of the allocation of the vmar and of
      virt_reserve_page_tables. */
  method Map(parent: Vmar, offset: nat, pageCount: nat, allocOk: bool, reserveOk: bool, ghost x: Space, ghost y: Layout, ghost up: Parents)
      returns (s: Status, child: Vmar?, ghost x': Space, ghost at: nat)
    requires SpaceOk(x) && up == Ups(x.all) && parent in x.all && offset <= ANY_OFFSET && y == ChildLayout(parent, x)
    modifies x.all`left, x.all`right, x.all`rbParent, x.all`black, x.all`maxGap, x.all`gap, x.all`prev, x.all`next
    modifies parent.children
    ensures var p := PlaceStatus(parent, y, offset, pageCount);
            s == if p.InvalidArgument? then p else if !allocOk then OutOfResources
                 else if p.Success? && !reserveOk then OutOfResources else p
    ensures s.InvalidArgument? <==> !parent.kind.Region? || pageCount == 0
    ensures s.InternalError? <==> parent.kind.Region? && pageCount != 0 && allocOk && (parent.unmapped || !HasPlace(y, offset, pageCount))
    ensures SpaceOk(x') && (child != null <==> s.Success?)
    ensures Ups(x'.all) == if s.Success? then up[child := parent] else up
    ensures if s.Success?
            then fresh(child) && fresh(child.children) && New(child, Mapping)
                 && Placed(x, x', parent, child, y, offset, pageCount, at)
            else x' == x
  {
    if !parent.kind.Region? || pageCount == 0 {
      return InvalidArgument, null, x, 0;
    }
    if !allocOk {
      return OutOfResources, null, x, 0;
    }
    s, child, x', at := PlaceNew(parent, Mapping, offset, pageCount, reserveOk, x, y, up);
  }

  /** The children of region r are inside and in order, so disjoint; every stored gap is the distance to the
      predecessor; and gaps, children and the tail together are as long as the region. */
  ghost predicate Balanced(x: Space, r: Vmar)
    reads r`first, r`pages, if r in x.trees then Nodes(x.trees[r]) else {}
  {
    r in x.trees &&
    var s, sp, g := InOrder(x.trees[r]), Spans(Nodes(x.trees[r])), GapOf(Nodes(x.trees[r]));
    && Inside(sp, s, r.first, r.End()) && (forall i :: 0 <= i < |s| ==> GapRight(g, sp, s, i, r.first))
    && (forall v :: v in s ==> v in g)
    && GapSum(g, s) + PageSum(sp, s) + (r.End() - GapStart(sp, s, |s|, r.first)) == r.pages
  }

  lemma RegionBalance(x: Space, r: Vmar)
    requires SpaceOk(x) && r in x.trees
    ensures Balanced(x, r)
  {
    OpenSpace(x);
    OpenRegion(r, x.trees[r]);
    Conservation(GapOf(Nodes(x.trees[r])), Spans(Nodes(x.trees[r])), InOrder(x.trees[r]), r.first, r.End());
  }

  /** The address space of one empty region. */
  ghost function RootSpace(r: Vmar): Space {
    Space({r}, map[r := Nil], map[r := 0], 0)
  }

  lemma RootSpaceOk(r: Vmar)
    requires r.kind.Region? && r.parent == null && r.children.node == null && r.children.leftmost == null && r.End() <= PAGE_LIMIT
    ensures SpaceOk(RootSpace(r)) && Ups({r}) == map[]
  {
    EmptyRegion(r);
    assert Ups({r}).Keys == {};
    FoldSpace(RootSpace(r));
  }
}
