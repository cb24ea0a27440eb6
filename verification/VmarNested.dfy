/** Operations that reach through nested regions (src/mem/vmar.c): `vmar_find_mapping`,
    `vmar_unmap_internal`, `vmar_unmap`, and `vmar_free`. */
module VmarNested {
  import opened VmarNode
  import opened RbTree
  import opened RbLinked
  import opened RbNeighbours
  import opened VmarGaps
  import opened VmarRegion
  import opened VmarUnder
  import opened VmarSpace

  // ----- vmar_find_mapping -----

  /** Children lie inside their regions. */
  ghost predicate Nested(up: Parents, sp: Ranges) {
    forall v :: v in up ==> v in sp && up[v] in sp && sp[up[v]].first <= sp[v].first && sp[v].end <= sp[up[v]].end
  }

  lemma {:induction false} UnderInside(up: Parents, depth: map<Vmar, nat>, sp: Ranges, a: Vmar, u: Vmar)
    requires Nested(up, sp) && Under(up, depth, a, u)
    ensures a in sp && u in sp && sp[a].first <= sp[u].first && sp[u].end <= sp[a].end
    decreases depth[u]
  {
    if up[u] != a {
      UnderInside(up, depth, sp, a, up[u]);
    }
  }

  lemma SpaceNested(x: Space)
    requires SpaceOk(x)
    ensures Nested(Ups(x.all), Spans(x.all))
  {
    OpenSpace(x);
    var up, sp := Ups(x.all), Spans(x.all);
    forall v | v in up
      ensures sp[up[v]].first <= sp[v].first && sp[v].end <= sp[up[v]].end
    {
      ChildInside(v, up[v], x.trees[up[v]]);
    }
  }

  lemma ChildInside(v: Vmar, r: Vmar, t: Tree)
    requires Sane(r, t) && v in Nodes(t)
    ensures r.first <= v.first && v.End() <= r.End()
  {
    OpenRegion(r, t);
    ValidOrder(r.children, t);
    var s, sp := InOrder(t), Spans(Nodes(t));
    assert v in Elems(s) && v in s;
    assert sp[v] == Span(v.first, v.End());
  }

  /** Two children of a region that hold the same page are one. */
  lemma OneHolds(r: Vmar, t: Tree, a: Vmar, b: Vmar, page: nat)
    requires Sane(r, t) && a in Nodes(t) && b in Nodes(t)
    requires a.first <= page < a.End() && b.first <= page < b.End()
    ensures a == b
  {
    OpenRegion(r, t);
    ValidOrder(r.children, t);
    var s, sp := InOrder(t), Spans(Nodes(t));
    assert a in Elems(s) && b in Elems(s);
    var i :| 0 <= i < |s| && s[i] == a;
    var j :| 0 <= j < |s| && s[j] == b;
    assert sp[s[i]] == Span(a.first, a.End()) && sp[s[j]] == Span(b.first, b.End());
  }

  /** u is a mapping under root that holds the page. */
  ghost predicate Hit(x: Space, root: Vmar, page: nat, u: Vmar)
    reads x.all`parent, u`kind, u`first, u`pages
  {
    u in x.all && u.kind.Mapping? && u.first <= page < u.End() && Under(Ups(x.all), x.depth, root, u)
  }

  /** vmar_find_internal: the child that holds the page, if one does. */
  method FindInternal(r: Vmar, page: nat, ghost x: Space) returns (found: Vmar?)
    requires SpaceOk(x) && r in x.all && r.kind.Region?
    ensures found != null ==> found in x.all && found.parent == r && found.first <= page < found.End()
    ensures found == null ==> forall v :: v in x.all && v.parent == r ==> !(v.first <= page < v.End())
    ensures found != null ==> x.depth.Keys == x.all && x.depth[r] < x.depth[found] <= x.bound
  {
    assert r in x.trees && Sane(r, x.trees[r]) by { OpenSpace(x); }
    ghost var t := x.trees[r];
    assert Valid(r.children, t) && Nodes(t) == Elems(InOrder(t)) && Owned(r, Nodes(t)) by {
      OpenRegion(r, t);
      ValidOrder(r.children, t);
    }
    found := Find(r.children, page, page + 1, t);
    OpenSpace(x);
    assert forall v :: v in InOrder(t) <==> v in Nodes(t) by {
      assert forall v :: v in InOrder(t) <==> v in Elems(InOrder(t));
    }
  }

  /** A mapping under r that holds the page is under, or is, the child that holds it. */
  lemma HitsGoDown(x: Space, r: Vmar, page: nat, u: Vmar) returns (c: Vmar)
    requires SpaceOk(x) && Hit(x, r, page, u)
    ensures c in x.all && c.parent == r && c.first <= page < c.End() && AtOrUnder(Ups(x.all), x.depth, c, u)
  {
    var up, sp := Ups(x.all), Spans(x.all);
    c := TopStep(up, x.depth, r, u);
    SpaceNested(x);
    if c != u {
      UnderInside(up, x.depth, sp, c, u);
    }
    assert sp[c] == Span(c.first, c.End()) && sp[u] == Span(u.first, u.End());
  }

  lemma SiblingsHold(x: Space, r: Vmar, a: Vmar, b: Vmar, page: nat)
    requires SpaceOk(x) && a in x.all && b in x.all && a.parent == b.parent == r
    requires a.first <= page < a.End() && b.first <= page < b.End()
    ensures a == b
  {
    OpenSpace(x);
    OneHolds(r, x.trees[r], a, b, page);
  }

  /** All the hits under r are at or under the child that was found; there are none if none was found. */
  lemma HitsFollow(x: Space, r: Vmar, page: nat, found: Vmar?, u: Vmar)
    requires SpaceOk(x) && Hit(x, r, page, u)
    requires found != null ==> found in x.all && found.parent == r && found.first <= page < found.End()
    requires found == null ==> forall v :: v in x.all && v.parent == r ==> !(v.first <= page < v.End())
    ensures found != null && AtOrUnder(Ups(x.all), x.depth, found, u)
  {
    var c := HitsGoDown(x, r, page, u);
    SiblingsHold(x, r, found, c, page);
  }

  /** Where the descent stands: the hits under root are those at or under v. */
  ghost predicate Narrowed(x: Space, root: Vmar, page: nat, v: Vmar?)
    reads x.all
  {
    forall u :: u in x.all && Hit(x, root, page, u) ==> v != null && AtOrUnder(Ups(x.all), x.depth, v, u)
  }

  lemma NarrowedStart(x: Space, root: Vmar, page: nat, found: Vmar?)
    requires SpaceOk(x)
    requires found != null ==> found in x.all && found.parent == root && found.first <= page < found.End()
    requires found == null ==> forall v :: v in x.all && v.parent == root ==> !(v.first <= page < v.End())
    ensures Narrowed(x, root, page, found)
  {
    forall u | u in x.all && Hit(x, root, page, u)
      ensures found != null && AtOrUnder(Ups(x.all), x.depth, found, u)
    {
      HitsFollow(x, root, page, found, u);
    }
  }

  lemma NarrowedStep(x: Space, root: Vmar, page: nat, v: Vmar, found: Vmar?)
    requires SpaceOk(x) && Narrowed(x, root, page, v) && v.kind.Region?
    requires found != null ==> found in x.all && found.parent == v && found.first <= page < found.End()
    requires found == null ==> forall c :: c in x.all && c.parent == v ==> !(c.first <= page < c.End())
    ensures Narrowed(x, root, page, found)
  {
    forall u | u in x.all && Hit(x, root, page, u)
      ensures found != null && AtOrUnder(Ups(x.all), x.depth, found, u)
    {
      HitsFollow(x, v, page, found, u);
    }
  }

  lemma {:induction false} NothingUnderLeaf(x: Space, v: Vmar, u: Vmar)
    requires SpaceOk(x) && Under(Ups(x.all), x.depth, v, u)
    ensures v.kind.Region?
    decreases x.depth[u]
  {
    OpenSpace(x);
    if u.parent != v {
      NothingUnderLeaf(x, v, u.parent);
    }
  }

  lemma UnderStep(x: Space, root: Vmar, v: Vmar, u: Vmar)
    requires SpaceOk(x) && u in x.all && u.parent == v && AtOrUnder(Ups(x.all), x.depth, root, v)
    ensures Under(Ups(x.all), x.depth, root, u)
  {
    OpenSpace(x);
  }

  /** vmar_find_mapping: the one mapping under root that holds the page, or null if there is none. */
  method FindMapping(root: Vmar, page: nat, ghost x: Space) returns (v: Vmar?)
    requires SpaceOk(x) && root in x.all && root.kind.Region?
    ensures v != null ==> v in x.all && Hit(x, root, page, v)
    ensures forall u :: u in x.all && Hit(x, root, page, u) ==> u == v
  {
    v := FindInternal(root, page, x);
    NarrowedStart(x, root, page, v);
    if v != null {
      UnderStep(x, root, root, v);
    }
    while v != null && v.kind.Region?
      invariant Narrowed(x, root, page, v)
      invariant v != null ==> v in x.all && v.first <= page < v.End() && Under(Ups(x.all), x.depth, root, v)
      invariant v != null ==> x.depth.Keys == x.all && x.depth[v] <= x.bound
      decreases v != null, if v != null then x.bound - x.depth[v] else 0
    {
      var r := v;
      v := FindInternal(r, page, x);
      NarrowedStep(x, root, page, r, v);
      if v != null {
        UnderStep(x, root, r, v);
      }
    }
    if v == null || !v.kind.Mapping? {
      LeafHits(x, root, page, v);
      return null;
    }
    LeafHits(x, root, page, v);
  }

  /** A leaf is the only hit at or under itself, and only if it is a mapping. */
  lemma LeafHits(x: Space, root: Vmar, page: nat, v: Vmar?)
    requires SpaceOk(x) && Narrowed(x, root, page, v) && (v != null ==> !v.kind.Region?)
    ensures forall u :: u in x.all && Hit(x, root, page, u) ==> u == v && u.kind.Mapping?
  {
    forall u | u in x.all && Hit(x, root, page, u)
      ensures u == v
    {
      if u != v {
        NothingUnderLeaf(x, v, u);
      }
    }
  }

  // ----- vmar_unmap_internal -----

  method Retire(v: Vmar, ghost p: Vmar, ghost t: Tree)
    requires Sane(p, t) && v !in Nodes(t)
    modifies v`parent, v`unmapped
    ensures Sane(p, t) && v.parent == null && v.unmapped
  {
    v.parent := null;
    v.unmapped := true;
  }

  /** The end of vmar_unmap_internal: v leaves the tree t of region p. */
  method UnlinkInternal(v: Vmar, p: Vmar, ghost t: Tree) returns (ghost t': Tree, ghost at: nat)
    requires RegionOk(p, t) && v in Nodes(t)
    modifies Nodes(t)`left, Nodes(t)`right, Nodes(t)`rbParent, Nodes(t)`black, Nodes(t)`maxGap, Nodes(t)`gap
    modifies Nodes(t)`prev, Nodes(t)`next, p.children, v`parent, v`unmapped
    ensures Sane(p, t') && Nodes(t') == Nodes(t) - {v}
    ensures at < |InOrder(t)| && InOrder(t)[at] == v && InOrder(t') == InOrder(t)[..at] + InOrder(t)[at + 1..]
    ensures v.parent == null && v.unmapped
  {
    ghost var y := LayoutOf(p, t);
    ghost var y';
    t', y', at := UnlinkChild(v, p, t, y, GapOf(Nodes(t)));
    FoldRegion(p, t');
    Retire(v, p, t');
  }

  method UnlinkApart(v: Vmar, p: Vmar, ghost t: Tree, ghost others: map<Vmar, Tree>, ghost all: set<Vmar>) returns (ghost t': Tree, ghost at: nat)
    requires Sane(p, t) && AllSane(others) && v in Nodes(t)
    requires Disjoint(others, Nodes(t), p.children) && forall q :: q in others ==> Nodes(others[q]) <= all
    modifies Nodes(t)`left, Nodes(t)`right, Nodes(t)`rbParent, Nodes(t)`black, Nodes(t)`maxGap, Nodes(t)`gap
    modifies Nodes(t)`prev, Nodes(t)`next, p.children, v`parent, v`unmapped
    ensures Sane(p, t') && AllSane(others) && Nodes(t') == Nodes(t) - {v}
    ensures at < |InOrder(t)| && InOrder(t)[at] == v && InOrder(t') == InOrder(t)[..at] + InOrder(t)[at + 1..]
    ensures v.parent == null && v.unmapped
  {
    assert RegionOk(p, t) by { OpenRegion(p, t); }
    t', at := UnlinkInternal(v, p, t);
  }

  lemma UnlinkedNesting(x: Space, x': Space, up: Parents, p: Vmar, v: Vmar, t': Tree)
    requires Nesting(x, up) && p in x.trees && v in up && up[v] == p && Nodes(t') == Nodes(x.trees[p]) - {v}
    requires x' == x.(trees := x.trees[p := t'])
    ensures Nesting(x', Minus(up, {v}))
  {
  }

  lemma UnlinkedOk(x: Space, x': Space, up: Parents, p: Vmar, v: Vmar, t': Tree)
    requires ShapeOk(x.all, x.trees) && p in x.trees && AllSane(Others(x, p)) && Sane(p, t')
    requires Nesting(x, up) && Bounded(x.all) && v in up && up[v] == p
    requires Nodes(t') == Nodes(x.trees[p]) - {v} && Ups(x.all) == Minus(up, {v}) && x' == x.(trees := x.trees[p := t'])
    ensures SpaceOk(x')
  {
    assert AllSane(x'.trees) by { LinkedSane(x, p, t'); }
    assert NestingOk(x') by { UnlinkedNesting(x, x', up, p, v, t'); }
    FoldSpace(x');
  }

  /** What an address space says of a linked vmar. */
  lemma LinkedMember(x: Space, up: Parents, p: Vmar, v: Vmar)
    requires SpaceOk(x) && up == Ups(x.all) && v in x.all && v.parent == p && p in x.trees
    ensures v in up && up[v] == p && v in Nodes(x.trees[p])
    ensures ShapeOk(x.all, x.trees) && Nesting(x, up) && Bounded(x.all)
  {
    OpenSpace(x);
  }

  method UnlinkInSpace(v: Vmar, p: Vmar, ghost x: Space, ghost up: Parents) returns (ghost x': Space, ghost at: nat)
    requires SpaceOk(x) && up == Ups(x.all) && v in x.all && v.parent == p && p in x.trees
    modifies x.all`left, x.all`right, x.all`rbParent, x.all`black, x.all`maxGap, x.all`gap
    modifies x.all`prev, x.all`next, p.children, v`parent, v`unmapped
    ensures SpaceOk(x') && p in x'.trees && x' == x.(trees := x.trees[p := x'.trees[p]]) && Ups(x.all) == Minus(up, {v})
    ensures var s := InOrder(x.trees[p]); at < |s| && s[at] == v && InOrder(x'.trees[p]) == s[..at] + s[at + 1..]
    ensures v.parent == null && v.unmapped
  {
    ghost var t := x.trees[p];
    LinkedMember(x, up, p, v);
    OthersApart(x, p);
    ghost var t';
    t', at := UnlinkMember(v, p, t, Others(x, p), x.all, up);
    x' := x.(trees := x.trees[p := t']);
    UnlinkedOk(x, x', up, p, v, t');
  }

  method UnlinkMember(v: Vmar, p: Vmar, ghost t: Tree, ghost others: map<Vmar, Tree>, ghost all: set<Vmar>, ghost up: Parents)
      returns (ghost t': Tree, ghost at: nat)
    requires Sane(p, t) && AllSane(others) && v in Nodes(t) && Nodes(t) <= all && up == Ups(all)
    requires Disjoint(others, Nodes(t), p.children) && forall q :: q in others ==> Nodes(others[q]) <= all
    modifies all`left, all`right, all`rbParent, all`black, all`maxGap, all`gap
    modifies all`prev, all`next, p.children, v`parent, v`unmapped
    ensures Sane(p, t') && AllSane(others) && Nodes(t') == Nodes(t) - {v} && Ups(all) == Minus(up, {v})
    ensures at < |InOrder(t)| && InOrder(t)[at] == v && InOrder(t') == InOrder(t)[..at] + InOrder(t)[at + 1..]
    ensures v.parent == null && v.unmapped
  {
    t', at := UnlinkApart(v, p, t, others, all);
    UpsWithout(all, up, v);
  }

  lemma UpsWithout(all: set<Vmar>, up: Parents, v: Vmar)
    requires v in all && v.parent == null && up.Keys <= all
    requires forall u :: u in all && u != v ==> if u in up then u.parent == up[u] else u.parent == null
    ensures Ups(all) == Minus(up, {v})
  {
    assert AreUps(Minus(up, {v}), all);
  }

  ghost function Roots(all: set<Vmar>): set<RbRoot> {
    set u | u in all :: u.children
  }

  /** The vmars that were unmapped. */
  ghost function Dead(all: set<Vmar>): set<Vmar>
    reads all`unmapped
  {
    set u | u in all && u.unmapped
  }

  // Which assertion of vmar_unmap_internal fails, if one does.

  /** The vmar is marked as unmapped, it is locked, it is special, or it is linked nowhere. */
  datatype Cause = Marked | Locked | Pinned | Unlinked

  datatype Outcome = Completed | Stopped(at: Vmar, cause: Cause)

  /** Nothing in vs was unmapped before, is locked, or is special. */
  ghost predicate Unhindered(vs: set<Vmar>, dead: set<Vmar>)
    reads vs`locked, vs`kind
  {
    forall u :: u in vs ==> u !in dead && !u.locked && !u.kind.Special?
  }

  /** A failed assertion is one that must fail: at a vmar at or under v. */
  ghost predicate Rightly(x: Space, up: Parents, dead: set<Vmar>, v: Vmar, o: Outcome)
    reads x.all`locked, x.all`kind
  {
    o.Stopped? ==>
      && o.at in x.all && AtOrUnder(up, x.depth, v, o.at)
      && match o.cause
         case Marked => o.at in dead
         case Locked => o.at.locked && o.at !in dead
         case Pinned => o.at.kind.Special? && !o.at.locked && o.at !in dead
         case Unlinked => o.at == v && v !in up && v !in dead && !v.locked
  }

  /** What is to be removed: v and all that is under it. */
  ghost function Whole(up: Parents, depth: map<Vmar, nat>, v: Vmar): set<Vmar> {
    Below(up, depth, v) + {v}
  }

  /** The unmapping stops exactly if something at or under v is marked, locked or special. */
  lemma StopsExactly(x: Space, up: Parents, dead: set<Vmar>, v: Vmar, o: Outcome)
    requires up.Keys <= x.all && v in up && v in x.all && Rightly(x, up, dead, v, o)
    requires o.Completed? ==> Unhindered(Whole(up, x.depth, v), dead)
    ensures o.Completed? <==> Unhindered(Whole(up, x.depth, v), dead)
  {
    assert o.Stopped? ==> o.at in Whole(up, x.depth, v);
  }

  ghost function MappingsOf(vs: set<Vmar>): set<Vmar>
    reads vs`kind
  {
    set u | u in vs && u.kind.Mapping?
  }

  /** The calls made on the way: virt_free of mappings, and OBJECT_PUT. */
  datatype Log = Log(freed: seq<Vmar>, put: seq<Vmar>)

  ghost predicate Once(s: seq<Vmar>, vs: set<Vmar>) {
    Distinct(s) && Elems(s) == vs
  }

  /** The mappings among vs were freed, each once, and the vmars in ws put, each once. */
  ghost predicate Logged(l: Log, vs: set<Vmar>, ws: set<Vmar>)
    reads vs`kind
  {
    Once(l.freed, MappingsOf(vs)) && Once(l.put, ws)
  }

  lemma OnceMore(a: seq<Vmar>, b: seq<Vmar>, vs: set<Vmar>, ws: set<Vmar>)
    requires Once(a, vs) && Once(b, ws) && vs !! ws
    ensures Once(a + b, vs + ws)
  {
    forall i, j | 0 <= i < j < |a + b|
      ensures (a + b)[i] != (a + b)[j]
    {
      assert i < |a| ==> a[i] in Elems(a);
      assert j >= |a| ==> b[j - |a|] in Elems(b);
    }
    assert Elems(a + b) == Elems(a) + Elems(b);
  }

  function Joined(a: Log, b: Log): Log {
    Log(a.freed + b.freed, a.put + b.put)
  }

  lemma LoggedMore(a: Log, b: Log, vs: set<Vmar>, ws: set<Vmar>)
    requires Logged(a, vs, vs) && Logged(b, ws, ws) && vs !! ws
    ensures Logged(Joined(a, b), vs + ws, vs + ws)
  {
    assert MappingsOf(vs + ws) == MappingsOf(vs) + MappingsOf(ws);
    OnceMore(a.freed, b.freed, MappingsOf(vs), MappingsOf(ws));
    OnceMore(a.put, b.put, vs, ws);
  }

  /** OBJECT_PUT of one more. */
  lemma PutMore(l: Log, v: Vmar, vs: set<Vmar>, ws: set<Vmar>)
    requires Logged(l, vs, ws) && v !in ws
    ensures Logged(l.(put := l.put + [v]), vs, ws + {v})
  {
    assert Once([v], {v});
    OnceMore(l.put, [v], ws, {v});
  }

  /** Only the tree of r and those of the vmars in `gone` differ. */
  ghost predicate SameBut(x: Space, x': Space, r: Vmar, gone: set<Vmar>) {
    && x'.all == x.all && x'.depth == x.depth && x'.bound == x.bound && x'.trees.Keys == x.trees.Keys
    && forall q :: q in x.trees && q != r && q !in gone ==> x'.trees[q] == x.trees[q]
  }

  /** s is one shorter, without v. */
  ghost predicate Dropped(s: seq<Vmar>, s': seq<Vmar>, v: Vmar, at: nat) {
    at < |s| && s[at] == v && s' == s[..at] + s[at + 1..]
  }

  /** vmar_unmap_internal: unless an assertion fails, v and all that is under it leaves the address space, nothing else
      does, virt_free is called once for each mapping that leaves, and all but v are put.  If one fails, only vmars
      under v have left. */
  method UnmapInternal(v: Vmar, ghost x: Space, ghost up: Parents, ghost dead: set<Vmar>)
      returns (o: Outcome, log: Log, ghost x': Space, ghost at: nat, ghost gone: set<Vmar>)
    requires SpaceOk(x) && v in x.all && v.parent != null && up == Ups(x.all) && dead == Dead(x.all)
    requires v in x.depth && x.depth[v] <= x.bound && v.parent in x.trees
    modifies x.all`left, x.all`right, x.all`rbParent, x.all`black, x.all`maxGap, x.all`gap
    modifies x.all`prev, x.all`next, x.all`parent, x.all`unmapped, Roots(x.all)
    ensures SpaceOk(x') && Ups(x.all) == Minus(up, gone) && Dead(x.all) == dead + gone && Rightly(x, up, dead, v, o)
    ensures o.Stopped? ==> gone <= Below(up, x.depth, v) && SameBut(x, x', v, Below(up, x.depth, v))
    ensures o.Completed? ==>
              && gone == Whole(up, x.depth, v) && SameBut(x, x', up[v], gone) && Done(gone, Below(up, x.depth, v), dead, log)
              && up[v] in x.trees && up[v] in x'.trees && Dropped(InOrder(x.trees[up[v]]), InOrder(x'.trees[up[v]]), v, at)
    decreases x.bound - x.depth[v], 5
  {
    NoneGone(x, v, up, dead);
    if v.unmapped {
      return Stopped(v, Marked), Log([], []), x, 0, {};
    }
    if v.locked {
      return Stopped(v, Locked), Log([], []), x, 0, {};
    }
    o, log, x', at, gone := UnmapChecked(v, x, up, dead);
    assert ResultAt(0, x, x', up, dead, v, o, log, at, gone);
  }

  /** The rest of it, after the assertions at the start. */
  method UnmapChecked(v: Vmar, ghost x: Space, ghost up: Parents, ghost dead: set<Vmar>)
      returns (o: Outcome, log: Log, ghost x': Space, ghost at: nat, ghost gone: set<Vmar>)
    requires SpaceOk(x) && v in x.all && v.parent != null && up == Ups(x.all) && dead == Dead(x.all) && v !in dead && !v.locked
    requires v in x.depth && x.depth[v] <= x.bound && v.parent in x.trees
    modifies x.all`left, x.all`right, x.all`rbParent, x.all`black, x.all`maxGap, x.all`gap
    modifies x.all`prev, x.all`next, x.all`parent, x.all`unmapped, Roots(x.all)
    ensures SpaceOk(x') && Result(x, x', up, dead, v, o, log, at, gone)
    decreases x.bound - x.depth[v], 4
  {
    var p := v.parent;
    ghost var below := Below(up, x.depth, v);
    ParentFacts(x, up, v, p);
    ghost var x1;
    o, log, x1, gone := UnmapBelow(v, x, up, dead);
    if o.Stopped? {
      x', at := x1, 0;
      HaltResult(x, x1, up, dead, v, o, log, gone);
    } else {
      x', at, gone := UnmapLast(v, p, x, x1, up, dead, below, o, log);
    }
  }

  /** What vmar_unmap_internal has done. */
  ghost predicate ResultParts(x: Space, x': Space, up: Parents, dead: set<Vmar>, v: Vmar, o: Outcome, log: Log, at: nat, gone: set<Vmar>)
    reads x.all`parent, x.all`unmapped, x.all`locked, x.all`kind
  {
    && gone <= x.all && Ups(x.all) == Minus(up, gone) && Dead(x.all) == dead + gone && Rightly(x, up, dead, v, o)
    && (o.Stopped? ==> gone <= Below(up, x.depth, v) && SameBut(x, x', v, Below(up, x.depth, v)))
    && (o.Completed? ==>
          && v in up && gone == Whole(up, x.depth, v) && SameBut(x, x', up[v], gone) && Done(gone, Below(up, x.depth, v), dead, log)
          && up[v] in x.trees && up[v] in x'.trees && Dropped(InOrder(x.trees[up[v]]), InOrder(x'.trees[up[v]]), v, at))
  }

  ghost predicate ResultAt(k: int, x: Space, x': Space, up: Parents, dead: set<Vmar>, v: Vmar, o: Outcome, log: Log, at: nat, gone: set<Vmar>)
    reads x.all`parent, x.all`unmapped, x.all`locked, x.all`kind
  {
    k == 0 ==> ResultParts(x, x', up, dead, v, o, log, at, gone)
  }

  /** The same, closed to proofs that only pass it on. */
  ghost predicate Result(x: Space, x': Space, up: Parents, dead: set<Vmar>, v: Vmar, o: Outcome, log: Log, at: nat, gone: set<Vmar>)
    reads x.all`parent, x.all`unmapped, x.all`locked, x.all`kind
  {
    forall k :: ResultAt(k, x, x', up, dead, v, o, log, at, gone)
  }

  lemma HaltResult(x: Space, x': Space, up: Parents, dead: set<Vmar>, v: Vmar, o: Outcome, log: Log, gone: set<Vmar>)
    requires o.Stopped? && gone <= Below(up, x.depth, v) && SameBut(x, x', v, Below(up, x.depth, v)) && up.Keys <= x.all
    requires Ups(x.all) == Minus(up, gone) && Dead(x.all) == dead + gone && Rightly(x, up, dead, v, o)
    ensures Result(x, x', up, dead, v, o, log, 0, gone)
  {
    assert ResultParts(x, x', up, dead, v, o, log, 0, gone);
  }

  lemma LastResult(x: Space, x': Space, up: Parents, dead: set<Vmar>, v: Vmar, p: Vmar, o: Outcome, log: Log, at: nat, gone: set<Vmar>)
    requires o.Completed? && v in up && up[v] == p && gone == Whole(up, x.depth, v) && v in x.all && up.Keys <= x.all
    requires Done(gone, Below(up, x.depth, v), dead, log) && SameBut(x, x', p, gone)
    requires Ups(x.all) == Minus(up, gone) && Dead(x.all) == dead + gone
    requires p in x.trees && p in x'.trees && Dropped(InOrder(x.trees[p]), InOrder(x'.trees[p]), v, at)
    ensures Result(x, x', up, dead, v, o, log, at, gone)
  {
    assert ResultParts(x, x', up, dead, v, o, log, at, gone);
  }

  ghost predicate DoneAt(k: int, gone: set<Vmar>, below: set<Vmar>, dead: set<Vmar>, log: Log)
    reads gone`locked, gone`kind
  {
    k == 0 ==> Unhindered(gone, dead) && Logged(log, gone, below)
  }

  /** What was done to the vmars in gone, closed to proofs that only pass it on. */
  ghost predicate Done(gone: set<Vmar>, below: set<Vmar>, dead: set<Vmar>, log: Log)
    reads gone`locked, gone`kind
  {
    forall k :: DoneAt(k, gone, below, dead, log)
  }

  lemma ParentFacts(x: Space, up: Parents, v: Vmar, p: Vmar)
    requires SpaceOk(x) && v in x.all && v.parent == p && up == Ups(x.all)
    ensures v in up && up[v] == p && p !in Below(up, x.depth, v) && v !in Below(up, x.depth, v) && p != v
  {
    LinkFacts(x, v);
    AboveStays(up, x.depth, v);
  }

  /** After all that was under v, v itself leaves. */
  method UnmapLast(v: Vmar, p: Vmar, ghost x: Space, ghost x1: Space, ghost up: Parents, ghost dead: set<Vmar>, ghost below: set<Vmar>,
                  ghost o: Outcome, ghost log: Log)
      returns (ghost x': Space, ghost at: nat, ghost gone: set<Vmar>)
    requires SpaceOk(x1) && v in x1.all && v.parent == p && SameBut(x, x1, v, below)
    requires v in up && up[v] == p && p !in below && v !in below && p != v && below == Below(up, x.depth, v)
    requires Ups(x1.all) == Minus(up, below) && Dead(x1.all) == dead + below && up.Keys <= x.all
    requires o.Completed? && Done(below + {v}, below, dead, log)
    modifies x1.all`left, x1.all`right, x1.all`rbParent, x1.all`black, x1.all`maxGap, x1.all`gap
    modifies x1.all`prev, x1.all`next, x1.all`parent, x1.all`unmapped, Roots(x1.all)
    ensures SpaceOk(x') && Result(x, x', up, dead, v, o, log, at, gone)
  {
    x', at := UnlinkFrom(v, p, x1, Minus(up, below), dead + below);
    gone := below + {v};
    MinusMinus(up, below, {v});
    SameThrough(x, x1, x', v, p, below);
    LastResult(x, x', up, dead, v, p, o, log, at, gone);
  }

  lemma NoneGone(x: Space, v: Vmar, up: Parents, dead: set<Vmar>)
    ensures Minus(up, {}) == up && dead + {} == dead && SameBut(x, x, v, Below(up, x.depth, v)) && AtOrUnder(up, x.depth, v, v)
  {
  }

  lemma SameThrough(x: Space, x1: Space, x2: Space, v: Vmar, p: Vmar, gone: set<Vmar>)
    requires SameBut(x, x1, v, gone) && SameBut(x1, x2, p, {v}) && p in x1.trees && p != v && p !in gone
    ensures SameBut(x, x2, p, gone + {v}) && p in x.trees && p in x2.trees && x1.trees[p] == x.trees[p]
  {
  }

  method UnlinkFrom(v: Vmar, p: Vmar, ghost x: Space, ghost up: Parents, ghost dead: set<Vmar>) returns (ghost x': Space, ghost at: nat)
    requires SpaceOk(x) && v in x.all && v.parent == p && up == Ups(x.all) && dead == Dead(x.all)
    modifies x.all`left, x.all`right, x.all`rbParent, x.all`black, x.all`maxGap, x.all`gap
    modifies x.all`prev, x.all`next, x.all`parent, x.all`unmapped, Roots(x.all)
    ensures SpaceOk(x') && SameBut(x, x', p, {v}) && Ups(x.all) == Minus(up, {v}) && Dead(x.all) == dead + {v}
    ensures p in x.trees && p in x'.trees && Dropped(InOrder(x.trees[p]), InOrder(x'.trees[p]), v, at)
  {
    LinkFacts(x, v);
    x', at := UnlinkInSpace(v, p, x, up);
  }

  /** What is under v goes first; a mapping gives its pages back. */
  method UnmapBelow(v: Vmar, ghost x: Space, ghost up: Parents, ghost dead: set<Vmar>)
      returns (o: Outcome, log: Log, ghost x': Space, ghost gone: set<Vmar>)
    requires SpaceOk(x) && v in x.all && v.parent != null && up == Ups(x.all) && dead == Dead(x.all)
    requires v in x.depth && x.depth[v] <= x.bound && v !in dead && !v.locked
    modifies x.all`left, x.all`right, x.all`rbParent, x.all`black, x.all`maxGap, x.all`gap
    modifies x.all`prev, x.all`next, x.all`parent, x.all`unmapped, Roots(x.all)
    ensures SpaceOk(x') && Ups(x.all) == Minus(up, gone) && Dead(x.all) == dead + gone && Rightly(x, up, dead, v, o)
    ensures gone <= Below(up, x.depth, v) && SameBut(x, x', v, Below(up, x.depth, v))
    ensures o.Completed? ==> gone == Below(up, x.depth, v) && Done(gone + {v}, gone, dead, log)
    decreases x.bound - x.depth[v], 3
  {
    if v.kind.Region? {
      assert v in x.trees by { LinkFacts(x, v); }
      o, log, x', gone := UnmapChildren(v, x, up, dead);
      if o.Completed? {
        RegionDone(log, gone, v, dead);
      }
    } else {
      NoneGone(x, v, up, dead);
      x', gone := x, {};
      o, log := UnmapLeaf(v, x, dead);
    }
  }

  /** A mapping gives its pages back; a special vmar must not be here. */
  method UnmapLeaf(v: Vmar, ghost x: Space, ghost dead: set<Vmar>) returns (o: Outcome, log: Log)
    requires SpaceOk(x) && v in x.all && v !in dead && !v.locked && !v.kind.Region?
    ensures Rightly(x, Ups(x.all), dead, v, o)
    ensures o.Completed? ==> Below(Ups(x.all), x.depth, v) == {} && Done({} + {v}, {}, dead, log)
  {
    if v.kind.Special? {
      return Stopped(v, Pinned), Log([], []);
    }
    LeafBelow(x, v);
    o, log := Completed, Log([v], []);
    LoggedMapping(v);
    assert Unhindered({} + {v}, dead);
  }

  lemma RegionDone(log: Log, gone: set<Vmar>, v: Vmar, dead: set<Vmar>)
    requires Logged(log, gone, gone) && Unhindered(gone, dead) && v.kind.Region? && v !in dead && !v.locked
    ensures Done(gone + {v}, gone, dead, log)
  {
    LoggedRegion(log, gone, v);
    assert Unhindered(gone + {v}, dead);
  }

  lemma LoggedRegion(log: Log, gone: set<Vmar>, v: Vmar)
    requires Logged(log, gone, gone) && v.kind.Region?
    ensures Logged(log, gone + {v}, gone)
  {
    assert MappingsOf(gone + {v}) == MappingsOf(gone);
  }

  lemma LoggedMapping(v: Vmar)
    requires v.kind.Mapping?
    ensures Logged(Log([v], []), {} + {v}, {})
  {
    assert MappingsOf({} + {v}) == {v};
  }

  lemma LinkFacts(x: Space, v: Vmar)
    requires SpaceOk(x) && v in x.all && v.parent != null
    ensures v in x.depth && v.parent in x.depth && x.depth[v.parent] < x.depth[v] <= x.bound
    ensures v.parent in x.all && v.parent in x.trees && (v.kind.Region? ==> v in x.trees)
  {
    OpenSpace(x);
    assert v in Ups(x.all);
  }

  lemma AboveStays(up: Parents, depth: map<Vmar, nat>, v: Vmar)
    requires v in up && up[v] in depth && v in depth && depth[up[v]] < depth[v]
    ensures v !in Below(up, depth, v) && up[v] !in Below(up, depth, v)
  {
    forall u | u in Below(up, depth, v)
      ensures depth[v] < depth[u]
    {
      UnderDeeper(up, depth, v, u);
    }
  }

  lemma LeafBelow(x: Space, v: Vmar)
    requires SpaceOk(x) && !v.kind.Region?
    ensures Below(Ups(x.all), x.depth, v) == {}
  {
    if u :| u in Below(Ups(x.all), x.depth, v) {
      NothingUnderLeaf(x, v, u);
    }
  }

  /** The first child of a region, and the one after it. */
  lemma FirstChild(v: Vmar, x: Space)
    requires SpaceOk(x) && v in x.trees
    ensures var s := InOrder(x.trees[v]);
            && v.children.leftmost == RbLinked.At(s, 0) && Distinct(s)
            && (s != [] ==> s[0] in x.all && s[0].parent == v && s[0].next == RbLinked.At(s, 1)
                            && s[0] in x.depth && v in x.depth && x.depth[v] < x.depth[s[0]] <= x.bound)
  {
    var t, s := x.trees[v], InOrder(x.trees[v]);
    assert Sane(v, t) && Nodes(t) <= x.all by { OpenSpace(x); }
    OpenRegion(v, t);
    ValidOrder(v.children, t);
    assert v.children.leftmost == RbLinked.At(s, 0) by { Open(v.children, t); }
    if s != [] {
      ValidNext(v.children, t, 0);
      assert s[0] in Elems(s);
      LinkFacts(x, s[0]);
    }
  }

  lemma GoingOn(x: Space, x1: Space, x2: Space, up: Parents, v: Vmar, gone: set<Vmar>, child: Vmar, more: set<Vmar>)
    requires SameBut(x, x1, v, gone) && SameBut(x1, x2, v, more)
    requires Closed(up, gone) && gone <= Below(up, x.depth, v)
    requires var up1 := Minus(up, gone);
             child in up1 && up1[child] == v && more == Below(up1, x.depth, child) + {child}
    requires Ranked(up, x.depth)
    ensures SameBut(x, x2, v, gone + more) && Closed(up, gone + more) && gone + more <= Below(up, x.depth, v)
    ensures Minus(Minus(up, gone), more) == Minus(up, gone + more) && gone !! more
  {
    MoreGone(up, x.depth, v, gone, child, gone + more);
    MinusMinus(up, gone, more);
  }

  /** How far the loop over the children of v has come. */
  ghost predicate Going(x: Space, x': Space, up: Parents, v: Vmar, gone: set<Vmar>, dead: set<Vmar>, log: Log)
    reads x.all`parent, x.all`unmapped, x.all`locked, x.all`kind
    requires gone <= x.all
  {
    && SameBut(x, x', v, gone) && Ups(x.all) == Minus(up, gone) && Dead(x.all) == dead + gone
    && Closed(up, gone) && gone <= Below(up, x.depth, v) && Unhindered(gone, dead) && Logged(log, gone, gone)
  }

  ghost predicate RoundsAt(k: int, x: Space, x': Space, up: Parents, v: Vmar, gone: set<Vmar>, dead: set<Vmar>, log: Log)
    requires gone <= x.all && x'.all == x.all
    reads x.all`parent, x.all`unmapped, x.all`locked, x.all`kind
  {
    k == 0 ==> Going(x, x', up, v, gone, dead, log)
  }

  /** The loop after some rounds, closed to the loop itself. */
  ghost predicate Rounds(x: Space, x': Space, up: Parents, v: Vmar, gone: set<Vmar>, dead: set<Vmar>, log: Log)
    reads x.all`parent, x.all`unmapped, x.all`locked, x.all`kind
  {
    gone <= x.all && x'.all == x.all && forall k :: RoundsAt(k, x, x', up, v, gone, dead, log)
  }

  lemma OpenRounds(x: Space, x': Space, up: Parents, v: Vmar, gone: set<Vmar>, dead: set<Vmar>, log: Log)
    requires Rounds(x, x', up, v, gone, dead, log)
    ensures Going(x, x', up, v, gone, dead, log)
  {
    assert RoundsAt(0, x, x', up, v, gone, dead, log);
  }

  /** What the loop has behind it, without the state of the vmars. */
  ghost predicate HalfwayAt(k: int, x: Space, x': Space, up: Parents, v: Vmar, gone: set<Vmar>, dead: set<Vmar>, log: Log)
    requires gone <= x.all
    reads x.all`locked, x.all`kind
  {
    k == 0 ==>
      && SameBut(x, x', v, gone) && Closed(up, gone) && gone <= Below(up, x.depth, v)
      && Unhindered(gone, dead) && Logged(log, gone, gone)
  }

  ghost predicate Halfway(x: Space, x': Space, up: Parents, v: Vmar, gone: set<Vmar>, dead: set<Vmar>, log: Log)
    reads x.all`locked, x.all`kind
  {
    gone <= x.all && forall k :: HalfwayAt(k, x, x', up, v, gone, dead, log)
  }

  /** The first child of v goes. */
  method UnmapFirst(child: Vmar, v: Vmar, ghost x1: Space, ghost up1: Parents, ghost dead1: set<Vmar>)
      returns (o: Outcome, log: Log, ghost x2: Space, ghost more: set<Vmar>)
    requires SpaceOk(x1) && up1 == Ups(x1.all) && dead1 == Dead(x1.all) && v in x1.depth && v in x1.trees && x1.depth[v] <= x1.bound
    requires InOrder(x1.trees[v]) != [] && child == InOrder(x1.trees[v])[0]
    modifies x1.all`left, x1.all`right, x1.all`rbParent, x1.all`black, x1.all`maxGap, x1.all`gap
    modifies x1.all`prev, x1.all`next, x1.all`parent, x1.all`unmapped, Roots(x1.all)
    ensures SpaceOk(x2) && Ups(x1.all) == Minus(up1, more) && Dead(x1.all) == dead1 + more && Rightly(x1, up1, dead1, child, o)
    ensures child in up1 && up1[child] == v
    ensures o.Stopped? ==> more <= Below(up1, x1.depth, child) && SameBut(x1, x2, child, Below(up1, x1.depth, child))
    ensures o.Completed? ==>
              && more == Below(up1, x1.depth, child) + {child} && SameBut(x1, x2, v, more)
              && InOrder(x2.trees[v]) == InOrder(x1.trees[v])[1..] && Unhindered(more, dead1) && Logged(log, more, more)
    decreases x1.bound - x1.depth[v], 0
  {
    FirstChild(v, x1);
    ghost var s := InOrder(x1.trees[v]);
    assert child in up1 && up1[child] == v;
    ghost var at;
    o, log, x2, at, more := UnmapInternal(child, x1, up1, dead1);
    if o.Completed? {
      assert DoneAt(0, more, Below(up1, x1.depth, child), dead1, log);
      assert at == 0 && s[..0] + s[1..] == s[1..];
      assert child !in Below(up1, x1.depth, child) by { DepthsFallAt(x1, up1, dead1, child, more, x2); }
      PutMore(log, child, more, Below(up1, x1.depth, child));
      log := log.(put := log.put + [child]);
    }
  }

  lemma DepthsFallAt(x: Space, up: Parents, dead: set<Vmar>, v: Vmar, gone: set<Vmar>, x': Space)
    requires SpaceOk(x') && x'.depth == x.depth && v in up && v in x.depth && up[v] in x.depth && x.depth[up[v]] < x.depth[v]
    ensures v !in Below(up, x.depth, v)
  {
    AboveStays(up, x.depth, v);
  }

  /** One round of the loop of vmar_unmap_internal. */
  method UnmapRound(child: Vmar, v: Vmar, ghost x: Space, ghost x1: Space, ghost up: Parents, ghost gone: set<Vmar>,
                    ghost dead: set<Vmar>, log: Log)
      returns (o: Outcome, log': Log, ghost x2: Space, ghost gone': set<Vmar>)
    requires SpaceOk(x1) && Rounds(x, x1, up, v, gone, dead, log) && v in x.depth && v in x.trees && x.depth[v] <= x.bound
    requires v in x1.trees && InOrder(x1.trees[v]) != [] && child == InOrder(x1.trees[v])[0]
    requires Ranked(up, x.depth) && v !in Below(up, x.depth, v)
    modifies x.all`left, x.all`right, x.all`rbParent, x.all`black, x.all`maxGap, x.all`gap
    modifies x.all`prev, x.all`next, x.all`parent, x.all`unmapped, Roots(x.all)
    ensures SpaceOk(x2)
    ensures o.Completed? ==> Rounds(x, x2, up, v, gone', dead, log') && v in x2.trees && InOrder(x2.trees[v]) == InOrder(x1.trees[v])[1..]
    ensures o.Stopped? ==> Halted(x, x2, up, v, gone', dead, o)
    decreases x.bound - x.depth[v], 1
  {
    ghost var up1, dead1 := Minus(up, gone), dead + gone;
    assert x1.all == x.all && x1.depth == x.depth && x1.bound == x.bound && up1 == Ups(x1.all) && dead1 == Dead(x1.all)
      && Halfway(x, x1, up, v, gone, dead, log) by {
      OpenRounds(x, x1, up, v, gone, dead, log);
    }
    ghost var more;
    var now;
    o, now, x2, more := UnmapFirst(child, v, x1, up1, dead1);
    log', gone' := Joined(log, now), gone + more;
    if o.Completed? {
      RoundOn(x, x1, x2, up, v, gone, dead, log, child, more, now);
    } else {
      RoundHalts(x, x1, x2, up, v, gone, dead, log, child, more, o);
    }
  }

  ghost predicate HaltedParts(x: Space, x': Space, up: Parents, v: Vmar, gone: set<Vmar>, dead: set<Vmar>, o: Outcome)
    reads x.all`parent, x.all`unmapped, x.all`locked, x.all`kind
  {
    && SameBut(x, x', v, Below(up, x.depth, v)) && Ups(x.all) == Minus(up, gone) && Dead(x.all) == dead + gone
    && gone <= Below(up, x.depth, v) && Rightly(x, up, dead, v, o)
  }

  ghost predicate HaltedAt(k: int, x: Space, x': Space, up: Parents, v: Vmar, gone: set<Vmar>, dead: set<Vmar>, o: Outcome)
    reads x.all`parent, x.all`unmapped, x.all`locked, x.all`kind
  {
    k == 0 ==> HaltedParts(x, x', up, v, gone, dead, o)
  }

  /** The loop when an assertion failed, closed to the loop itself. */
  ghost predicate Halted(x: Space, x': Space, up: Parents, v: Vmar, gone: set<Vmar>, dead: set<Vmar>, o: Outcome)
    reads x.all`parent, x.all`unmapped, x.all`locked, x.all`kind
  {
    forall k :: HaltedAt(k, x, x', up, v, gone, dead, o)
  }

  lemma RoundOn(x: Space, x1: Space, x2: Space, up: Parents, v: Vmar, gone: set<Vmar>, dead: set<Vmar>, log: Log,
                child: Vmar, more: set<Vmar>, now: Log)
    requires Halfway(x, x1, up, v, gone, dead, log) && SameBut(x1, x2, v, more) && more <= x.all
    requires v !in Below(up, x.depth, v) && Ranked(up, x.depth)
    requires var up1 := Minus(up, gone);
             && child in up1 && up1[child] == v && more == Below(up1, x.depth, child) + {child}
             && Ups(x.all) == Minus(up1, more)
    requires Dead(x.all) == dead + gone + more && Unhindered(more, dead + gone) && Logged(now, more, more)
    ensures Rounds(x, x2, up, v, gone + more, dead, Joined(log, now))
  {
    assert HalfwayAt(0, x, x1, up, v, gone, dead, log);
    GoingOn(x, x1, x2, up, v, gone, child, more);
    LoggedMore(log, now, gone, more);
  }

  lemma RoundHalts(x: Space, x1: Space, x2: Space, up: Parents, v: Vmar, gone: set<Vmar>, dead: set<Vmar>, log: Log,
                   child: Vmar, more: set<Vmar>, o: Outcome)
    requires Halfway(x, x1, up, v, gone, dead, log) && Ranked(up, x.depth)
    requires var up1 := Minus(up, gone);
             && child in up1 && up1[child] == v && more <= Below(up1, x.depth, child)
             && SameBut(x1, x2, child, Below(up1, x.depth, child)) && Ups(x.all) == Minus(up1, more)
             && Rightly(x1, up1, dead + gone, child, o) && o.Stopped?
    requires Dead(x.all) == dead + gone + more
    ensures Halted(x, x2, up, v, gone + more, dead, o)
  {
    assert HalfwayAt(0, x, x1, up, v, gone, dead, log);
    var up1 := Minus(up, gone);
    assert Under(up, x.depth, v, child);
    forall u | AtOrUnder(up1, x.depth, child, u)
      ensures Under(up, x.depth, v, u) && u !in gone
    {
      if u != child {
        UnderMinus(up, gone, x.depth, child, u);
        UnderTrans(up, x.depth, v, child, u);
      }
    }
    assert Below(up1, x.depth, child) + {child} <= Below(up, x.depth, v);
    MinusMinus(up, gone, more);
    assert HaltedParts(x, x2, up, v, gone + more, dead, o);
  }

  /** The loop of vmar_unmap_internal over the children of a region. */
  method UnmapChildren(v: Vmar, ghost x: Space, ghost up: Parents, ghost dead: set<Vmar>)
      returns (o: Outcome, log: Log, ghost x': Space, ghost gone: set<Vmar>)
    requires SpaceOk(x) && v in x.all && v.kind.Region? && up == Ups(x.all) && dead == Dead(x.all)
    requires v in x.depth && x.depth[v] <= x.bound && v in x.trees && v !in dead && !v.locked
    modifies x.all`left, x.all`right, x.all`rbParent, x.all`black, x.all`maxGap, x.all`gap
    modifies x.all`prev, x.all`next, x.all`parent, x.all`unmapped, Roots(x.all)
    ensures SpaceOk(x') && Ups(x.all) == Minus(up, gone) && Dead(x.all) == dead + gone && Rightly(x, up, dead, v, o)
    ensures gone <= Below(up, x.depth, v) && SameBut(x, x', v, Below(up, x.depth, v))
    ensures o.Completed? ==> gone == Below(up, x.depth, v) && Unhindered(gone, dead) && Logged(log, gone, gone)
    decreases x.bound - x.depth[v], 2
  {
    gone, o := {}, Completed;
    x', log := x, Log([], []);
    DepthsFall(x, v);
    FirstChild(v, x);
    var it := v.children.leftmost;
    assert Rounds(x, x', up, v, gone, dead, log) by { NoneGone(x, v, up, dead); }
    while it != null
      invariant SpaceOk(x') && Rounds(x, x', up, v, gone, dead, log) && v in x'.trees && it == RbLinked.At(InOrder(x'.trees[v]), 0)
      invariant o.Completed?
      decreases |InOrder(x'.trees[v])|
    {
      var child: Vmar := it;
      FirstChild(v, x');
      it := child.next;
      o, log, x', gone := UnmapRound(child, v, x, x', up, gone, dead, log);
      if o.Stopped? {
        assert HaltedAt(0, x, x', up, v, gone, dead, o);
        return;
      }
    }
    OpenRounds(x, x', up, v, gone, dead, log);
    NoChildLeft(x', v);
    NothingBelow(x, up, v, gone);
  }

  lemma NothingBelow(x: Space, up: Parents, v: Vmar, gone: set<Vmar>)
    requires Closed(up, gone) && gone <= Below(up, x.depth, v)
    requires forall u :: u in Minus(up, gone) ==> up[u] != v
    ensures gone == Below(up, x.depth, v)
  {
    forall u | u in Below(up, x.depth, v)
      ensures u in gone
    {
      AllGone(up, x.depth, v, gone, u);
    }
  }

  lemma DepthsFall(x: Space, v: Vmar)
    requires SpaceOk(x)
    ensures Ranked(Ups(x.all), x.depth) && v !in Below(Ups(x.all), x.depth, v)
  {
    OpenSpace(x);
    forall u | u in Below(Ups(x.all), x.depth, v)
      ensures u != v
    {
      UnderDeeper(Ups(x.all), x.depth, v, u);
    }
  }

  lemma NoChildLeft(x: Space, v: Vmar)
    requires SpaceOk(x) && v in x.trees && InOrder(x.trees[v]) == []
    ensures forall u :: u in x.all ==> u.parent != v
  {
    OpenSpace(x);
    NodesInOrder(x.trees[v]);
    forall u | u in x.all && u.parent != null
      ensures u in Nodes(x.trees[u.parent])
    {
      assert u in Ups(x.all);
    }
  }

  /** vmar_unmap: nothing happens to a vmar that is marked as unmapped; otherwise, unless an assertion fails, it leaves
      with all that is under it, and nothing else changes. */
  method Unmap(v: Vmar, ghost x: Space, ghost up: Parents, ghost dead: set<Vmar>)
      returns (o: Outcome, log: Log, ghost x': Space, ghost at: nat, ghost gone: set<Vmar>)
    requires SpaceOk(x) && v in x.all && up == Ups(x.all) && dead == Dead(x.all)
    modifies x.all`left, x.all`right, x.all`rbParent, x.all`black, x.all`maxGap, x.all`gap
    modifies x.all`prev, x.all`next, x.all`parent, x.all`unmapped, Roots(x.all)
    ensures SpaceOk(x') && x'.all == x.all && Ups(x.all) == Minus(up, gone) && Dead(x.all) == dead + gone
    ensures v in dead ==> o.Completed? && x' == x && gone == {} && log == Log([], [])
    ensures v !in dead ==>
              && (o.Completed? <==> v in up && Unhindered(Whole(up, x.depth, v), dead)) && Rightly(x, up, dead, v, o)
              && (o.Stopped? ==> gone <= if v in up then Below(up, x.depth, v) else {})
    ensures v !in dead && o.Completed? ==>
              && gone == Whole(up, x.depth, v) && SameBut(x, x', up[v], gone) && Logged(log, gone, gone)
              && up[v] in x.trees && up[v] in x'.trees && Dropped(InOrder(x.trees[up[v]]), InOrder(x'.trees[up[v]]), v, at)
  {
    NoneGone(x, v, up, dead);
    if v.unmapped {
      return Completed, Log([], []), x, 0, {};
    }
    if v.parent == null {
      return Stopped(v, if v.locked then Locked else Unlinked), Log([], []), x, 0, {};
    }
    LinkFacts(x, v);
    o, log, x', at, gone := UnmapInternal(v, x, up, dead);
    assert o.Completed? ==> DoneAt(0, gone, Below(up, x.depth, v), dead, log);
    StopsExactly(x, up, dead, v, o);
    if o.Completed? {
      AboveStays(up, x.depth, v);
      PutMore(log, v, gone, Below(up, x.depth, v));
      log := log.(put := log.put + [v]);
    }
  }

  // ----- vmar_free -----

  /** What was unmapped is linked nowhere and has no children. */
  lemma GoneIsBare(x: Space, up: Parents, depth: map<Vmar, nat>, v: Vmar, u: Vmar)
    requires SpaceOk(x) && Ranked(up, depth) && Ups(x.all) == Minus(up, Whole(up, depth, v)) && u in Whole(up, depth, v) && u in x.all
    ensures u.parent == null && (u in x.trees ==> InOrder(x.trees[u]) == [])
  {
    assert u !in Ups(x.all);
    if u in x.trees && InOrder(x.trees[u]) != [] {
      FirstChild(u, x);
      var c := InOrder(x.trees[u])[0];
      assert c in Ups(x.all) && up[c] == u;
      assert Under(up, depth, v, c);
    }
  }

  /** vmar_free, for a vmar that nothing refers to any more: it must be unmapped, and the address space is one without
      it. */
  method FreeVmar(v: Vmar, ghost x: Space) returns (ok: bool, ghost x': Space)
    requires SpaceOk(x) && v in x.all && (v.unmapped ==> v.parent == null && (v in x.trees ==> InOrder(x.trees[v]) == []))
    ensures (ok <==> v.unmapped) && SpaceOk(x') && x' == (if ok then Forgotten(x, v) else x) && (ok ==> Spare(x', v))
  {
    ok, x' := v.unmapped, x;
    if ok {
      ForgetOk(x, v);
      x' := Forgotten(x, v);
    }
  }

  // ----- marked and linked -----

  /** Linking a vmar that was unmapped before leaves a linked vmar that is marked: exactly then. */
  lemma AliveAfterLink(x: Space, up: Parents, child: Vmar, parent: Vmar)
    requires child in x.all && child !in up && Ups(x.all) == up[child := parent]
    ensures Alive(x.all) <==> !child.unmapped && forall v :: v in up ==> v in x.all && !v.unmapped
  {
    var now := Ups(x.all);
    assert forall v :: v in now <==> v == child || v in up;
    assert forall v :: v in x.all && v.parent != null <==> v in now;
  }

  /** Such a vmar makes the assertion on unmapped children fail when a region above it is unmapped, if nothing else under
      that region is in the way; unmapped itself, it stays where it is. */
  lemma MarkedStays(x: Space, v: Vmar, a: Vmar, o: Outcome)
    requires SpaceOk(x) && v in x.all && v.parent != null && v.unmapped && Under(Ups(x.all), x.depth, a, v)
    requires a in Ups(x.all) && Unhindered(Whole(Ups(x.all), x.depth, a) - {v}, Dead(x.all))
    requires Rightly(x, Ups(x.all), Dead(x.all), a, o)
    requires o.Completed? ==> Unhindered(Whole(Ups(x.all), x.depth, a), Dead(x.all))
    ensures o == Stopped(v, Marked)
  {
    assert v in Whole(Ups(x.all), x.depth, a) && v in Dead(x.all);
    assert o.Stopped? ==> o.at in Whole(Ups(x.all), x.depth, a);
  }
}
