/** The children of one region (src/mem/vmar.c): `vmar_gap_update`, `vmar_link_internal`, and the end of
    `vmar_unmap_internal`. */
module VmarRegion {
  import opened VmarNode
  import opened RbTree
  import opened RbAugment
  import opened RbInsert
  import opened RbLinked
  import opened RbSearch
  import opened RbInsertLinked
  import opened RbEraseLinked
  import opened VmarGaps

  // ----- vmar_gap_update -----

  method SetGap(v: Vmar, g: nat, ghost nodes: set<Vmar>)
    requires v in nodes
    modifies v`gap
    ensures Snap(nodes) == old(Snap(nodes))[v := old(Snap(nodes))[v].(gap := g)]
    ensures GapOf(nodes) == old(GapOf(nodes))[v := g]
  {
    v.gap := g;
  }

  /** The tree after the gap of the node in focus is g. */
  ghost function Regapped(c: Ctx, t: Tree, g: nat): Tree
    requires t.Bin?
  {
    var t1 := t.(gap := g);
    Plug(Propagated(Up(Down(t1, L), c), Mx(t.l)), t.l)
  }

  lemma RegappedSound(c: Ctx, t: Tree, g: nat)
    requires t.Bin? && Sound(Plug(c, t))
    ensures Sound(Regapped(c, t, g)) && InOrder(Regapped(c, t, g)) == InOrder(Plug(c, t))
  {
    var t1 := t.(gap := g);
    var c0, c1 := Up(Down(t, L), c), Up(Down(t1, L), c);
    var c2 := Propagated(c1, Mx(t.l));
    assert Close(Down(t, L), t.l) == t;
    UnplugRedBlack(c0, t.l);
    PlugAug(c, t);
    AlikeRefl(c);
    assert Alike(c0, c1);
    AlikeOk(c0, c1, Height(t.l));
    assert Alike(c1, c2) && Before(c2) == Before(c1) && After(c2) == After(c1) by { PropagatedShape(c1, Mx(t.l)); }
    AlikeOk(c1, c2, Height(t.l));
    assert RootFits(t.l, c2);
    PlugRedBlack(c2, t.l, Height(t.l));
    PropagatedAug(c1, Mx(t.l));
    PlugAug(c2, t.l);
    InOrderPlug(c2, t.l);
    InOrderPlug(c0, t.l);
    assert Before(c1) == Before(c0) && After(c1) == After(c0);
  }

  ghost predicate HeldAt(k: int, m: Mem, root: Vmar?, c: Ctx, t: Tree) {
    k == 0 ==> HoldsAt(m, root, c, t)
  }

  /** HoldsAt, closed to proofs that only pass it on. */
  ghost predicate Held(m: Mem, root: Vmar?, c: Ctx, t: Tree) {
    forall k :: HeldAt(k, m, root, c, t)
  }

  method Regap(v: Vmar, g: nat, root: RbRoot, ghost c: Ctx, ghost t: Tree, ghost nodes: set<Vmar>)
    requires Held(Snap(nodes), root.node, c, t) && t.Bin? && v == t.n && v in nodes
    modifies v`gap, nodes`maxGap
    ensures Held(Snap(nodes), root.node, Top, Regapped(c, t, g))
    ensures GapOf(nodes) == old(GapOf(nodes))[v := g]
  {
    ghost var m, t1 := Snap(nodes), t.(gap := g);
    ghost var c1 := Up(Down(t1, L), c);
    assert HeldAt(0, m, root.node, c, t);
    EditHolds(m, root.node, c, t, t1);
    SetGap(v, g, nodes);
    DownStep(Snap(nodes), root.node, c, t1, L);
    PropagateUp(v, root, c1, t.l, nodes);
    PlugHolds(Snap(nodes), root.node, Propagated(c1, Mx(t.l)), t.l);
  }

  /** The stored gaps. */
  ghost predicate AreGaps(m: map<Vmar, nat>, nodes: set<Vmar>)
    reads nodes`gap
  {
    m.Keys == nodes && forall v :: v in m ==> m[v] == v.gap
  }

  lemma GapOfExist(nodes: set<Vmar>)
    ensures exists m: map<Vmar, nat> :: AreGaps(m, nodes)
  {
    assert AreGaps(map v | v in nodes :: v.gap, nodes);
  }

  ghost function GapOf(nodes: set<Vmar>): (m: map<Vmar, nat>)
    reads nodes`gap
    ensures m.Keys == nodes && forall v :: v in m ==> m[v] == v.gap
  {
    GapOfExist(nodes);
    var m: map<Vmar, nat> :| AreGaps(m, nodes);
    m
  }

  method RegapKeeps(v: Vmar, g: nat, root: RbRoot, ghost c: Ctx, ghost t: Tree, ghost nodes: set<Vmar>)
    requires Held(Snap(nodes), root.node, c, t) && t.Bin? && v == t.n && v in nodes
    modifies v`gap, nodes`maxGap
    ensures Held(Snap(nodes), root.node, Top, Regapped(c, t, g)) && GapOf(nodes) == old(GapOf(nodes))[v := g]
    ensures Links(nodes) == old(Links(nodes)) && Spans(nodes) == old(Spans(nodes))
  {
    ghost var l, sp := Links(nodes), Spans(nodes);
    Regap(v, g, root, c, t, nodes);
    assert AreLinks(l, nodes) && AreSpans(sp, nodes);
  }

  lemma RegapFocus(m: Mem, root: Vmar?, t: Tree, v: Vmar, g: nat) returns (c: Ctx, tt: Tree)
    requires HoldsAt(m, root, Top, t) && Sound(t) && v in Nodes(t)
    ensures Held(m, root, c, tt) && tt.Bin? && tt.n == v
    ensures Sound(Regapped(c, tt, g)) && InOrder(Regapped(c, tt, g)) == InOrder(t) && Nodes(Regapped(c, tt, g)) == Nodes(t)
  {
    var a, b;
    c, tt, a, b := FocusValid(m, root, t, v);
    RegappedSound(c, tt, g);
    NodesInOrder(t);
    NodesInOrder(Regapped(c, tt, g));
  }

  /** Store a child's gap and propagate it; the order is untouched. */
  method UpdateGap(v: Vmar, g: nat, root: RbRoot, ghost t: Tree) returns (ghost t': Tree)
    requires Valid(root, t) && v in Nodes(t)
    modifies v`gap, Nodes(t)`maxGap
    ensures Valid(root, t') && InOrder(t') == InOrder(t) && Nodes(t') == Nodes(t)
    ensures GapOf(Nodes(t)) == old(GapOf(Nodes(t)))[v := g] && Spans(Nodes(t)) == old(Spans(Nodes(t)))
  {
    Open(root, t);
    ghost var c, tt := RegapFocus(Snap(Nodes(t)), root.node, t, v, g);
    t' := Regapped(c, tt, g);
    RegapKeeps(v, g, root, c, tt, Nodes(t));
    assert HeldAt(0, Snap(Nodes(t)), root.node, Top, t');
    Fold(root, t');
  }

  /** The page where the gap before a linked child starts. */
  function GapBase(v: Vmar): nat
    requires v.parent != null
    reads v`first, v`prev, v`parent, Opt(v.prev)`first, Opt(v.prev)`pages, Opt(v.parent)`first
  {
    if v.prev != null then v.prev.End() else v.parent.first
  }

  function NewGap(v: Vmar): nat
    requires v.parent != null && GapBase(v) <= v.first
    reads v`first, v`prev, v`parent, Opt(v.prev)`first, Opt(v.prev)`pages, Opt(v.parent)`first
  {
    v.first - GapBase(v)
  }

  /** vmar_gap_update */
  method GapUpdate(v: Vmar, root: RbRoot, ghost t: Tree) returns (ghost t': Tree)
    requires Valid(root, t) && v in Nodes(t) && v.parent != null && GapBase(v) <= v.first
    modifies v`gap, Nodes(t)`maxGap
    ensures Valid(root, t') && InOrder(t') == InOrder(t) && Nodes(t') == Nodes(t)
    ensures GapOf(Nodes(t)) == old(GapOf(Nodes(t)))[v := old(NewGap(v))] && Spans(Nodes(t)) == old(Spans(Nodes(t)))
  {
    t' := UpdateGap(v, NewGap(v), root, t);
  }

  method ResetGap(child: Vmar, ghost root: RbRoot, ghost t: Tree)
    requires Valid(root, t) && child !in Nodes(t)
    modifies child`gap, child`maxGap
    ensures Valid(root, t) && child.gap == child.maxGap == 0
  {
    child.gap, child.maxGap := 0, 0;
  }

  method SetOwner(child: Vmar, parent: Vmar?, ghost root: RbRoot, ghost t: Tree)
    requires Valid(root, t)
    modifies child`parent
    ensures Valid(root, t) && child.parent == parent
  {
    child.parent := parent;
  }

  // ----- linking -----

  /** The gap that belongs to child i. */
  ghost function GapAt(sp: Ranges, s: seq<Vmar>, i: int, lo: nat, hi: nat): nat
    requires Inside(sp, s, lo, hi) && 0 <= i < |s|
  {
    assert s[i] in s;
    assert i > 0 ==> s[i - 1] in s;
    sp[s[i]].first - GapStart(sp, s, i, lo)
  }

  lemma GapAtIs(sp: Ranges, s: seq<Vmar>, i: nat, lo: nat, hi: nat)
    requires Inside(sp, s, lo, hi) && i < |s|
    ensures s[i] in sp && (i > 0 ==> s[i - 1] in sp)
    ensures var base := if i == 0 then lo else sp[s[i - 1]].end;
            base <= sp[s[i]].first && GapAt(sp, s, i, lo, hi) == sp[s[i]].first - base
  {
    assert s[i] in s;
    assert i > 0 ==> s[i - 1] in s;
  }

  /** The links lead to the right gap. */
  lemma GapFromLinks(v: Vmar, r: Vmar, nodes: set<Vmar>, s: seq<Vmar>, i: nat)
    requires Spells(Links(nodes), s) && Inside(Spans(nodes), s, r.first, r.End())
    requires i < |s| && s[i] == v && v.parent == r
    ensures GapBase(v) <= v.first
    ensures NewGap(v) == GapAt(Spans(nodes), s, i, r.first, r.End())
  {
    assert v.prev == RbLinked.At(s, i - 1) by {
      assert Links(nodes)[s[i]] == Link(v.prev, v.next);
    }
    var sp := Spans(nodes);
    var base := if i == 0 then r.first else s[i - 1].End();
    assert base <= v.first && GapAt(sp, s, i, r.first, r.End()) == v.first - base by {
      GapAtIs(sp, s, i, r.first, r.End());
      assert sp[s[i]] == Span(v.first, v.End());
      assert i > 0 ==> sp[s[i - 1]] == Span(s[i - 1].first, s[i - 1].End());
    }
    assert GapBase(v) == base;
  }

  /** The order and the ranges of the children of a region [lo, hi). */
  datatype Layout = Layout(s: seq<Vmar>, sp: Ranges, lo: nat, hi: nat) {
    ghost predicate Ok() {
      Inside(sp, s, lo, hi)
    }

    /** The gaps g with child i, if there is one, measured. */
    ghost function Measured(g: Gaps, i: nat): Gaps
      requires Ok()
    {
      if i < |s| then g[s[i] := GapAt(sp, s, i, lo, hi)] else g
    }
  }

  /** The tree t of r's children has the layout y. */
  ghost predicate HasLayout(r: Vmar, t: Tree, y: Layout)
    reads r, r.children, Nodes(t)
  {
    && Valid(r.children, t) && InOrder(t) == y.s && Spans(Nodes(t)) == y.sp && y.lo == r.first && y.hi == r.End()
  }

  /** vmar_gap_update of child i. */
  method GapUpdateAt(v: Vmar, r: Vmar, ghost t: Tree, ghost i: nat, ghost y: Layout) returns (ghost t': Tree)
    requires y.Ok() && HasLayout(r, t, y)
    requires i < |y.s| && y.s[i] == v && v in Nodes(t) && v.parent == r
    modifies v`gap, Nodes(t)`maxGap
    ensures HasLayout(r, t', y) && Nodes(t') == Nodes(t)
    ensures GapOf(Nodes(t)) == y.Measured(old(GapOf(Nodes(t))), i)
  {
    assert GapBase(v) <= v.first && NewGap(v) == GapAt(y.sp, y.s, i, y.lo, y.hi) by {
      Open(r.children, t);
      GapFromLinks(v, r, Nodes(t), InOrder(t), i);
    }
    t' := GapUpdate(v, r.children, t);
  }

  lemma NextIs(v: Vmar, nodes: set<Vmar>, s: seq<Vmar>, i: nat)
    requires Spells(Links(nodes), s) && i < |s| && s[i] == v
    ensures v.next == RbLinked.At(s, i + 1)
  {
    assert Links(nodes)[s[i]] == Link(v.prev, v.next);
  }

  /** The gap update of a child that may be absent. */
  method UpdateIfAny(v: Vmar?, r: Vmar, ghost t: Tree, ghost i: nat, ghost y: Layout) returns (ghost t': Tree)
    requires y.Ok() && HasLayout(r, t, y)
    requires v == RbLinked.At(y.s, i) && (v != null ==> v in Nodes(t) && v.parent == r)
    modifies Opt(v)`gap, Nodes(t)`maxGap
    ensures HasLayout(r, t', y) && Nodes(t') == Nodes(t)
    ensures GapOf(Nodes(t)) == y.Measured(old(GapOf(Nodes(t))), i)
  {
    if v == null {
      return t;
    }
    t' := GapUpdateAt(v, r, t, i, y);
  }

  /** Both gap updates of vmar_link_internal. */
  method UpdateAround(child: Vmar, next: Vmar?, r: Vmar, ghost t: Tree, ghost i: nat, ghost y: Layout) returns (ghost t': Tree)
    requires y.Ok() && HasLayout(r, t, y)
    requires i < |y.s| && y.s[i] == child && child in Nodes(t) && child.parent == r
    requires next == RbLinked.At(y.s, i + 1) && (next != null ==> next in Nodes(t) && next.parent == r)
    modifies Nodes(t)`gap, Nodes(t)`maxGap
    ensures HasLayout(r, t', y) && Nodes(t') == Nodes(t)
    ensures GapOf(Nodes(t)) == y.Measured(y.Measured(old(GapOf(Nodes(t))), i), i + 1)
  {
    ghost var t1 := GapUpdateAt(child, r, t, i, y);
    ghost var g1 := GapOf(Nodes(t));
    assert next != null ==> next in Nodes(t1) && next.parent == r;
    t' := UpdateIfAny(next, r, t1, i + 1, y);
    assert GapOf(Nodes(t)) == y.Measured(g1, i + 1);
  }

  // ----- vmar_link_internal -----

  /** The range of child lies in the region and overlaps none of its children. */
  ghost predicate Fits(r: Vmar, child: Vmar, sp: Ranges)
    reads r`first, r`pages, child`first, child`pages
  {
    && r.first <= child.first && child.End() <= r.End()
    && forall v :: v in sp ==> child.End() <= sp[v].first || sp[v].end <= child.first
  }

  ghost predicate Owned(r: Vmar, nodes: set<Vmar>)
    reads nodes`parent
  {
    forall v :: v in nodes ==> v.parent == r
  }

  /** The children of region r, held by the tree t: inside, disjoint, in order, with the right gaps. */
  ghost predicate RegionOk(r: Vmar, t: Tree)
    reads r`first, r`pages, r.children, Nodes(t)`left, Nodes(t)`right, Nodes(t)`rbParent, Nodes(t)`black, Nodes(t)`gap
    reads Nodes(t)`maxGap, Nodes(t)`prev, Nodes(t)`next, Nodes(t)`first, Nodes(t)`pages, Nodes(t)`parent
  {
    && Valid(r.children, t) && r !in Nodes(t) && Owned(r, Nodes(t))
    && Laid(GapOf(Nodes(t)), Spans(Nodes(t)), InOrder(t), r.first, r.End())
  }

  /** The insertion into the tree: without a gap until the predecessor is known. */
  method LinkTree(child: Vmar, r: Vmar, ghost t: Tree) returns (ghost t': Tree, ghost at: nat)
    requires Valid(r.children, t) && Nodes(t) == Elems(InOrder(t)) && child !in Nodes(t) && Fits(r, child, Spans(Nodes(t)))
    modifies (Nodes(t) + {child})`left, (Nodes(t) + {child})`right, (Nodes(t) + {child})`rbParent
    modifies (Nodes(t) + {child})`black, (Nodes(t) + {child})`maxGap, child`gap, child`parent
    modifies (Nodes(t) + {child})`prev, (Nodes(t) + {child})`next, r.children
    ensures Valid(r.children, t') && at <= |InOrder(t)| && Nodes(t') == Nodes(t) + {child} && child.parent == r
    ensures InOrder(t') == InOrder(t)[..at] + [child] + InOrder(t)[at..]
  {
    ghost var sp := Spans(Nodes(t));
    assert forall v :: v in Nodes(t) ==> child.End() <= v.first || v.End() <= child.first by {
      assert forall v :: v in Nodes(t) ==> sp[v] == Span(v.first, v.End());
    }
    ResetGap(child, r.children, t);
    var found;
    found, t', at := FindAdd(child, r.children, t);
    assert found == null;
    SetOwner(child, r, r.children, t');
  }

  lemma InsideWith(sp: Ranges, sp': Ranges, a: seq<Vmar>, child: Vmar, b: seq<Vmar>, lo: nat, hi: nat)
    requires Inside(sp, a + b, lo, hi) && Sorted(sp', a + [child] + b)
    requires child in sp' && lo <= sp'[child].first <= sp'[child].end <= hi
    requires forall v :: v in sp ==> v in sp' && sp'[v] == sp[v]
    ensures Inside(sp', a + [child] + b, lo, hi)
  {
    forall v | v in a + [child] + b
      ensures lo <= sp'[v].first <= sp'[v].end <= hi
    {
      assert v == child || v in a + b;
    }
  }

  lemma DropDistinct(a: seq<Vmar>, child: Vmar, b: seq<Vmar>)
    requires Distinct(a + [child] + b)
    ensures Distinct(a + b)
  {
    var s := a + [child] + b;
    forall i, j | 0 <= i < j < |a + b|
      ensures (a + b)[i] != (a + b)[j]
    {
      assert (a + b)[i] == s[if i < |a| then i else i + 1] && (a + b)[j] == s[if j < |a| then j else j + 1];
    }
  }

  /** Measuring the new child and its successor makes all gaps right. */
  lemma MeasuredLaid(g: Gaps, g': Gaps, y: Layout, y': Layout, a: seq<Vmar>, child: Vmar, b: seq<Vmar>)
    requires y.s == a + b && y'.s == a + [child] + b && y.lo == y'.lo && y.hi == y'.hi
    requires Laid(g, y.sp, y.s, y.lo, y.hi) && y'.Ok() && Distinct(y'.s)
    requires forall v :: v in y.sp ==> v in y'.sp && y'.sp[v] == y.sp[v]
    requires forall v :: v in g ==> v in g' && g'[v] == g[v]
    ensures Laid(y'.Measured(y'.Measured(g', |a|), |a| + 1), y'.sp, y'.s, y'.lo, y'.hi)
  {
    var s := y'.s;
    var g1 := y'.Measured(g', |a|);
    var g2 := y'.Measured(g1, |a| + 1);
    assert s[|a|] == child;
    assert b != [] ==> s[|a| + 1] == b[0];
    DropElems(a, child, b);
    DropDistinct(a, child, b);
    assert GapRight(g2, y'.sp, s, |a|, y'.lo);
    AddLaid(g, g2, y.sp, y'.sp, a, child, b, y.lo, y.hi);
  }

  lemma ValidOrder(root: RbRoot, t: Tree)
    requires Valid(root, t)
    ensures Distinct(InOrder(t)) && Nodes(t) == Elems(InOrder(t)) && Sorted(Spans(Nodes(t)), InOrder(t))
  {
    Open(root, t);
    DisjDistinct(t);
    NodesInOrder(t);
  }

  lemma ValidNext(root: RbRoot, t: Tree, i: nat)
    requires Valid(root, t) && i < |InOrder(t)|
    ensures InOrder(t)[i].next == RbLinked.At(InOrder(t), i + 1)
  {
    Open(root, t);
    NextIs(InOrder(t)[i], Nodes(t), InOrder(t), i);
  }

  ghost function LayoutOf(r: Vmar, t: Tree): Layout
    reads r`first, r`pages, Nodes(t)`first, Nodes(t)`pages
  {
    Layout(InOrder(t), Spans(Nodes(t)), r.first, r.End())
  }

  method LinkTreeKeeps(child: Vmar, r: Vmar, ghost t: Tree, ghost nodes: set<Vmar>) returns (ghost t': Tree, ghost at: nat)
    requires Valid(r.children, t) && nodes == Nodes(t) == Elems(InOrder(t)) && child !in nodes && Fits(r, child, Spans(nodes))
    requires Owned(r, nodes)
    modifies (nodes + {child})`left, (nodes + {child})`right, (nodes + {child})`rbParent
    modifies (nodes + {child})`black, (nodes + {child})`maxGap, child`gap, child`parent
    modifies (nodes + {child})`prev, (nodes + {child})`next, r.children
    ensures Valid(r.children, t') && at <= |InOrder(t)| && Nodes(t') == nodes + {child} && Owned(r, nodes + {child})
    ensures InOrder(t') == InOrder(t)[..at] + [child] + InOrder(t)[at..]
    ensures GapOf(nodes) == old(GapOf(nodes)) && Spans(nodes) == old(Spans(nodes))
  {
    ghost var g, sp := GapOf(nodes), Spans(nodes);
    t', at := LinkTree(child, r, t);
    assert AreGaps(g, nodes) && AreSpans(sp, nodes);
  }

  lemma LookAround(child: Vmar, root: RbRoot, t': Tree, s: seq<Vmar>, at: nat)
    requires Valid(root, t') && at <= |s| && InOrder(t') == s[..at] + [child] + s[at..]
    ensures child.next == RbLinked.At(InOrder(t'), at + 1) && (child.next != null ==> child.next in Nodes(t'))
    ensures Distinct(InOrder(t')) && Sorted(Spans(Nodes(t')), InOrder(t'))
    ensures at < |InOrder(t')| && InOrder(t')[at] == child && child in Nodes(t')
  {
    ValidOrder(root, t');
    ValidNext(root, t', at);
    assert InOrder(t')[at] in InOrder(t');
    assert at + 1 < |InOrder(t')| ==> InOrder(t')[at + 1] in InOrder(t');
  }

  /** The layout with the new child is in order. */
  lemma LayoutWith(y: Layout, y': Layout, child: Vmar, at: nat)
    requires y.Ok() && at <= |y.s| && y'.s == y.s[..at] + [child] + y.s[at..] && y.lo == y'.lo && y.hi == y'.hi
    requires Sorted(y'.sp, y'.s) && forall v :: v in y.sp ==> v in y'.sp && y'.sp[v] == y.sp[v]
    requires child in y'.sp && y.lo <= y'.sp[child].first <= y'.sp[child].end <= y.hi
    ensures y'.Ok()
  {
    assert y.s == y.s[..at] + y.s[at..];
    InsideWith(y.sp, y'.sp, y.s[..at], child, y.s[at..], y.lo, y.hi);
  }

  lemma LaidWith(g: Gaps, g': Gaps, y: Layout, y': Layout, child: Vmar, at: nat)
    requires at <= |y.s| && y'.s == y.s[..at] + [child] + y.s[at..] && y.lo == y'.lo && y.hi == y'.hi
    requires Laid(g, y.sp, y.s, y.lo, y.hi) && y'.Ok() && Distinct(y'.s)
    requires forall v :: v in y.sp ==> v in y'.sp && y'.sp[v] == y.sp[v]
    requires forall v :: v in g ==> v in g' && g'[v] == g[v]
    ensures Laid(y'.Measured(y'.Measured(g', at), at + 1), y'.sp, y'.s, y'.lo, y'.hi)
  {
    assert y.s == y.s[..at] + y.s[at..];
    MeasuredLaid(g, g', y, y', y.s[..at], child, y.s[at..]);
  }

  lemma NewLaid(r: Vmar, child: Vmar, t: Tree, t1: Tree, y: Layout, y': Layout, g: Gaps, at: nat)
    requires Nodes(t1) == Nodes(t) + {child} && child !in Nodes(t) && y == LayoutOf(r, t) && y' == LayoutOf(r, t1)
    requires g == GapOf(Nodes(t)) && Laid(g, y.sp, y.s, y.lo, y.hi) && Sorted(y'.sp, y'.s) && Distinct(y'.s)
    requires at <= |y.s| && y'.s == y.s[..at] + [child] + y.s[at..] && r.first <= child.first && child.End() <= r.End()
    ensures y'.Ok() && Laid(y'.Measured(y'.Measured(GapOf(Nodes(t1)), at), at + 1), y'.sp, y'.s, y'.lo, y'.hi)
  {
    LayoutWith(y, y', child, at);
    LaidWith(g, GapOf(Nodes(t1)), y, y', child, at);
  }

  /** The insertion of vmar_link_internal: the gaps will be right once two of them are measured. */
  method LinkUnmeasured(child: Vmar, r: Vmar, ghost t: Tree, ghost y: Layout, ghost g: Gaps, ghost nodes: set<Vmar>)
      returns (ghost t': Tree, ghost y': Layout, ghost at: nat)
    requires Valid(r.children, t) && nodes == Nodes(t) == Elems(InOrder(t)) && child !in nodes && Fits(r, child, Spans(nodes))
    requires Owned(r, nodes) && r !in nodes && child != r
    requires y == LayoutOf(r, t) && g == GapOf(nodes) && Laid(g, y.sp, y.s, y.lo, y.hi)
    modifies (nodes + {child})`left, (nodes + {child})`right, (nodes + {child})`rbParent
    modifies (nodes + {child})`black, (nodes + {child})`maxGap, child`gap, child`parent
    modifies (nodes + {child})`prev, (nodes + {child})`next, r.children
    ensures HasLayout(r, t', y') && Nodes(t') == nodes + {child} && Owned(r, Nodes(t')) && y' == LayoutOf(r, t')
    ensures at <= |y.s| && y'.s == y.s[..at] + [child] + y.s[at..] && at < |y'.s| && y'.s[at] == child && y'.Ok()
    ensures Laid(y'.Measured(y'.Measured(GapOf(Nodes(t')), at), at + 1), y'.sp, y'.s, y'.lo, y'.hi)
    ensures child.next == RbLinked.At(y'.s, at + 1) && (child.next != null ==> child.next in Nodes(t'))
  {
    t', at := LinkTreeKeeps(child, r, t, nodes);
    LookAround(child, r.children, t', y.s, at);
    y' := LayoutOf(r, t');
    NewLaid(r, child, t, t', y, y', g, at);
  }

  /** vmar_link_internal, once both asserts hold. */
  method LinkChild(child: Vmar, r: Vmar, ghost t: Tree, ghost y: Layout, ghost g: Gaps) returns (ghost t': Tree, ghost y': Layout, ghost at: nat)
    requires Valid(r.children, t) && Nodes(t) == Elems(InOrder(t)) && child !in Nodes(t) && Fits(r, child, Spans(Nodes(t)))
    requires Owned(r, Nodes(t)) && r !in Nodes(t) && child != r
    requires y == LayoutOf(r, t) && g == GapOf(Nodes(t)) && Laid(g, y.sp, y.s, y.lo, y.hi)
    modifies (Nodes(t) + {child})`left, (Nodes(t) + {child})`right, (Nodes(t) + {child})`rbParent
    modifies (Nodes(t) + {child})`black, (Nodes(t) + {child})`maxGap, (Nodes(t) + {child})`gap, child`parent
    modifies (Nodes(t) + {child})`prev, (Nodes(t) + {child})`next, r.children
    ensures Valid(r.children, t') && Nodes(t') == Nodes(t) + {child} && Owned(r, Nodes(t'))
    ensures y' == LayoutOf(r, t') && at <= |y.s| && y'.s == y.s[..at] + [child] + y.s[at..]
    ensures Laid(GapOf(Nodes(t')), y'.sp, y'.s, y'.lo, y'.hi)
  {
    ghost var t1;
    t1, y', at := LinkUnmeasured(child, r, t, y, g, Nodes(t));
    t' := MeasureAround(child, r, t1, at, y', Nodes(t1));
  }

  method MeasureAround(child: Vmar, r: Vmar, ghost t: Tree, ghost i: nat, ghost y: Layout, ghost nodes: set<Vmar>) returns (ghost t': Tree)
    requires Valid(r.children, t) && y == LayoutOf(r, t) && y.Ok() && nodes == Nodes(t) && Owned(r, nodes)
    requires i < |y.s| && y.s[i] == child && child in nodes
    requires child.next == RbLinked.At(y.s, i + 1) && (child.next != null ==> child.next in nodes)
    modifies nodes`gap, nodes`maxGap
    ensures Valid(r.children, t') && y == LayoutOf(r, t') && Nodes(t') == nodes && Owned(r, nodes)
    ensures GapOf(nodes) == y.Measured(y.Measured(old(GapOf(nodes)), i), i + 1)
  {
    t' := UpdateAround(child, child.next, r, t, i, y);
  }

  /** vmar_link_internal: the two asserted conditions are its preconditions, the third (no overlap) follows
      from Fits. */
  method LinkInternal(parent: Vmar, child: Vmar, ghost t: Tree) returns (ghost t': Tree, ghost at: nat)
    requires parent.kind.Region? && child.parent == null
    requires RegionOk(parent, t) && child !in Nodes(t) && child != parent && Fits(parent, child, Spans(Nodes(t)))
    modifies (Nodes(t) + {child})`left, (Nodes(t) + {child})`right, (Nodes(t) + {child})`rbParent
    modifies (Nodes(t) + {child})`black, (Nodes(t) + {child})`maxGap, (Nodes(t) + {child})`gap, child`parent
    modifies (Nodes(t) + {child})`prev, (Nodes(t) + {child})`next, parent.children
    ensures RegionOk(parent, t') && Nodes(t') == Nodes(t) + {child} && at <= |InOrder(t)|
    ensures InOrder(t') == InOrder(t)[..at] + [child] + InOrder(t)[at..]
  {
    ValidOrder(parent.children, t);
    ghost var y';
    t', y', at := LinkChild(child, parent, t, LayoutOf(parent, t), GapOf(Nodes(t)));
  }

  // ----- unlinking -----

  method EraseKeepsRest(v: Vmar, r: Vmar, ghost t: Tree, ghost nodes: set<Vmar>) returns (ghost t': Tree, ghost at: nat)
    requires Valid(r.children, t) && nodes == Nodes(t) && v in nodes && Owned(r, nodes)
    modifies nodes`left, nodes`right, nodes`rbParent, nodes`black, nodes`maxGap, nodes`prev, nodes`next, r.children
    ensures Valid(r.children, t') && at < |InOrder(t)| && InOrder(t)[at] == v && v !in Nodes(t')
    ensures InOrder(t') == InOrder(t)[..at] + InOrder(t)[at + 1..]
    ensures GapOf(nodes) == old(GapOf(nodes)) && Spans(nodes) == old(Spans(nodes)) && Owned(r, nodes)
  {
    var nonEmpty;
    nonEmpty, t', at := EraseLinked(v, r.children, t);
  }

  /** Measuring the successor makes all gaps right again. */
  lemma LaidWithout(g: Gaps, g': Gaps, y: Layout, y': Layout, v: Vmar, at: nat)
    requires at < |y.s| && y.s[at] == v && y'.s == y.s[..at] + y.s[at + 1..] && y.lo == y'.lo && y.hi == y'.hi
    requires Laid(g, y.sp, y.s, y.lo, y.hi) && Distinct(y.s)
    requires forall u :: u in y'.s ==> u in y'.sp && u in y.sp && y'.sp[u] == y.sp[u] && u in g'
    requires forall u :: u in g' ==> u in g && g'[u] == g[u]
    requires forall u :: u in g && u != v ==> u in g'
    ensures y'.Ok() && Laid(y'.Measured(g', at), y'.sp, y'.s, y'.lo, y'.hi)
  {
    var a, b := y.s[..at], y.s[at + 1..];
    assert y.s == a + [v] + b;
    DropInside(y.sp, y'.sp, a, v, b, y.lo, y.hi);
    var g1 := y'.Measured(g', at);
    assert b != [] ==> y'.s[at] == b[0];
    assert b != [] ==> GapRight(g1, y'.sp, a + b, |a|, y.lo);
    DropLaid(g, g1, y.sp, y'.sp, a, v, b, y.lo, y.hi);
  }

  lemma SuccessorOf(root: RbRoot, t: Tree, v: Vmar, at: nat)
    requires Valid(root, t) && at < |InOrder(t)| && InOrder(t)[at] == v
    ensures var s' := InOrder(t)[..at] + InOrder(t)[at + 1..];
            v.next == RbLinked.At(s', at) && (at < |s'| ==> s'[at] in s')
  {
    ValidNext(root, t, at);
    NextStays(InOrder(t), v, at);
  }

  lemma IndexOf(root: RbRoot, t: Tree, v: Vmar) returns (at: nat)
    requires Valid(root, t) && v in Nodes(t)
    ensures at < |InOrder(t)| && InOrder(t)[at] == v
    ensures forall i :: 0 <= i < |InOrder(t)| && InOrder(t)[i] == v ==> i == at
  {
    ValidOrder(root, t);
    at :| 0 <= at < |InOrder(t)| && InOrder(t)[at] == v;
  }

  method EraseAndLook(v: Vmar, r: Vmar, ghost t: Tree, ghost nodes: set<Vmar>) returns (next: Vmar?, ghost t': Tree, ghost at: nat)
    requires Valid(r.children, t) && nodes == Nodes(t) && v in nodes && Owned(r, nodes)
    modifies nodes`left, nodes`right, nodes`rbParent, nodes`black, nodes`maxGap, nodes`prev, nodes`next, r.children
    ensures Valid(r.children, t') && at < |InOrder(t)| && InOrder(t)[at] == v && Distinct(InOrder(t))
    ensures InOrder(t') == InOrder(t)[..at] + InOrder(t)[at + 1..] && Nodes(t') == nodes - {v} == Elems(InOrder(t'))
    ensures GapOf(nodes) == old(GapOf(nodes)) && Spans(nodes) == old(Spans(nodes)) && Owned(r, nodes)
    ensures next == RbLinked.At(InOrder(t'), at) && (next != null ==> next in Nodes(t'))
  {
    ghost var i := IndexOf(r.children, t, v);
    SuccessorOf(r.children, t, v, i);
    ValidOrder(r.children, t);
    next := v.next;
    t', at := EraseKeepsRest(v, r, t, nodes);
    WithoutNodes(t, t', v, at);
    NodesInOrder(t');
  }

  lemma UnlinkLaid(nodes: set<Vmar>, v: Vmar, y: Layout, y': Layout, at: nat)
    requires y.sp == Spans(nodes) && y'.sp == Spans(nodes - {v}) && y.lo == y'.lo && y.hi == y'.hi
    requires at < |y.s| && y.s[at] == v && y'.s == y.s[..at] + y.s[at + 1..] && Elems(y'.s) == nodes - {v}
    requires Laid(GapOf(nodes), y.sp, y.s, y.lo, y.hi) && Distinct(y.s)
    ensures y'.Ok() && Laid(y'.Measured(GapOf(nodes - {v}), at), y'.sp, y'.s, y'.lo, y'.hi)
  {
    forall u | u in y'.s
      ensures u in nodes - {v}
    {
      assert u in Elems(y'.s);
    }
    LaidWithout(GapOf(nodes), GapOf(nodes - {v}), y, y', v, at);
  }

  method MeasureNext(next: Vmar?, r: Vmar, ghost t: Tree, ghost i: nat, ghost y: Layout, ghost nodes: set<Vmar>) returns (ghost t': Tree)
    requires Valid(r.children, t) && y == LayoutOf(r, t) && y.Ok() && nodes == Nodes(t) && Owned(r, nodes)
    requires next == RbLinked.At(y.s, i) && (next != null ==> next in nodes)
    modifies Opt(next)`gap, nodes`maxGap
    ensures Valid(r.children, t') && y == LayoutOf(r, t') && Nodes(t') == nodes && Owned(r, nodes)
    ensures GapOf(nodes) == y.Measured(old(GapOf(nodes)), i)
  {
    t' := UpdateIfAny(next, r, t, i, y);
  }

  /** The tail of vmar_unmap_internal: v leaves its region. */
  method UnlinkChild(v: Vmar, r: Vmar, ghost t: Tree, ghost y: Layout, ghost g: Gaps) returns (ghost t': Tree, ghost y': Layout, ghost at: nat)
    requires Valid(r.children, t) && v in Nodes(t) && Owned(r, Nodes(t)) && r !in Nodes(t)
    requires y == LayoutOf(r, t) && g == GapOf(Nodes(t)) && Laid(g, y.sp, y.s, y.lo, y.hi)
    modifies Nodes(t)`left, Nodes(t)`right, Nodes(t)`rbParent, Nodes(t)`black, Nodes(t)`maxGap, Nodes(t)`gap
    modifies Nodes(t)`prev, Nodes(t)`next, r.children
    ensures Valid(r.children, t') && Owned(r, Nodes(t')) && Nodes(t') == Nodes(t) - {v}
    ensures y' == LayoutOf(r, t') && at < |y.s| && y.s[at] == v && y'.s == y.s[..at] + y.s[at + 1..]
    ensures Laid(GapOf(Nodes(t')), y'.sp, y'.s, y'.lo, y'.hi)
  {
    var next;
    ghost var t1;
    next, t1, at := EraseAndLook(v, r, t, Nodes(t));
    y' := LayoutOf(r, t1);
    ghost var g1 := GapOf(Nodes(t1));
    UnlinkLaid(Nodes(t), v, y, y', at);
    t' := MeasureNext(next, r, t1, at, y', Nodes(t1));
  }

  lemma NextStays(s: seq<Vmar>, v: Vmar, at: nat)
    requires at < |s| && s[at] == v
    ensures var s' := s[..at] + s[at + 1..];
            RbLinked.At(s, at + 1) == RbLinked.At(s', at) && (at < |s'| ==> s'[at] in s')
  {
  }

  lemma RemoveElems(a: seq<Vmar>, v: Vmar, b: seq<Vmar>)
    requires Distinct(a + [v] + b)
    ensures Elems(a + b) == Elems(a + [v] + b) - {v}
  {
    DropElems(a, v, b);
    assert Elems(a + [v] + b) == Elems(a + b) + {v};
  }

  lemma WithoutNodes(t: Tree, t': Tree, v: Vmar, at: nat)
    requires Distinct(InOrder(t)) && at < |InOrder(t)| && InOrder(t)[at] == v
    requires InOrder(t') == InOrder(t)[..at] + InOrder(t)[at + 1..]
    ensures Nodes(t') == Nodes(t) - {v}
  {
    var a, b := InOrder(t)[..at], InOrder(t)[at + 1..];
    assert InOrder(t) == a + [v] + b;
    RemoveElems(a, v, b);
    NodesInOrder(t);
    NodesInOrder(t');
  }
}
