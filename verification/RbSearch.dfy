/** The search shared by `rb_find` and `rb_find_add_augmented_linked` (src/lib/rbtree/rbtree.h,
    src/lib/rbtree/rbtree_augmented.h), with the range order of `vmar_compare_ranges` (src/mem/vmar.c). */
module RbSearch {
  import opened VmarNode
  import opened RbTree
  import opened RbLinked

  /** vmar_compare_ranges: the range [lo, hi) against a node. */
  function CompareRanges(lo: nat, hi: nat, v: Vmar): int
    reads v`first, v`pages
  {
    if hi <= v.first then -1
    else if lo >= v.End() then 1
    else 0
  }

  /** Everything left of the hole ends before lo, everything right of it starts after hi. */
  ghost predicate Between(m: map<Vmar, Span>, c: Ctx, lo: nat, hi: nat) {
    && (forall v :: v in Before(c) ==> v in m && m[v].end <= lo)
    && (forall v :: v in After(c) ==> v in m && hi <= m[v].first)
  }

  ghost function Down(t: Tree, s: Side): Frame
    requires t.Bin?
  {
    Frame(s, t.n, t.black, t.gap, t.mx, Far(t, s))
  }

  lemma DownStep(m: Mem, root: Vmar?, c: Ctx, t: Tree, s: Side)
    requires HoldsAt(m, root, c, t) && t.Bin?
    ensures Plug(Up(Down(t, s), c), Near(t, s)) == Plug(c, t)
    ensures HoldsAt(m, root, Up(Down(t, s), c), Near(t, s))
    ensures t.n in m && m[t.n].Child(s) == Root(Near(t, s))
  {
    assert Close(Down(t, s), Near(t, s)) == t;
    ClimbHolds(m, root, Down(t, s), c, Near(t, s));
  }

  /** Going left of a node that the range precedes. */
  lemma GoLeft(m: map<Vmar, Span>, c: Ctx, t: Tree, lo: nat, hi: nat)
    requires t.Bin? && Sorted(m, InOrder(Plug(c, t))) && Between(m, c, lo, hi)
    requires t.n in m && hi <= m[t.n].first <= m[t.n].end
    ensures Between(m, Up(Down(t, L), c), lo, hi)
  {
    InOrderPlug(c, t);
    var s, k := InOrder(Plug(c, t)), |Before(c)| + |InOrder(t.l)|;
    assert s[k] == t.n;
    var b := After(Up(Down(t, L), c));
    assert b == [t.n] + InOrder(t.r) + After(c);
    forall i | 0 <= i < |b|
      ensures b[i] in m && hi <= m[b[i]].first
    {
      assert b[i] == s[k + i] && s[k + i] in s;
    }
  }

  /** Going right of a node that the range follows. */
  lemma GoRight(m: map<Vmar, Span>, c: Ctx, t: Tree, lo: nat, hi: nat)
    requires t.Bin? && Sorted(m, InOrder(Plug(c, t))) && Between(m, c, lo, hi)
    requires t.n in m && lo >= m[t.n].end >= m[t.n].first
    requires forall v :: v in m ==> m[v].first <= m[v].end
    ensures Between(m, Up(Down(t, R), c), lo, hi)
  {
    InOrderPlug(c, t);
    var s, k := InOrder(Plug(c, t)), |Before(c)| + |InOrder(t.l)|;
    assert s[k] == t.n;
    var a := Before(Up(Down(t, R), c));
    assert a == Before(c) + (InOrder(t.l) + [t.n]);
    forall i | 0 <= i < |a|
      ensures a[i] in m && m[a[i]].end <= lo
    {
      assert a[i] == s[i] && s[i] in s;
    }
  }

  /** Where the walk stands: the subtree in focus, and nothing on either side of it can overlap. */
  ghost predicate Walk(m: Mem, sp: map<Vmar, Span>, root: Vmar?, c: Ctx, t: Tree, whole: Tree, lo: nat, hi: nat) {
    && HoldsAt(m, root, c, t) && Plug(c, t) == whole && Between(sp, c, lo, hi) && Sorted(sp, InOrder(whole))
    && forall v :: v in sp ==> sp[v].first <= sp[v].end
  }

  ghost predicate WalkAt(k: int, m: Mem, sp: map<Vmar, Span>, root: Vmar?, c: Ctx, t: Tree, whole: Tree, lo: nat, hi: nat) {
    k == 0 ==> Walk(m, sp, root, c, t, whole, lo, hi)
  }

  /** Walk, closed to the loop that only passes it on. */
  ghost predicate Walking(m: Mem, sp: map<Vmar, Span>, root: Vmar?, c: Ctx, t: Tree, whole: Tree, lo: nat, hi: nat) {
    forall k :: WalkAt(k, m, sp, root, c, t, whole, lo, hi)
  }

  lemma FoldWalk(m: Mem, sp: map<Vmar, Span>, root: Vmar?, c: Ctx, t: Tree, whole: Tree, lo: nat, hi: nat)
    requires Walk(m, sp, root, c, t, whole, lo, hi)
    ensures Walking(m, sp, root, c, t, whole, lo, hi)
  {
  }

  lemma WalkStep(m: Mem, sp: map<Vmar, Span>, root: Vmar?, c: Ctx, t: Tree, whole: Tree, lo: nat, hi: nat)
    requires Walking(m, sp, root, c, t, whole, lo, hi) && t.Bin?
    ensures t.n in m && m[t.n].left == Root(t.l) && m[t.n].right == Root(t.r)
    ensures t.n in InOrder(whole) && t.n in sp
    ensures hi <= sp[t.n].first ==> Walking(m, sp, root, Up(Down(t, L), c), t.l, whole, lo, hi)
    ensures lo >= sp[t.n].end ==> Walking(m, sp, root, Up(Down(t, R), c), t.r, whole, lo, hi)
  {
    assert WalkAt(0, m, sp, root, c, t, whole, lo, hi);
    DownStep(m, root, c, t, L);
    DownStep(m, root, c, t, R);
    InOrderPlug(c, t);
    assert t.n in InOrder(t);
    if hi <= sp[t.n].first {
      GoLeft(sp, c, t, lo, hi);
    }
    if lo >= sp[t.n].end {
      GoRight(sp, c, t, lo, hi);
    }
  }

  lemma WalkCell(m: Mem, sp: map<Vmar, Span>, nodes: set<Vmar>, v: Vmar)
    requires m == Snap(nodes) && sp == Spans(nodes) && v in m
    ensures v in sp && m[v] == CellOf(v) && sp[v] == Span(v.first, v.End())
  {
  }

  /** The walk shared by rb_find and rb_find_add: an overlapping member, or the hole where the
      range belongs. */
  method Locate(root: RbRoot, lo: nat, hi: nat, ghost t: Tree)
      returns (found: Vmar?, parent: Vmar?, side: Side, ghost c: Ctx)
    requires Valid(root, t)
    ensures Valid(root, t)
    ensures found != null ==> found in InOrder(t) && !(hi <= found.first) && !(found.End() <= lo)
    ensures found == null ==> Walk(Snap(Nodes(t)), Spans(Nodes(t)), root.node, c, Nil, t, lo, hi)
    ensures found == null ==> parent == ParOf(c, null) && (c.Up? ==> side == c.f.side)
  {
    ghost var nodes, tt := Nodes(t), t;
    ghost var m, sp := Snap(nodes), Spans(nodes);
    var link := root.node;
    parent, side, c := null, L, Top;
    assert Walking(m, sp, root.node, c, tt, t, lo, hi) && link == Root(tt) by {
      Open(root, t);
      FoldWalk(m, sp, root.node, c, tt, t, lo, hi);
    }
    while link != null
      invariant Walking(m, sp, root.node, c, tt, t, lo, hi)
      invariant m == Snap(nodes) && sp == Spans(nodes)
      invariant link == Root(tt) && parent == ParOf(c, null) && (c.Up? ==> side == c.f.side)
      decreases tt
    {
      parent := link;
      WalkStep(m, sp, root.node, c, tt, t, lo, hi);
      WalkCell(m, sp, nodes, parent);
      var cmp := CompareRanges(lo, hi, parent);
      if cmp == 0 {
        return parent, null, L, Top;
      }
      side := if cmp < 0 then L else R;
      link := if cmp < 0 then parent.left else parent.right;
      c, tt := Up(Down(tt, side), c), if cmp < 0 then tt.l else tt.r;
    }
    assert WalkAt(0, m, sp, root.node, c, tt, t, lo, hi);
    return null, parent, side, c;
  }
}
