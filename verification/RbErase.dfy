/** `__rb_erase_augmented` for a node with at most one child (src/lib/rbtree/rbtree_augmented.h). */
module RbErase {
  import opened VmarNode
  import opened RbTree
  import opened RbAugment
  import opened RbInsert
  import opened RbEraseColor

  /** A child pointer found by comparing with the old child is the one on the path. */
  lemma ChangeChildIs(m: Mem, c: Ctx, o: Vmar, root: Vmar?, n: Vmar?)
    requires Seg(m, c, o, root, null) && CDisj(c) && o !in CNodes(c) && c.Up?
    ensures c.f.n in m
    ensures Relinked(m, c, n) == m[c.f.n := m[c.f.n].WithChild(if m[c.f.n].left == o then L else R, n)]
  {
  }

  ghost function NewRoot(c: Ctx, root: Vmar?, n: Vmar?): Vmar? {
    if c.Top? then n else root
  }

  // ----- at most one child -----

  ghost function Spliced(m: Mem, c: Ctx, k: Tree, black: bool): Mem {
    var m1 := Relinked(m, c, Root(k));
    if k.Nil? then m1 else m1[k.n := RootCell(Paint(k, black), ParOf(c, null))]
  }

  lemma SpliceHolds(m: Mem, root: Vmar?, c: Ctx, t: Tree, k: Tree)
    requires HoldsAt(m, root, c, t) && t.Bin? && ((k == t.l && t.r.Nil?) || (k == t.r && t.l.Nil?))
    ensures HoldsAt(Spliced(m, c, k, t.black), NewRoot(c, root, Root(k)), c, Paint(k, t.black))
  {
    var m' := Spliced(m, c, k, t.black);
    assert Nodes(t) == Nodes(k) + {t.n};
    RepEdit(m, m', k, t.n, Paint(k, t.black), ParOf(c, null));
    SegEdit(m, m', c, t.n, root, Root(k), NewRoot(c, root, Root(k)));
  }

  lemma SpliceBalanced(c: Ctx, t: Tree, k: Tree)
    requires RedBlack(Plug(c, t)) && t.Bin? && ((k == t.l && t.r.Nil?) || (k == t.r && t.l.Nil?))
    ensures k.Bin? ==> BlackHeight(Paint(k, t.black), 1) && NoRedRed(Paint(k, t.black)) && t.black && CtxOk(c, 1)
    ensures k.Nil? && t.black ==> CtxOk(c, 1)
    ensures k.Nil? && !t.black ==> CtxOk(c, 0)
  {
    UnplugRedBlack(c, t);
    var h := Height(t);
    assert h == B(t.black) && BlackHeight(k, 0);
    if k.Bin? {
      if k.black {
        HeightUnique(k.l, -1);
        HeightNonNegative(k.l);
        assert false;
      }
      assert BlackHeight(k.l, 0) && BlackHeight(k.r, 0) && NoRedRed(k);
    }
  }

  method Splice(node: Vmar, child: Vmar?, root: RbRoot, ghost c: Ctx, ghost t: Tree, ghost k: Tree, ghost nodes: set<Vmar>)
      returns (parent: Vmar?)
    requires HoldsAt(Snap(nodes), root.node, c, t) && t.Bin? && node == t.n && child == Root(k)
    requires (k == t.l && t.r.Nil?) || (k == t.r && t.l.Nil?)
    modifies nodes`left, nodes`right, nodes`rbParent, nodes`black, root`node
    ensures parent == ParOf(c, null)
    ensures HoldsAt(Snap(nodes), root.node, c, Paint(k, t.black))
  {
    ghost var m := Snap(nodes);
    SpliceHolds(m, root.node, c, t, k);
    SpliceCells(m, root.node, c, t, k);
    parent := SpliceStores(node, child, root, nodes);
  }

  /** The child takes the parent and the colour of the node it replaces. */
  ghost function SplicedMem(m: Mem, node: Vmar, child: Vmar?): Mem
    requires node in m && Opt(m[node].parent) + Opt(child) <= m.Keys
  {
    var p := m[node].parent;
    var m1 := if p == null then m else m[p := m[p].WithChild(if m[p].left == node then L else R, child)];
    if child == null then m1 else m1[child := m1[child].(parent := p, black := m[node].black)]
  }

  method SpliceStores(node: Vmar, child: Vmar?, root: RbRoot, ghost nodes: set<Vmar>) returns (parent: Vmar?)
    requires {node} + Opt(node.rbParent) + Opt(child) <= nodes && node.rbParent != node && child != node
    modifies nodes`left, nodes`right, nodes`rbParent, nodes`black, root`node
    ensures parent == old(node.rbParent) && root.node == if parent == null then child else old(root.node)
    ensures Snap(nodes) == SplicedMem(old(Snap(nodes)), node, child)
  {
    ghost var m := Snap(nodes);
    assert m[node] == CellOf(node);
    parent := node.rbParent;
    ChangeChild(node, child, parent, root, nodes);
    if child != null {
      SetParentColor(child, parent, node.black, nodes);
    }
  }

  lemma SpliceCells(m: Mem, root: Vmar?, c: Ctx, t: Tree, k: Tree)
    requires HoldsAt(m, root, c, t) && t.Bin? && ((k == t.l && t.r.Nil?) || (k == t.r && t.l.Nil?))
    ensures t.n in m && m[t.n] == RootCell(t, ParOf(c, null)) && (k.Bin? ==> k.n in m && k.n != t.n)
    ensures Opt(ParOf(c, null)) <= m.Keys && ParOf(c, null) != t.n && Spliced(m, c, k, t.black) == SplicedMem(m, t.n, Root(k))
  {
    if c.Up? {
      ChangeChildIs(m, c, t.n, root, Root(k));
    }
    assert k.Bin? ==> Rep(m, k, t.n);
  }

  /** What `__rb_erase_augmented` leaves for the colour fix-up. */
  ghost predicate Erased(m: Mem, root: Vmar?, rebalance: Vmar?, c: Ctx, t: Tree, h: int, order: seq<Vmar>) {
    if rebalance == null then Finished(m, root, Plug(c, t), order)
    else t.Nil? && EraseState(m, root, c, t, h, order) && rebalance == c.f.n
  }

  /** The order without the erased node. */
  ghost function Without(c: Ctx, t: Tree): seq<Vmar>
    requires t.Bin?
  {
    Before(c) + InOrder(t.l) + (InOrder(t.r) + After(c))
  }

  lemma SplicedOk(c: Ctx, c': Ctx, t: Tree, k: Tree)
    requires Sound(Plug(c, t)) && t.Bin? && ((k == t.l && t.r.Nil?) || (k == t.r && t.l.Nil?)) && Alike(c, c')
    ensures CtxOk(c', if k.Nil? && !t.black then 0 else 1)
  {
    SpliceBalanced(c, t, k);
    AlikeOk(c, c', if k.Nil? && !t.black then 0 else 1);
  }

  lemma SplicedOrder(c: Ctx, c': Ctx, t: Tree, k: Tree)
    requires t.Bin? && ((k == t.l && t.r.Nil?) || (k == t.r && t.l.Nil?)) && Before(c') == Before(c) && After(c') == After(c)
    ensures InOrder(Plug(c', Paint(k, t.black))) == Without(c, t)
  {
    ChildOrder(t, k);
    InOrderPlug(c', Paint(k, t.black));
  }

  lemma ChildOrder(t: Tree, k: Tree)
    requires t.Bin? && ((k == t.l && t.r.Nil?) || (k == t.r && t.l.Nil?))
    ensures InOrder(Paint(k, t.black)) == InOrder(t.l) + InOrder(t.r)
  {
    assert InOrder(Paint(k, t.black)) == InOrder(k);
    assert k == t.l ==> InOrder(k) + [] == InOrder(k);
    assert k == t.r ==> [] + InOrder(k) == InOrder(k);
  }

  lemma OneChildShape(c: Ctx, t: Tree, k: Tree)
    requires Sound(Plug(c, t)) && t.Bin? && ((k == t.l && t.r.Nil?) || (k == t.r && t.l.Nil?))
    ensures var k' := Paint(k, t.black);
            var c' := Propagated(c, Mx(k'));
            && Aug(k') && CAug(c', Mx(k')) && InOrder(Plug(c', k')) == Without(c, t)
            && CtxOk(c', if k.Nil? && !t.black then 0 else 1) && ParOf(c', null) == ParOf(c, null)
  {
    var k' := Paint(k, t.black);
    var c' := Propagated(c, Mx(k'));
    assert Aug(t) && CAug(c, Mx(t)) by { PlugAug(c, t); }
    assert Aug(k') by { assert Aug(k); }
    assert CAug(c', Mx(k')) by { PropagatedAug(c, Mx(k')); }
    assert Alike(c, c') && Before(c') == Before(c) && After(c') == After(c) && ParOf(c', null) == ParOf(c, null) by {
      PropagatedShape(c, Mx(k'));
    }
    SplicedOk(c, c', t, k);
    SplicedOrder(c, c', t, k);
  }

  lemma OneChildDone(m: Mem, root: Vmar?, c: Ctx, t: Tree, k: Tree, rebalance: Vmar?)
    requires Sound(Plug(c, t)) && t.Bin? && ((k == t.l && t.r.Nil?) || (k == t.r && t.l.Nil?))
    requires var k' := Paint(k, t.black); HoldsAt(m, root, Propagated(c, Mx(k')), k')
    requires rebalance == if k.Nil? && t.black then ParOf(c, null) else null
    ensures var k' := Paint(k, t.black);
            Erased(m, root, rebalance, Propagated(c, Mx(k')), k', 0, Without(c, t))
  {
    var k' := Paint(k, t.black);
    var c' := Propagated(c, Mx(k'));
    OneChildShape(c, t, k);
    if k.Bin? {
      SpliceBalanced(c, t, k);
      InsertDone(m, root, c', k', 1);
    } else if rebalance == null {
      InsertDone(m, root, c', k', 0);
    }
  }

  /** Case 1 of `__rb_erase_augmented`. */
  method EraseOneChild(node: Vmar, child: Vmar?, root: RbRoot, ghost c: Ctx, ghost t: Tree, ghost k: Tree, ghost nodes: set<Vmar>)
      returns (rebalance: Vmar?)
    requires HoldsAt(Snap(nodes), root.node, c, t) && Sound(Plug(c, t)) && t.Bin? && node == t.n && child == Root(k)
    requires (k == t.l && t.r.Nil?) || (k == t.r && t.l.Nil?)
    modifies nodes`left, nodes`right, nodes`rbParent, nodes`black, nodes`maxGap, root`node
    ensures var k' := Paint(k, t.black);
            Erased(Snap(nodes), root.node, rebalance, Propagated(c, Mx(k')), k', 0, Without(c, t))
  {
    assert Snap(nodes)[node].black == t.black;
    var black := node.black;
    var parent := Splice(node, child, root, c, t, k, nodes);
    rebalance := if child == null && black then parent else null;
    PropagateUp(parent, root, c, Paint(k, t.black), nodes);
    OneChildDone(Snap(nodes), root.node, c, t, k, rebalance);
  }
}
