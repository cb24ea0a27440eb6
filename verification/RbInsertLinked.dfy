/** `rb_find_add_augmented_linked` (src/lib/rbtree/rbtree_augmented.h). */
module RbInsertLinked {
  import opened VmarNode
  import opened RbTree
  import opened RbAugment
  import opened RbInsert
  import opened RbErase
  import opened RbLinked
  import opened RbSearch

  lemma GrowHolds(m: Mem, m': Mem, root: Vmar?, c: Ctx, t: Tree)
    requires HoldsAt(m, root, c, t) && forall v :: v in m ==> v in m' && m'[v] == m[v]
    ensures HoldsAt(m', root, c, t)
  {
    RepFrame(m, m', t, ParOf(c, null));
    SegFrame(m, m', c, Root(t), root, null);
  }

  ghost function Leaf(node: Vmar, gap: nat): Tree {
    Bin(Nil, node, false, gap, gap, Nil)
  }

  /** The stores of rb_link_node, in order. */
  ghost function LeafMem(m: Mem, node: Vmar, parent: Vmar?, side: Side): Mem
    requires node in m && Opt(parent) <= m.Keys
  {
    var m1 := m[node := m[node].(left := null, right := null, parent := parent, black := false)];
    if parent == null then m1 else m1[parent := m1[parent].WithChild(side, node)]
  }

  method ClearLeaf(node: Vmar, parent: Vmar?, ghost nodes: set<Vmar>)
    requires node in nodes
    modifies node`left, node`right, node`rbParent, node`black
    ensures var m := old(Snap(nodes));
            Snap(nodes) == m[node := m[node].(left := null, right := null, parent := parent, black := false)]
  {
    node.rbParent, node.black := parent, false;
    node.left, node.right := null, null;
  }

  /** rb_link_node */
  method LinkLeaf(node: Vmar, parent: Vmar?, side: Side, root: RbRoot, ghost nodes: set<Vmar>)
    requires {node} + Opt(parent) <= nodes && node != parent
    modifies nodes`left, nodes`right, nodes`rbParent, nodes`black, root`node
    ensures Snap(nodes) == LeafMem(old(Snap(nodes)), node, parent, side)
    ensures root.node == if parent == null then node else old(root.node)
  {
    ClearLeaf(node, parent, nodes);
    if parent == null {
      root.node := node;
    } else {
      SetChild(parent, side, node, nodes);
    }
  }

  lemma LeafHolds(m: Mem, root: Vmar?, c: Ctx, node: Vmar, gap: nat)
    requires HoldsAt(m, root, c, Nil) && node in m && node !in CNodes(c) && m[node].gap == m[node].maxGap == gap
    ensures Opt(ParOf(c, null)) <= m.Keys && ParOf(c, null) != node
    ensures var m' := LeafMem(m, node, ParOf(c, null), if c.Up? then c.f.side else L);
            HoldsAt(m', NewRoot(c, root, node), c, Leaf(node, gap))
  {
    var m' := LeafMem(m, node, ParOf(c, null), if c.Up? then c.f.side else L);
    SegEdit(m, m', c, null, root, node, NewRoot(c, root, node));
  }

  lemma LeafState(m: Mem, root: Vmar?, c: Ctx, node: Vmar, gap: nat)
    requires HoldsAt(m, root, Propagated(c, gap), Leaf(node, gap)) && Sound(Plug(c, Nil))
    ensures InsertState(m, root, Propagated(c, gap), Leaf(node, gap), 0, Before(c) + [node] + After(c))
  {
    var c', t := Propagated(c, gap), Leaf(node, gap);
    UnplugRedBlack(c, Nil);
    PlugAug(c, Nil);
    PropagatedAug(c, gap);
    assert Alike(c, c') && Before(c') == Before(c) && After(c') == After(c) by { PropagatedShape(c, gap); }
    AlikeOk(c, c', 0);
    InOrderPlug(c', t);
    assert InOrder(t) == [node];
  }

  /** Linking a red leaf, propagating its gap and rebalancing. */
  method AddLeaf(node: Vmar, parent: Vmar?, side: Side, root: RbRoot, ghost c: Ctx, ghost nodes: set<Vmar>) returns (ghost tree: Tree)
    requires HoldsAt(Snap(nodes), root.node, c, Nil) && Sound(Plug(c, Nil))
    requires node in nodes && node !in CNodes(c) && node.gap == node.maxGap
    requires parent == ParOf(c, null) && (c.Up? ==> side == c.f.side)
    modifies nodes`left, nodes`right, nodes`rbParent, nodes`black, nodes`maxGap, root`node
    ensures Finished(Snap(nodes), root.node, tree, Before(c) + [node] + After(c))
  {
    ghost var gap := node.gap;
    assert Snap(nodes)[node] == CellOf(node);
    LeafHolds(Snap(nodes), root.node, c, node, gap);
    LinkLeaf(node, parent, side, root, nodes);
    PropagateUp(parent, root, c, Leaf(node, gap), nodes);
    LeafState(Snap(nodes), root.node, c, node, gap);
    tree := InsertColor(node, root, Propagated(c, gap), Leaf(node, gap), 0, Before(c) + [node] + After(c), nodes);
  }

  /** Rebalancing does not touch the ordered links. */
  method AddLeafKeepsLinks(node: Vmar, parent: Vmar?, side: Side, root: RbRoot, ghost c: Ctx, ghost nodes: set<Vmar>) returns (ghost tree: Tree)
    requires HoldsAt(Snap(nodes), root.node, c, Nil) && Sound(Plug(c, Nil))
    requires node in nodes && node !in CNodes(c) && node.gap == node.maxGap
    requires parent == ParOf(c, null) && (c.Up? ==> side == c.f.side)
    modifies nodes`left, nodes`right, nodes`rbParent, nodes`black, nodes`maxGap, root`node
    ensures Finished(Snap(nodes), root.node, tree, Before(c) + [node] + After(c))
    ensures Links(nodes) == old(Links(nodes))
  {
    tree := AddLeaf(node, parent, side, root, c, nodes);
  }

  /** The parent of a hole is its neighbour in the order. */
  lemma HoleNeighbour(c: Ctx)
    ensures c.Top? ==> Before(c) == After(c) == []
    ensures c.Up? && c.f.side.L? ==> After(c) != [] && After(c)[0] == c.f.n
    ensures c.Up? && c.f.side.R? ==> Before(c) != [] && Last(Before(c)) == c.f.n
  {
  }

  lemma HoleOrder(c: Ctx, t: Tree)
    requires Plug(c, Nil) == t && Disj(t)
    ensures InOrder(t) == Before(c) + After(c) && Distinct(InOrder(t)) && Nodes(t) == CNodes(c) == Elems(InOrder(t))
  {
    assert InOrder(t) == Before(c) + After(c) by {
      InOrderPlug(c, Nil);
      assert Before(c) + [] + After(c) == Before(c) + After(c);
    }
    assert Nodes(t) == CNodes(c) by { NodesPlug(c, Nil); }
    assert Nodes(t) == Elems(InOrder(t)) by { NodesInOrder(t); }
    assert Distinct(InOrder(t)) by { DisjDistinct(t); }
  }

  lemma SortedInsert(m: map<Vmar, Span>, a: seq<Vmar>, node: Vmar, b: seq<Vmar>)
    requires Sorted(m, a + b) && node in m
    requires forall v :: v in a ==> v in m && m[v].end <= m[node].first
    requires forall v :: v in b ==> v in m && m[node].end <= m[v].first
    ensures Sorted(m, a + [node] + b)
  {
    var s, s' := a + b, a + [node] + b;
    forall i, j | 0 <= i < j < |s'|
      ensures m[s'[i]].end <= m[s'[j]].first
    {
      if j == |a| {
        assert s'[i] == a[i] && a[i] in a;
      } else if i == |a| {
        assert s'[j] == b[j - |a| - 1] && b[j - |a| - 1] in b;
      } else {
        var i', j' := if i < |a| then i else i - 1, if j < |a| then j else j - 1;
        assert s'[i] == s[i'] && s'[j] == s[j'];
      }
    }
  }

  lemma SortedWith(m: map<Vmar, Span>, m': map<Vmar, Span>, c: Ctx, t: Tree, node: Vmar)
    requires InOrder(t) == Before(c) + After(c) && Sorted(m, InOrder(t))
    requires node in m' && forall v :: v in m ==> v in m' && m'[v] == m[v]
    requires Between(m, c, m'[node].first, m'[node].end)
    ensures Sorted(m', Before(c) + [node] + After(c))
  {
    assert Sorted(m', InOrder(t)) by { SortedGrow(m, m', InOrder(t)); }
    SortedInsert(m', Before(c), node, After(c));
  }

  lemma SortedGrow(m: map<Vmar, Span>, m': map<Vmar, Span>, s: seq<Vmar>)
    requires Sorted(m, s) && forall v :: v in m ==> v in m' && m'[v] == m[v]
    ensures Sorted(m', s)
  {
  }

  /** A linked tree in the middle of an insertion: its nodes and the new one. */
  method AddOrdered(node: Vmar, parent: Vmar?, side: Side, root: RbRoot, ghost c: Ctx, ghost nodes: set<Vmar>) returns (ghost tree: Tree)
    requires HoldsAt(Snap(nodes), root.node, c, Nil) && Sound(Plug(c, Nil))
    requires Spells(Links(nodes), Before(c) + After(c)) && root.leftmost == At(Before(c) + After(c), 0)
    requires Distinct(Before(c) + After(c)) && node !in Before(c) + After(c)
    requires node in nodes && node !in CNodes(c) && node.gap == node.maxGap
    requires parent == ParOf(c, null) && (c.Up? ==> side == c.f.side)
    modifies nodes`left, nodes`right, nodes`rbParent, nodes`black, nodes`maxGap, nodes`prev, nodes`next
    modifies root`node, root`leftmost
    ensures var s := Before(c) + [node] + After(c);
            Finished(Snap(nodes), root.node, tree, s) && Spells(Links(nodes), s) && root.leftmost == At(s, 0)
  {
    HoleNeighbour(c);
    LinkOrdered(node, parent, side, root, Before(c), After(c), nodes);
    tree := AddLeafKeepsLinks(node, parent, side, root, c, nodes);
  }

  method AddOrderedKeepsSpans(node: Vmar, parent: Vmar?, side: Side, root: RbRoot, ghost c: Ctx, ghost nodes: set<Vmar>) returns (ghost tree: Tree)
    requires HoldsAt(Snap(nodes), root.node, c, Nil) && Sound(Plug(c, Nil))
    requires Spells(Links(nodes), Before(c) + After(c)) && root.leftmost == At(Before(c) + After(c), 0)
    requires Distinct(Before(c) + After(c)) && node !in Before(c) + After(c)
    requires node in nodes && node !in CNodes(c) && node.gap == node.maxGap
    requires parent == ParOf(c, null) && (c.Up? ==> side == c.f.side)
    modifies nodes`left, nodes`right, nodes`rbParent, nodes`black, nodes`maxGap, nodes`prev, nodes`next
    modifies root`node, root`leftmost
    ensures var s := Before(c) + [node] + After(c);
            Finished(Snap(nodes), root.node, tree, s) && Spells(Links(nodes), s) && root.leftmost == At(s, 0)
    ensures Spans(nodes) == old(Spans(nodes))
  {
    tree := AddOrdered(node, parent, side, root, c, nodes);
  }

  lemma WithLeaf(c: Ctx, t: Tree, node: Vmar, t': Tree)
    requires Plug(c, Nil) == t && Disj(t) && InOrder(t') == Before(c) + [node] + After(c)
    ensures Nodes(t') == Nodes(t) + {node} && |Before(c)| <= |InOrder(t)|
    ensures InOrder(t') == InOrder(t)[..|Before(c)|] + [node] + InOrder(t)[|Before(c)|..]
  {
    HoleOrder(c, t);
    NodesInOrder(t');
  }

  method AddAt(node: Vmar, parent: Vmar?, side: Side, root: RbRoot, ghost c: Ctx, ghost t: Tree) returns (ghost t': Tree)
    requires Valid(root, t) && node !in Nodes(t) && node.maxGap == node.gap
    requires Plug(c, Nil) == t && HoldsAt(Snap(Nodes(t)), root.node, c, Nil) && Between(Spans(Nodes(t)), c, node.first, node.End())
    requires parent == ParOf(c, null) && (c.Up? ==> side == c.f.side)
    modifies (Nodes(t) + {node})`left, (Nodes(t) + {node})`right, (Nodes(t) + {node})`rbParent
    modifies (Nodes(t) + {node})`black, (Nodes(t) + {node})`maxGap
    modifies (Nodes(t) + {node})`prev, (Nodes(t) + {node})`next, root`node, root`leftmost
    ensures Valid(root, t') && |Before(c)| <= |InOrder(t)| && Nodes(t') == Nodes(t) + {node}
    ensures InOrder(t') == InOrder(t)[..|Before(c)|] + [node] + InOrder(t)[|Before(c)|..]
  {
    ghost var nodes := Nodes(t) + {node};
    Open(root, t);
    HoleOrder(c, t);
    assert HoldsAt(Snap(nodes), root.node, c, Nil) by { GrowHolds(Snap(Nodes(t)), Snap(nodes), root.node, c, Nil); }
    assert Spells(Links(nodes), Before(c) + After(c)) by { assert Spells(Links(Nodes(t)), Before(c) + After(c)); }
    assert Sorted(Spans(nodes), Before(c) + [node] + After(c)) by {
      SortedWith(Spans(Nodes(t)), Spans(nodes), c, t, node);
    }
    t' := AddOrderedKeepsSpans(node, parent, side, root, c, nodes);
    WithLeaf(c, t, node, t');
    Fold(root, t');
  }

  /** rb_find_add_augmented_linked */
  method FindAdd(node: Vmar, root: RbRoot, ghost t: Tree) returns (found: Vmar?, ghost t': Tree, ghost at: nat)
    requires Valid(root, t) && node !in Nodes(t) && node.maxGap == node.gap
    modifies (Nodes(t) + {node})`left, (Nodes(t) + {node})`right, (Nodes(t) + {node})`rbParent
    modifies (Nodes(t) + {node})`black, (Nodes(t) + {node})`maxGap
    modifies (Nodes(t) + {node})`prev, (Nodes(t) + {node})`next, root`node, root`leftmost
    ensures found != null ==> found in InOrder(t) && !(node.End() <= found.first) && !(found.End() <= node.first)
    ensures found != null ==> Valid(root, t) && t' == t && unchanged(node) && unchanged(root)
    ensures found == null ==>
              && Valid(root, t') && at <= |InOrder(t)| && Nodes(t') == Nodes(t) + {node}
              && InOrder(t') == InOrder(t)[..at] + [node] + InOrder(t)[at..]
  {
    var parent, side;
    ghost var c;
    found, parent, side, c := Locate(root, node.first, node.End(), t);
    if found != null {
      return found, t, 0;
    }
    t' := AddAt(node, parent, side, root, c, t);
    at := |Before(c)|;
  }
}
