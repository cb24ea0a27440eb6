/** `rb_erase_augmented` and `rb_erase_augmented_linked` (src/lib/rbtree/rbtree_augmented.h). */
module RbEraseLinked {
  import opened VmarNode
  import opened RbTree
  import opened RbAugment
  import opened RbInsert
  import opened RbEraseColor
  import opened RbErase
  import opened RbSuccessor
  import opened RbLinked
  import opened RbSearch

  /** Every node of a tree is the root of a subtree in some context. */
  lemma {:induction false} Focus(c0: Ctx, t0: Tree, node: Vmar) returns (c: Ctx, t: Tree)
    requires node in Nodes(t0)
    ensures Plug(c, t) == Plug(c0, t0) && t.Bin? && t.n == node
    decreases t0
  {
    if t0.n == node {
      return c0, t0;
    } else if node in Nodes(t0.l) {
      assert Close(Down(t0, L), t0.l) == t0;
      c, t := Focus(Up(Down(t0, L), c0), t0.l, node);
    } else {
      assert Close(Down(t0, R), t0.r) == t0;
      c, t := Focus(Up(Down(t0, R), c0), t0.r, node);
    }
  }

  /** __rb_erase_augmented: what is left to rebalance. */
  method Detach(node: Vmar, root: RbRoot, ghost c: Ctx, ghost t: Tree, ghost nodes: set<Vmar>)
      returns (rebalance: Vmar?, ghost c': Ctx, ghost t': Tree)
    requires HoldsAt(Snap(nodes), root.node, c, t) && Sound(Plug(c, t)) && t.Bin? && node == t.n
    modifies nodes`left, nodes`right, nodes`rbParent, nodes`black, nodes`maxGap, root`node
    ensures Erased(Snap(nodes), root.node, rebalance, c', t', 0, Without(c, t))
  {
    assert Snap(nodes)[node] == RootCell(t, ParOf(c, null));
    var child, tmp := node.right, node.left;
    if tmp == null {
      rebalance := EraseOneChild(node, child, root, c, t, t.r, nodes);
      t' := Paint(t.r, t.black);
      c' := Propagated(c, Mx(t'));
    } else if child == null {
      rebalance := EraseOneChild(node, tmp, root, c, t, t.l, nodes);
      t' := Paint(t.l, t.black);
      c' := Propagated(c, Mx(t'));
    } else {
      rebalance, c', t' := EraseTwoChildren(node, root, c, t, nodes);
    }
  }

  /** rb_erase_augmented */
  method Erase(node: Vmar, root: RbRoot, ghost c: Ctx, ghost t: Tree, ghost nodes: set<Vmar>) returns (ghost tree: Tree)
    requires HoldsAt(Snap(nodes), root.node, c, t) && Sound(Plug(c, t)) && t.Bin? && node == t.n
    modifies nodes`left, nodes`right, nodes`rbParent, nodes`black, nodes`maxGap, root`node
    ensures Finished(Snap(nodes), root.node, tree, Without(c, t))
  {
    var rebalance;
    ghost var c', t';
    rebalance, c', t' := Detach(node, root, c, t, nodes);
    if rebalance != null {
      tree := EraseColor(rebalance, root, c', 0, Without(c, t), nodes);
    } else {
      tree := Plug(c', t');
    }
  }

  /** The order around a node in focus. */
  lemma FocusOrder(c: Ctx, t: Tree)
    requires t.Bin? && Disj(Plug(c, t))
    ensures var a, b := Before(c) + InOrder(t.l), InOrder(t.r) + After(c);
            && InOrder(Plug(c, t)) == a + [t.n] + b && Without(c, t) == a + b
            && Distinct(a + [t.n] + b) && Nodes(Plug(c, t)) == Elems(a + [t.n] + b)
  {
    var a, b, s := Before(c) + InOrder(t.l), InOrder(t.r) + After(c), InOrder(Plug(c, t));
    assert s == a + [t.n] + b by {
      InOrderPlug(c, t);
      Flatten(Before(c), InOrder(t.l), t.n, InOrder(t.r), After(c));
    }
    assert Distinct(s) by { DisjDistinct(Plug(c, t)); }
    assert Nodes(Plug(c, t)) == Elems(s) by { NodesInOrder(Plug(c, t)); }
  }

  lemma Flatten(a: seq<Vmar>, b: seq<Vmar>, n: Vmar, d: seq<Vmar>, e: seq<Vmar>)
    ensures a + (b + [n] + d) + e == (a + b) + [n] + (d + e)
  {
  }

  /** Dropping an element keeps the order. */
  lemma SortedDrop(m: map<Vmar, Span>, a: seq<Vmar>, node: Vmar, b: seq<Vmar>)
    requires Sorted(m, a + [node] + b)
    ensures Sorted(m, a + b)
  {
    var s, s' := a + [node] + b, a + b;
    forall v | v in s'
      ensures v in m
    {
      assert v in s;
    }
    forall i, j | 0 <= i < j < |s'|
      ensures m[s'[i]].end <= m[s'[j]].first
    {
      var i', j' := if i < |a| then i else i + 1, if j < |a| then j else j + 1;
      assert s'[i] == s[i'] && s'[j] == s[j'];
    }
  }

  method EraseKeeps(node: Vmar, root: RbRoot, ghost c: Ctx, ghost t: Tree, ghost nodes: set<Vmar>) returns (ghost tree: Tree)
    requires HoldsAt(Snap(nodes), root.node, c, t) && Sound(Plug(c, t)) && t.Bin? && node == t.n
    modifies nodes`left, nodes`right, nodes`rbParent, nodes`black, nodes`maxGap, root`node
    ensures Finished(Snap(nodes), root.node, tree, Without(c, t))
    ensures Links(nodes) == old(Links(nodes)) && Spans(nodes) == old(Spans(nodes))
  {
    ghost var l, sp := Links(nodes), Spans(nodes);
    tree := Erase(node, root, c, t, nodes);
    assert AreLinks(l, nodes) && AreSpans(sp, nodes);
    assert Links(nodes) == l && Spans(nodes) == sp;
  }

  /** RB_CLEAR_LINKED_NODE: an empty node is its own parent. */
  method ClearNode(node: Vmar, ghost others: set<Vmar>)
    requires node !in others
    modifies node`rbParent, node`black, node`prev, node`next
    ensures node.rbParent == node && !node.black && node.prev == node.next == null
    ensures Snap(others) == old(Snap(others)) && Links(others) == old(Links(others)) && Spans(others) == old(Spans(others))
  {
    node.rbParent, node.black := node, false;
    node.prev, node.next := null, null;
  }

  lemma ShrinkHolds(m: Mem, m': Mem, root: Vmar?, t: Tree)
    requires HoldsAt(m, root, Top, t) && SameOn(m, m', Nodes(t))
    ensures HoldsAt(m', root, Top, t)
  {
    RepFrame(m, m', t, null);
  }

  /** The links and the leftmost spell s, which is address order. */
  ghost predicate Threaded(l: map<Vmar, Link>, sp: map<Vmar, Span>, leftmost: Vmar?, s: seq<Vmar>) {
    Spelled(l, leftmost, s) && Sorted(sp, s)
  }

  /** Everything but the node itself, once it is out. */
  ghost predicate Remains(m: Mem, l: map<Vmar, Link>, sp: map<Vmar, Span>, root: Vmar?, leftmost: Vmar?, t: Tree, s: seq<Vmar>) {
    Finished(m, root, t, s) && Threaded(l, sp, leftmost, s)
  }

  method Unthread(node: Vmar, root: RbRoot, ghost a: seq<Vmar>, ghost b: seq<Vmar>, ghost nodes: set<Vmar>)
    requires Threaded(Links(nodes), Spans(nodes), root.leftmost, a + [node] + b) && Distinct(a + [node] + b)
    modifies nodes`prev, nodes`next, root`leftmost
    ensures Threaded(Links(nodes), Spans(nodes), root.leftmost, a + b)
    ensures Snap(nodes) == old(Snap(nodes))
  {
    SortedDrop(Spans(nodes), a, node, b);
    UnlinkOrdered(node, root, a, b, nodes);
  }

  method EraseOrdered(node: Vmar, root: RbRoot, ghost c: Ctx, ghost t: Tree, ghost a: seq<Vmar>, ghost b: seq<Vmar>, ghost nodes: set<Vmar>)
      returns (ghost tree: Tree)
    requires HoldsAt(Snap(nodes), root.node, c, t) && Sound(Plug(c, t)) && t.Bin? && node == t.n && Without(c, t) == a + b
    requires Threaded(Links(nodes), Spans(nodes), root.leftmost, a + [node] + b) && Distinct(a + [node] + b)
    modifies nodes`left, nodes`right, nodes`rbParent, nodes`black, nodes`maxGap, nodes`prev, nodes`next, root`node, root`leftmost
    ensures Remains(Snap(nodes), Links(nodes), Spans(nodes), root.node, root.leftmost, tree, a + b)
  {
    Unthread(node, root, a, b, nodes);
    tree := EraseKeeps(node, root, c, t, nodes);
  }

  lemma RemainsValid(m: Mem, m': Mem, l: map<Vmar, Link>, l': map<Vmar, Link>, sp: map<Vmar, Span>, sp': map<Vmar, Span>,
                     root: Vmar?, leftmost: Vmar?, t: Tree, s: seq<Vmar>)
    requires Remains(m, l, sp, root, leftmost, t, s) && SameOn(m, m', Nodes(t))
    requires forall v :: v in Nodes(t) && v in l ==> v in l' && l'[v] == l[v]
    requires forall v :: v in Nodes(t) && v in sp ==> v in sp' && sp'[v] == sp[v]
    ensures Remains(m', l', sp', root, leftmost, t, s)
  {
    assert Nodes(t) == Elems(s) by { NodesInOrder(t); }
    assert Finished(m', root, t, s) by { ShrinkHolds(m, m', root, t); }
    ThreadKept(l, l', sp, sp', leftmost, s);
  }

  lemma ThreadKept(l: map<Vmar, Link>, l': map<Vmar, Link>, sp: map<Vmar, Span>, sp': map<Vmar, Span>, leftmost: Vmar?, s: seq<Vmar>)
    requires Threaded(l, sp, leftmost, s)
    requires forall v :: v in Elems(s) && v in l ==> v in l' && l'[v] == l[v]
    requires forall v :: v in Elems(s) && v in sp ==> v in sp' && sp'[v] == sp[v]
    ensures Threaded(l', sp', leftmost, s)
  {
    OpenSpelled(l, leftmost, s);
    RemainsSpelled(l, l', sp, sp', s);
    FoldSpelled(l', leftmost, s);
  }

  lemma RemainsSpelled(l: map<Vmar, Link>, l': map<Vmar, Link>, sp: map<Vmar, Span>, sp': map<Vmar, Span>, s: seq<Vmar>)
    requires Spells(l, s) && Sorted(sp, s)
    requires forall v :: v in Elems(s) && v in l ==> v in l' && l'[v] == l[v]
    requires forall v :: v in Elems(s) && v in sp ==> v in sp' && sp'[v] == sp[v]
    ensures Spells(l', s) && Sorted(sp', s)
  {
    assert forall i :: 0 <= i < |s| ==> s[i] in s && s[i] in Elems(s);
    assert forall v :: v in s ==> v in Elems(s);
  }

  /** Where a node of a valid tree is, in the tree and in the order. */
  lemma FocusValid(m: Mem, root: Vmar?, t: Tree, node: Vmar) returns (c: Ctx, tt: Tree, a: seq<Vmar>, b: seq<Vmar>)
    requires HoldsAt(m, root, Top, t) && Sound(t) && node in Nodes(t)
    ensures HoldsAt(m, root, c, tt) && Sound(Plug(c, tt)) && tt.Bin? && tt.n == node && Plug(c, tt) == t
    ensures Without(c, tt) == a + b && InOrder(t) == a + [node] + b && Distinct(a + [node] + b)
    ensures a == Before(c) + InOrder(tt.l) && b == InOrder(tt.r) + After(c)
  {
    c, tt := Focus(Top, t, node);
    PlugHolds(m, root, c, tt);
    FocusOrder(c, tt);
    a, b := Before(c) + InOrder(tt.l), InOrder(tt.r) + After(c);
  }

  lemma DropElems(a: seq<Vmar>, node: Vmar, b: seq<Vmar>)
    requires Distinct(a + [node] + b)
    ensures node !in a + b && Elems(a + b) <= Elems(a + [node] + b)
    ensures var s := a + [node] + b; |a| < |s| && s[|a|] == node && s[..|a|] == a && s[|a| + 1..] == b
  {
    var s := a + [node] + b;
    assert s[|a|] == node;
    forall i | 0 <= i < |a + b|
      ensures (a + b)[i] != node && (a + b)[i] in s
    {
      assert (a + b)[i] == s[if i < |a| then i else i + 1];
    }
  }

  lemma Shrunk(t: Tree, t': Tree, a: seq<Vmar>, node: Vmar, b: seq<Vmar>)
    requires InOrder(t) == a + [node] + b && Distinct(a + [node] + b) && InOrder(t') == a + b
    ensures Nodes(t') <= Nodes(t) && node !in Nodes(t')
    ensures |a| < |InOrder(t)| && InOrder(t)[|a|] == node && InOrder(t') == InOrder(t)[..|a|] + InOrder(t)[|a| + 1..]
  {
    NodesInOrder(t);
    NodesInOrder(t');
    DropElems(a, node, b);
  }

  method ClearErased(node: Vmar, root: RbRoot, ghost t: Tree, ghost s: seq<Vmar>, ghost nodes: set<Vmar>)
    requires Remains(Snap(nodes), Links(nodes), Spans(nodes), root.node, root.leftmost, t, s)
    requires Nodes(t) <= nodes && node !in Nodes(t)
    modifies node`rbParent, node`black, node`prev, node`next
    ensures Parts(root, t) && node.rbParent == node && node.prev == node.next == null
  {
    ghost var ns := Nodes(t);
    RemainsValid(Snap(nodes), Snap(ns), Links(nodes), Links(ns), Spans(nodes), Spans(ns), root.node, root.leftmost, t, s);
    ClearNode(node, ns);
    OpenSpelled(Links(ns), root.leftmost, s);
  }

  /** rb_erase_augmented_linked */
  method EraseLinked(node: Vmar, root: RbRoot, ghost t: Tree) returns (nonEmpty: bool, ghost t': Tree, ghost at: nat)
    requires Valid(root, t) && node in Nodes(t)
    modifies Nodes(t)`left, Nodes(t)`right, Nodes(t)`rbParent, Nodes(t)`black, Nodes(t)`maxGap
    modifies Nodes(t)`prev, Nodes(t)`next, root`node, root`leftmost
    ensures Valid(root, t') && at < |InOrder(t)| && InOrder(t)[at] == node
    ensures InOrder(t') == InOrder(t)[..at] + InOrder(t)[at + 1..] && node !in Nodes(t')
    ensures nonEmpty <==> InOrder(t') != []
    ensures node.rbParent == node && node.prev == node.next == null
  {
    ghost var nodes := Nodes(t);
    Open(root, t);
    ghost var c, tt, a, b := FocusValid(Snap(nodes), root.node, t, node);
    FoldSpelled(Links(nodes), root.leftmost, a + [node] + b);
    t' := EraseOrdered(node, root, c, tt, a, b, nodes);
    at := |a|;
    Shrunk(t, t', a, node, b);
    ClearErased(node, root, t', a + b, nodes);
    Fold(root, t');
    nonEmpty := root.leftmost != null;
  }
}
