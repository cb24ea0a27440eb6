/** What a valid linked tree means for the fields of its nodes (src/lib/rbtree/rbtree.c, src/lib/rbtree/rbtree.h,
    src/lib/rbtree/rbtree_augmented.h), read off the objects themselves. */
module RbMeaning {
  import opened VmarNode
  import opened RbTree
  import opened RbLinked

  /** The child is a node that points back to its parent; a red node has no red child. */
  ghost predicate ChildFits(m: Mem, v: Vmar, c: Vmar?)
    requires v in m
  {
    c != null ==> c in m && m[c].parent == v && (m[v].black || m[c].black)
  }

  lemma {:induction false} NodeFits(m: Mem, t: Tree, p: Vmar?, v: Vmar)
    requires Rep(m, t, p) && NoRedRed(t) && v in Nodes(t)
    ensures v in m && ChildFits(m, v, m[v].left) && ChildFits(m, v, m[v].right)
  {
    if v in Nodes(t.l) {
      NodeFits(m, t.l, t.n, v);
    } else if v in Nodes(t.r) {
      NodeFits(m, t.r, t.n, v);
    }
  }

  /** The subtree at node v. */
  lemma {:induction false} SubtreeAt(m: Mem, t: Tree, p: Vmar?, v: Vmar) returns (u: Tree)
    requires Rep(m, t, p) && Aug(t) && v in Nodes(t)
    ensures u.Bin? && u.n == v && v in m && Rep(m, u, m[v].parent) && Aug(u) && m[v].maxGap == u.mx && Nodes(u) <= Nodes(t)
  {
    if v == t.n {
      u := t;
    } else if v in Nodes(t.l) {
      u := SubtreeAt(m, t.l, t.n, v);
    } else {
      u := SubtreeAt(m, t.r, t.n, v);
    }
  }

  lemma {:induction false} GapsInMemory(m: Mem, t: Tree, p: Vmar?)
    requires Rep(m, t, p)
    ensures forall g :: g in GapList(t) <==> exists v :: v in Nodes(t) && v in m && m[v].gap == g
  {
    if t.Bin? {
      GapsInMemory(m, t.l, t.n);
      GapsInMemory(m, t.r, t.n);
      assert m[t.n].gap == t.gap;
      forall g
        ensures g in GapList(t) <==> g in GapList(t.l) || g == t.gap || g in GapList(t.r)
      {
      }
    }
  }

  /** The root is black and has no parent; parent and child pointers agree; no red node has a red child; every
      path has the same number of black nodes. */
  lemma PointersFit(root: RbRoot, t: Tree)
    requires Valid(root, t)
    ensures root.node == Root(t) && (root.node != null ==> root.node in Nodes(t) && root.node.black && root.node.rbParent == null)
    ensures forall v :: v in Nodes(t) ==>
              && (v.left != null ==> v.left in Nodes(t) && v.left.rbParent == v && (v.black || v.left.black))
              && (v.right != null ==> v.right in Nodes(t) && v.right.rbParent == v && (v.black || v.right.black))
    ensures BlackHeight(t, Height(t))
  {
    var m := Snap(Nodes(t));
    assert Rep(m, t, null) && root.node == Root(t) && RedBlack(t) by { Open(root, t); }
    forall v | v in Nodes(t)
      ensures ChildFits(m, v, m[v].left) && ChildFits(m, v, m[v].right)
    {
      NodeFits(m, t, null, v);
    }
  }

  /** prev and next spell the nodes in order, which is address order, from the cached leftmost on. */
  lemma LinksFit(root: RbRoot, t: Tree)
    requires Valid(root, t)
    ensures Distinct(InOrder(t)) && Nodes(t) == Elems(InOrder(t)) && root.leftmost == RbLinked.At(InOrder(t), 0)
    ensures forall i :: 0 <= i < |InOrder(t)| ==>
              InOrder(t)[i].prev == RbLinked.At(InOrder(t), i - 1) && InOrder(t)[i].next == RbLinked.At(InOrder(t), i + 1)
    ensures forall i, j :: 0 <= i < j < |InOrder(t)| ==> InOrder(t)[i].End() <= InOrder(t)[j].first
  {
    var s := InOrder(t);
    assert root.leftmost == RbLinked.At(s, 0) && Disj(t) by { Open(root, t); }
    DisjDistinct(t);
    NodesInOrder(t);
    forall i | 0 <= i < |s|
      ensures s[i].prev == RbLinked.At(s, i - 1) && s[i].next == RbLinked.At(s, i + 1)
    {
      LinkFits(root, t, i);
    }
    forall i, j | 0 <= i < j < |s|
      ensures s[i].End() <= s[j].first
    {
      RangesFit(root, t, i, j);
    }
  }

  lemma LinkFits(root: RbRoot, t: Tree, i: int)
    requires Valid(root, t) && 0 <= i < |InOrder(t)|
    ensures InOrder(t)[i].prev == RbLinked.At(InOrder(t), i - 1) && InOrder(t)[i].next == RbLinked.At(InOrder(t), i + 1)
  {
    Open(root, t);
    var v := InOrder(t)[i];
    assert v in Links(Nodes(t)) && Links(Nodes(t))[v] == Link(v.prev, v.next);
  }

  lemma RangesFit(root: RbRoot, t: Tree, i: int, j: int)
    requires Valid(root, t) && 0 <= i < j < |InOrder(t)|
    ensures InOrder(t)[i].End() <= InOrder(t)[j].first
  {
    var v, w, sp := InOrder(t)[i], InOrder(t)[j], Spans(Nodes(t));
    assert v in sp && w in sp && sp[v].end <= sp[w].first by { Open(root, t); }
  }

  /** The stored maximum of a node is the largest gap of the nodes below it: none is larger and one is equal. */
  lemma MaximumFits(root: RbRoot, t: Tree, v: Vmar) returns (u: Tree)
    requires Valid(root, t) && v in Nodes(t)
    ensures u.Bin? && u.n == v && Nodes(u) <= Nodes(t) && Rep(Snap(Nodes(t)), u, v.rbParent)
    ensures forall w :: w in Nodes(u) ==> w.gap <= v.maxGap
    ensures exists w :: w in Nodes(u) && w.gap == v.maxGap
  {
    Open(root, t);
    var m := Snap(Nodes(t));
    u := SubtreeAt(m, t, null, v);
    AugIsMaximum(u);
    GapsInMemory(m, u, m[v].parent);
    forall w | w in Nodes(u)
      ensures w.gap <= v.maxGap
    {
      assert m[w].gap == w.gap && m[w].gap in GapList(u);
    }
  }
}
