/** `rb_next`, `rb_prev` (src/lib/rbtree/rbtree.c), `rb_last` and `rb_find` (src/lib/rbtree/rbtree.h). */
module RbNeighbours {
  import opened VmarNode
  import opened RbTree
  import opened RbLinked
  import opened RbSearch
  import opened RbEraseLinked
  import RbInsert

  /** The element of s nearest to the side it is entered from. */
  ghost function End(s: seq<Vmar>, side: Side): Vmar? {
    if side.L? then RbLinked.At(s, 0) else Last(s)
  }

  /** The outermost node of a subtree on one side: the walk down of rb_next, rb_prev and rb_last. */
  method Outermost(start: Vmar, side: Side, root: Vmar?, ghost c0: Ctx, ghost t0: Tree, ghost nodes: set<Vmar>) returns (node: Vmar)
    requires HoldsAt(Snap(nodes), root, c0, t0) && t0.Bin? && start == t0.n
    ensures node == End(InOrder(t0), side)
  {
    ghost var m, c, t := Snap(nodes), c0, t0;
    node := start;
    DownStep(m, root, c, t, side);
    while Child(node, side) != null
      invariant m == Snap(nodes) && HoldsAt(m, root, c, t) && t.Bin? && node == t.n
      invariant Child(node, side) == Root(Near(t, side))
      invariant End(InOrder(t), side) == End(InOrder(t0), side)
      decreases t
    {
      node := Child(node, side);
      OutermostStep(t, side);
      DownStep(m, root, c, t, side);
      c, t := Up(Down(t, side), c), Near(t, side);
      DownStep(m, root, c, t, side);
      assert m[node] == CellOf(node);
    }
  }

  lemma OutermostStep(t: Tree, side: Side)
    requires t.Bin? && Near(t, side).Bin?
    ensures End(InOrder(t), side) == End(InOrder(Near(t, side)), side)
  {
  }

  /** What lies beyond the hole of a path, on one side. */
  ghost function Beyond(c: Ctx, side: Side): seq<Vmar> {
    if side.R? then After(c) else Before(c)
  }

  lemma BeyondStep(c: Ctx, side: Side)
    requires c.Up?
    ensures c.f.side == side ==> Beyond(c, side) == Beyond(c.up, side)
    ensures c.f.side == side.Flip() ==> Beyond(c, side) != [] && End(Beyond(c, side), side.Flip()) == c.f.n
  {
  }

  /** The walk up: the first ancestor for which we come from the other side. */
  method ClimbFrom(start: Vmar, side: Side, root: Vmar?, ghost c0: Ctx, ghost t0: Tree, ghost nodes: set<Vmar>) returns (parent: Vmar?)
    requires HoldsAt(Snap(nodes), root, c0, t0) && t0.Bin? && start == t0.n
    ensures parent == End(Beyond(c0, side), side.Flip())
  {
    ghost var m, c, t := Snap(nodes), c0, t0;
    var node := start;
    ParentHere(m, root, c, t);
    parent := node.rbParent;
    while parent != null && node == Child(parent, side)
      invariant m == Snap(nodes) && HoldsAt(m, root, c, t) && t.Bin? && node == t.n && parent == ParOf(c, null)
      invariant c.Up? ==> parent in nodes && (Child(parent, side) == node <==> c.f.side == side)
      invariant Beyond(c, side) == Beyond(c0, side)
      decreases c
    {
      BeyondStep(c, side);
      ClimbHolds(m, root, c.f, c.up, t);
      node := parent;
      c, t := c.up, Close(c.f, t);
      ParentHere(m, root, c, t);
      parent := parent.rbParent;
    }
    if c.Up? {
      BeyondStep(c, side);
    }
  }

  lemma ParentHere(m: Mem, root: Vmar?, c: Ctx, t: Tree)
    requires HoldsAt(m, root, c, t) && t.Bin?
    ensures t.n in m && m[t.n].parent == ParOf(c, null)
    ensures c.Up? ==> c.f.n in m && forall s: Side :: m[c.f.n].Child(s) == t.n <==> c.f.side == s
  {
  }

  /** The neighbour of a node in focus. */
  method NeighbourAt(node: Vmar, side: Side, root: Vmar?, ghost c: Ctx, ghost t: Tree, ghost nodes: set<Vmar>) returns (next: Vmar?)
    requires HoldsAt(Snap(nodes), root, c, t) && t.Bin? && node == t.n
    ensures side.R? ==> next == RbLinked.At(InOrder(t.r) + After(c), 0)
    ensures side.L? ==> next == Last(Before(c) + InOrder(t.l))
  {
    ghost var m := Snap(nodes);
    DownStep(m, root, c, t, side);
    var child := Child(node, side);
    if child != null {
      next := Outermost(child, side.Flip(), root, Up(Down(t, side), c), Near(t, side), nodes);
    } else {
      next := ClimbFrom(node, side, root, c, t, nodes);
    }
  }

  /** rb_next (side R) and rb_prev (side L): the neighbour in the in-order sequence, which is what the
      ordered links hold; a node that is in no tree has none. */
  method Neighbour(node: Vmar, side: Side, root: RbRoot, ghost t: Tree, ghost a: seq<Vmar>, ghost b: seq<Vmar>) returns (next: Vmar?)
    requires node.rbParent != node ==> Valid(root, t) && InOrder(t) == a + [node] + b
    ensures node.rbParent == node && !node.black ==> next == null
    ensures node.rbParent != node ==> next == if side.R? then RbLinked.At(b, 0) else Last(a)
    ensures node.rbParent != node ==> next == if side.R? then node.next else node.prev
    requires node.rbParent == node ==> !node.black
  {
    if node.rbParent == node && !node.black {
      return null;
    }
    Open(root, t);
    ghost var c, tt := NeighbourFocus(Snap(Nodes(t)), Links(Nodes(t)), root.node, t, node, a, b);
    assert Links(Nodes(t))[node] == Link(node.prev, node.next);
    next := NeighbourAt(node, side, root.node, c, tt, Nodes(t));
  }

  lemma NeighbourFocus(m: Mem, l: map<Vmar, Link>, root: Vmar?, t: Tree, node: Vmar, a: seq<Vmar>, b: seq<Vmar>) returns (c: Ctx, tt: Tree)
    requires HoldsAt(m, root, Top, t) && RbInsert.Sound(t) && Spells(l, InOrder(t)) && InOrder(t) == a + [node] + b
    ensures HoldsAt(m, root, c, tt) && tt.Bin? && tt.n == node
    ensures a == Before(c) + InOrder(tt.l) && b == InOrder(tt.r) + After(c)
    ensures node in Nodes(t) && node in l && l[node] == Link(Last(a), RbLinked.At(b, 0))
  {
    NodesInOrder(t);
    assert node in InOrder(t);
    var a', b';
    c, tt, a', b' := FocusValid(m, root, t, node);
    SplitUnique(a, b, a', b', node);
    NeighbourLinks(l, a, node, b);
  }

  /** A sequence without repetition splits around an element in one way. */
  lemma SplitUnique(a: seq<Vmar>, b: seq<Vmar>, a': seq<Vmar>, b': seq<Vmar>, node: Vmar)
    requires a + [node] + b == a' + [node] + b' && Distinct(a' + [node] + b')
    ensures a == a' && b == b'
  {
    var s, s' := a + [node] + b, a' + [node] + b';
    assert s[|a|] == node && s'[|a'|] == node;
    assert |a| == |a'|;
    assert a == s[..|a|] && a' == s'[..|a|];
    assert b == s[|a| + 1..] && b' == s'[|a| + 1..];
  }

  lemma NeighbourLinks(l: map<Vmar, Link>, a: seq<Vmar>, node: Vmar, b: seq<Vmar>)
    requires Spells(l, a + [node] + b)
    ensures node in l && l[node] == Link(Last(a), RbLinked.At(b, 0))
  {
    var s := a + [node] + b;
    assert s[|a|] == node;
  }

  /** rb_last */
  method LastNode(root: RbRoot, ghost t: Tree) returns (n: Vmar?)
    requires Valid(root, t)
    ensures n == Last(InOrder(t))
  {
    Open(root, t);
    n := root.node;
    if n == null {
      return null;
    }
    n := Outermost(n, R, root.node, Top, t, Nodes(t));
  }

  /** rb_find with vmar_overlap_find_cmp, or with vmar_address_find_cmp for a range of one page:
      a member that overlaps the range, or none does. */
  method Find(root: RbRoot, lo: nat, hi: nat, ghost t: Tree) returns (found: Vmar?)
    requires Valid(root, t)
    ensures found != null ==> found in InOrder(t) && !(hi <= found.first) && !(found.End() <= lo)
    ensures found == null ==> forall v :: v in InOrder(t) ==> hi <= v.first || v.End() <= lo
  {
    var parent, side;
    ghost var c;
    found, parent, side, c := Locate(root, lo, hi, t);
    Open(root, t);
    if found == null {
      InOrderPlug(c, Nil);
      ghost var sp := Spans(Nodes(t));
      forall v | v in InOrder(t)
        ensures hi <= v.first || v.End() <= lo
      {
        assert v in sp && sp[v] == Span(v.first, v.End());
        assert v in Before(c) || v in After(c);
      }
    }
  }
}
