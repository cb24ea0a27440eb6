/** The node objects of the address-space tree, and the snapshot of their tree fields.

    A `Vmar` carries the fields of `rb_node_t` (left, right and the unpacked
    `__rb_parent_color` word), the ordered links of `rb_node_linked_t`, and the range and
    gap fields of `vmar_t`.  All the tree reasoning is done on `Mem`, the map of the tree
    fields of a set of nodes: every store in the code is one map update. */
module VmarNode {

  datatype Side = L | R {
    function Flip(): Side {
      if this.L? then R else L
    }
  }

  datatype Kind = Region | Special | Mapping

  class Vmar {
    // rb_node_t
    var left: Vmar?
    var right: Vmar?
    var rbParent: Vmar?
    var black: bool
    // rb_node_linked_t
    var prev: Vmar?
    var next: Vmar?
    // vmar_t, in pages
    var first: nat
    var pages: nat
    var gap: nat
    var maxGap: nat
    var parent: Vmar?
    var kind: Kind
    var unmapped: bool
    var locked: bool
    const children: RbRoot

    constructor (kind: Kind)
      ensures left == right == rbParent == prev == next == parent == null
      ensures !black && first == pages == gap == maxGap == 0 && !unmapped && !locked
      ensures this.kind == kind && fresh(children) && children.node == children.leftmost == null
    {
      left, right, rbParent, prev, next, parent := null, null, null, null, null, null;
      black, first, pages, gap, maxGap := false, 0, 0, 0, 0;
      this.kind, unmapped, locked := kind, false, false;
      children := new RbRoot();
    }

    function End(): (e: nat)
      reads this`first, this`pages
      ensures e >= first
    {
      first + pages
    }
  }

  /** rb_root_linked_t */
  class RbRoot {
    var node: Vmar?
    var leftmost: Vmar?

    constructor ()
      ensures node == leftmost == null
    {
      node, leftmost := null, null;
    }
  }

  /** The tree fields of one node. */
  datatype Cell = Cell(left: Vmar?, right: Vmar?, parent: Vmar?, black: bool, gap: nat, maxGap: nat) {
    function Child(s: Side): Vmar? {
      if s.L? then left else right
    }

    function WithChild(s: Side, v: Vmar?): Cell {
      if s.L? then this.(left := v) else this.(right := v)
    }
  }

  type Mem = map<Vmar, Cell>

  function CellOf(v: Vmar): Cell
    reads v`left, v`right, v`rbParent, v`black, v`gap, v`maxGap
  {
    Cell(v.left, v.right, v.rbParent, v.black, v.gap, v.maxGap)
  }

  ghost predicate IsSnap(m: Mem, nodes: set<Vmar>)
    reads nodes`left, nodes`right, nodes`rbParent, nodes`black, nodes`gap, nodes`maxGap
  {
    m.Keys == nodes && forall v :: v in m ==> m[v] == CellOf(v)
  }

  lemma SnapExist(nodes: set<Vmar>)
    ensures exists m: Mem :: IsSnap(m, nodes)
  {
    assert IsSnap(map v | v in nodes :: CellOf(v), nodes);
  }

  ghost function Snap(nodes: set<Vmar>): (m: Mem)
    reads nodes`left, nodes`right, nodes`rbParent, nodes`black, nodes`gap, nodes`maxGap
    ensures m.Keys == nodes && forall v :: v in m ==> m[v] == CellOf(v)
  {
    SnapExist(nodes);
    var m: Mem :| IsSnap(m, nodes);
    m
  }

  // ----- single stores -----

  method SetChild(v: Vmar, s: Side, x: Vmar?, ghost nodes: set<Vmar>)
    requires v in nodes
    modifies v`left, v`right
    ensures Snap(nodes) == old(Snap(nodes))[v := old(Snap(nodes))[v].WithChild(s, x)]
  {
    if s.L? {
      v.left := x;
    } else {
      v.right := x;
    }
  }

  function Child(v: Vmar, s: Side): (c: Vmar?)
    reads v
    ensures c == CellOf(v).Child(s)
  {
    if s.L? then v.left else v.right
  }

  /** rb_set_parent_color */
  method SetParentColor(v: Vmar, p: Vmar?, black: bool, ghost nodes: set<Vmar>)
    requires v in nodes
    modifies v`rbParent, v`black
    ensures Snap(nodes) == old(Snap(nodes))[v := old(Snap(nodes))[v].(parent := p, black := black)]
  {
    v.rbParent, v.black := p, black;
  }

  /** rb_set_parent */
  method SetParent(v: Vmar, p: Vmar?, ghost nodes: set<Vmar>)
    requires v in nodes
    modifies v`rbParent
    ensures Snap(nodes) == old(Snap(nodes))[v := old(Snap(nodes))[v].(parent := p)]
  {
    v.rbParent := p;
  }

  method SetMaxGap(v: Vmar, x: nat, ghost nodes: set<Vmar>)
    requires v in nodes
    modifies v`maxGap
    ensures Snap(nodes) == old(Snap(nodes))[v := old(Snap(nodes))[v].(maxGap := x)]
  {
    v.maxGap := x;
  }

  ghost function Opt(v: Vmar?): set<Vmar> {
    if v == null then {} else {v}
  }

  /** __rb_change_child */
  method ChangeChild(o: Vmar, n: Vmar?, parent: Vmar?, root: RbRoot, ghost nodes: set<Vmar>)
    requires Opt(parent) <= nodes
    modifies Opt(parent)`left, Opt(parent)`right, root`node
    ensures parent == null ==> root.node == n && Snap(nodes) == old(Snap(nodes))
    ensures parent != null ==> root.node == old(root.node)
    ensures parent != null ==>
              var c := old(Snap(nodes))[parent];
              Snap(nodes) == old(Snap(nodes))[parent := c.WithChild(if c.left == o then L else R, n)]
  {
    if parent != null {
      if parent.left == o {
        SetChild(parent, L, n, nodes);
      } else {
        SetChild(parent, R, n, nodes);
      }
    } else {
      root.node := n;
    }
  }

  /** n takes o's parent and colour, and o becomes a child of n. */
  ghost function Reparented(m: Mem, o: Vmar, n: Vmar, black: bool): Mem
    requires o in m && n in m && Opt(m[o].parent) <= m.Keys
  {
    var p := m[o].parent;
    var m1 := m[n := m[n].(parent := p, black := m[o].black)][o := m[o].(parent := n, black := black)];
    if p == null then m1 else m1[p := m[p].WithChild(if m[p].left == o then L else R, n)]
  }

  /** __rb_rotate_set_parents */
  method RotateSetParents(o: Vmar, n: Vmar, root: RbRoot, black: bool, ghost nodes: set<Vmar>)
    requires {o, n} <= nodes && o != n
    requires var p := Snap(nodes)[o].parent; Opt(p) <= nodes && p != o && p != n
    modifies {o, n}`rbParent, {o, n}`black, Opt(o.rbParent)`left, Opt(o.rbParent)`right, root`node
    ensures root.node == if old(Snap(nodes))[o].parent == null then n else old(root.node)
    ensures Snap(nodes) == Reparented(old(Snap(nodes)), o, n, black)
  {
    var parent := o.rbParent;
    SetParentColor(n, o.rbParent, o.black, nodes);
    SetParentColor(o, n, black, nodes);
    ChangeChild(o, n, parent, root, nodes);
  }

  // ----- the max_gap callbacks -----

  function Max(a: nat, b: nat): nat {
    if a < b then b else a
  }

  ghost function MaxAt(m: Mem, v: Vmar?): nat
    requires v != null ==> v in m
  {
    if v == null then 0 else m[v].maxGap
  }

  /** What the compute_max callback finds for a node. */
  ghost function ComputedMax(m: Mem, v: Vmar): nat
    requires v in m && (Opt(m[v].left) + Opt(m[v].right)) <= m.Keys
  {
    Max(m[v].gap, Max(MaxAt(m, m[v].left), MaxAt(m, m[v].right)))
  }

  /** The compute_max callback: returns whether an early exit is allowed. */
  method ComputeMax(v: Vmar, exit: bool, ghost nodes: set<Vmar>) returns (same: bool)
    requires v in nodes && Opt(v.left) + Opt(v.right) <= nodes
    modifies v`maxGap
    ensures var m := old(Snap(nodes));
            && same == (exit && m[v].maxGap == ComputedMax(m, v))
            && Snap(nodes) == m[v := m[v].(maxGap := ComputedMax(m, v))]
  {
    ghost var m := Snap(nodes);
    var max := v.gap;
    if v.left != null {
      assert m[v.left] == CellOf(v.left);
      if v.left.maxGap > max {
        max := v.left.maxGap;
      }
    }
    if v.right != null {
      assert m[v.right] == CellOf(v.right);
      if v.right.maxGap > max {
        max := v.right.maxGap;
      }
    }
    assert max == ComputedMax(m, v);
    if exit && v.maxGap == max {
      assert m == m[v := m[v].(maxGap := max)];
      return true;
    }
    SetMaxGap(v, max, nodes);
    return false;
  }

  /** n takes o's maximum and o's is computed afresh. */
  ghost function Remaxed(m: Mem, o: Vmar, n: Vmar): Mem
    requires o in m && n in m && o != n && (Opt(m[o].left) + Opt(m[o].right)) <= m.Keys
  {
    var m1 := m[n := m[n].(maxGap := m[o].maxGap)];
    m1[o := m[o].(maxGap := ComputedMax(m1, o))]
  }

  /** The rotate callback. */
  method AugmentRotate(o: Vmar, n: Vmar, ghost nodes: set<Vmar>)
    requires {o, n} <= nodes && o != n
    requires var c := Snap(nodes)[o]; Opt(c.left) + Opt(c.right) <= nodes
    modifies o`maxGap, n`maxGap
    ensures Snap(nodes) == Remaxed(old(Snap(nodes)), o, n)
  {
    SetMaxGap(n, o.maxGap, nodes);
    var _ := ComputeMax(o, false, nodes);
  }
}
