/** `____rb_erase_color` (src/lib/rbtree/rbtree.c): the colour fix-up after a black node left.
    The two mirrored halves of the loop are one body indexed by the side of the short subtree. */
module RbEraseColor {
  import opened VmarNode
  import opened RbTree
  import opened RbRotate
  import opened RbInsert

  /** The loop invariant: paths through t lack one black node, and t is black. */
  ghost predicate EraseInv(c: Ctx, t: Tree, h: int) {
    && IsBlack(t) && NoRedRed(t) && BlackHeight(t, h) && c.Up? && CtxOk(c, h + 1)
    && Aug(t) && CAug(c, Mx(t))
  }

  ghost predicate EraseState(m: Mem, root: Vmar?, c: Ctx, t: Tree, h: int, order: seq<Vmar>) {
    HoldsAt(m, root, c, t) && EraseInv(c, t, h) && InOrder(Plug(c, t)) == order
  }

  /** The rotation at the parent that brings the sibling up. */
  ghost function SiblingRotation(f: Frame, t: Tree): Rotation
    requires f.sib.Bin?
  {
    Rotation(f.side.Flip(), Far(f.sib, f.side), Near(f.sib, f.side), t, f.sib.n, f.n, f.sib.gap, f.gap)
  }

  lemma SiblingFrom(f: Frame, t: Tree)
    requires f.sib.Bin?
    ensures SiblingRotation(f, t).From(f.sib.black, f.sib.mx, f.black, f.mx) == Close(f, t)
  {
  }

  lemma SiblingExists(c: Ctx, t: Tree, h: int)
    requires EraseInv(c, t, h)
    ensures h >= 0 && c.f.sib.Bin?
    ensures !c.f.sib.black ==> Near(c.f.sib, c.f.side).Bin? && Near(c.f.sib, c.f.side).black
  {
    HeightUnique(t, h);
    HeightNonNegative(t);
    var sib := c.f.sib;
    HeightUnique(sib, h + 1);
    if !sib.black {
      HeightUnique(Near(sib, c.f.side), h + 1);
    }
  }

  lemma {:induction false} HeightNonNegative(t: Tree)
    ensures Height(t) >= 0
  {
    if t.Bin? {
      HeightNonNegative(t.l);
    }
  }

  // ----- Case 1: red sibling -----

  ghost function Case1Frame(f: Frame, t: Tree): Frame
    requires f.sib.Bin?
  {
    var x := SiblingRotation(f, t);
    Frame(f.side, f.n, false, f.gap, Max(f.gap, Max(Mx(x.b), Mx(t))), Paint(x.b, true))
  }

  ghost function Case1Above(f: Frame): Frame
    requires f.sib.Bin?
  {
    Frame(f.side, f.sib.n, f.black, f.sib.gap, f.mx, Far(f.sib, f.side))
  }

  lemma Case1Inv(f: Frame, up: Ctx, t: Tree, h: int)
    requires EraseInv(Up(f, up), t, h) && f.sib.Bin? && !f.sib.black
    ensures EraseInv(Up(Case1Frame(f, t), Up(Case1Above(f), up)), t, h)
    ensures InOrder(Close(Case1Above(f), Close(Case1Frame(f, t), t))) == InOrder(Close(f, t))
    ensures Case1Frame(f, t).sib.Bin? && Case1Frame(f, t).sib.black
  {
    var x := SiblingRotation(f, t);
    SiblingExists(Up(f, up), t, h);
    SiblingFrom(f, t);
    var b := Paint(x.b, true);
    assert b == x.b;
    var f1, f2 := Case1Frame(f, t), Case1Above(f);
    assert Close(f2, Close(f1, t)) == x.To(f.black, f.mx, false, f1.mx, b);
    RotateInOrder(x, f.sib.black, f.sib.mx, f.black, f.mx, f.black, f.mx, false, f1.mx, b);
    AugMk(f.side, t, f.n, f.black, f.gap, f.mx, f.sib);
    RotateAug(x, f.sib.black, f.sib.mx, f.black, f.mx, f.black, false, b);
    AugMk(f2.side, Close(f1, t), f2.n, f2.black, f2.gap, f2.mx, f2.sib);
    AugMk(f1.side, t, f1.n, f1.black, f1.gap, f1.mx, f1.sib);
    assert CtxOk(Up(f2, up), h + 1);
  }

  lemma Case1Holds(m: Mem, root: Vmar?, f: Frame, up: Ctx, t: Tree)
    requires HoldsAt(m, root, Up(f, up), t) && f.sib.Bin?
    ensures var x := SiblingRotation(f, t);
            var m1 := x.After(m, up, f.black, f.mx, false, Max(x.ggap, Max(Mx(x.b), Mx(x.u))), Paint(x.b, true));
            && Ready(m, x, up, f.black, f.mx, root)
            && HoldsAt(m1, if up.Top? then x.p else root, Up(Case1Frame(f, t), Up(Case1Above(f), up)), t)
  {
    var x := SiblingRotation(f, t);
    var f1, f2, b := Case1Frame(f, t), Case1Above(f), Paint(x.b, true);
    var root' := if up.Top? then x.p else root;
    var m1 := x.After(m, up, f.black, f.mx, false, f1.mx, b);
    SiblingFrom(f, t);
    ClimbHolds(m, root, f, up, t);
    HoldsReady(m, root, x, up, f.sib.black, f.sib.mx, f.black, f.mx);
    RotateHolds(x, m, root, root', up, f.sib.black, f.sib.mx, f.black, f.mx, f.black, f.mx, false, f1.mx, b);
    assert Close(f2, Close(f1, t)) == x.To(f.black, f.mx, false, f1.mx, b);
    ClimbHolds(m1, root', f2, up, Close(f1, t));
    ClimbHolds(m1, root', f1, Up(f2, up), t);
  }

  method EraseCase1(s: Side, sibling: Vmar, parent: Vmar, root: RbRoot, ghost f: Frame, ghost up: Ctx, ghost t: Tree,
                    ghost h: int, ghost order: seq<Vmar>, ghost nodes: set<Vmar>)
    requires EraseState(Snap(nodes), root.node, Up(f, up), t, h, order)
    requires f.sib.Bin? && !f.sib.black && sibling == f.sib.n && parent == f.n && s == f.side
    modifies nodes`left, nodes`right, nodes`rbParent, nodes`black, nodes`maxGap, root`node
    ensures EraseState(Snap(nodes), root.node, Up(Case1Frame(f, t), Up(Case1Above(f), up)), t, h, order)
  {
    Case1Holds(Snap(nodes), root.node, f, up, t);
    RotateUp(s.Flip(), sibling, parent, false, false, root, SiblingRotation(f, t), up, f.black, f.mx, nodes);
    Case1Inv(f, up, t, h);
    PlugInOrder(up, Close(Case1Above(f), Close(Case1Frame(f, t), t)), Close(f, t));
  }

  // ----- Case 2: sibling colour flip -----

  ghost function Case2Tree(f: Frame, t: Tree, black: bool): Tree {
    Close(f.(black := black, sib := Paint(f.sib, false)), t)
  }

  lemma Case2Inv(f: Frame, up: Ctx, t: Tree, h: int)
    requires EraseInv(Up(f, up), t, h) && f.sib.Bin? && f.sib.black
    requires IsBlack(f.sib.l) && IsBlack(f.sib.r)
    ensures var t' := Case2Tree(f, t, true);
            && IsBlack(t') && NoRedRed(t') && BlackHeight(t', h + 1) && Aug(t') && Mx(t') == f.mx
            && InOrder(t') == InOrder(Close(f, t))
    ensures CtxOk(up, if f.black then h + 2 else h + 1) && CAug(up, f.mx)
  {
    AugMk(f.side, t, f.n, f.black, f.gap, f.mx, f.sib);
    AugMk(f.side, t, f.n, true, f.gap, f.mx, Paint(f.sib, false));
  }

  /** The same position seen from the sibling. */
  ghost function Swapped(f: Frame, t: Tree): Frame {
    Frame(f.side.Flip(), f.n, f.black, f.gap, f.mx, t)
  }

  lemma SwapHolds(m: Mem, root: Vmar?, f: Frame, up: Ctx, t: Tree)
    ensures HoldsAt(m, root, Up(f, up), t) <==> HoldsAt(m, root, Up(Swapped(f, t), up), f.sib)
  {
    ClimbHolds(m, root, f, up, t);
    ClimbHolds(m, root, Swapped(f, t), up, f.sib);
    assert Close(f, t) == Close(Swapped(f, t), f.sib);
  }

  /** Rewriting the root of the sibling. */
  lemma EditSibling(m: Mem, root: Vmar?, f: Frame, up: Ctx, t: Tree, sib: Tree)
    requires HoldsAt(m, root, Up(f, up), t) && f.sib.Bin? && SameShape(f.sib, sib)
    ensures HoldsAt(m[f.sib.n := RootCell(sib, f.n)], root, Up(f.(sib := sib), up), t)
    ensures f.sib.n in m && m[f.sib.n] == RootCell(f.sib, f.n) && f.n in m && f.n != f.sib.n
    ensures m[f.n] == FrameCell(f, Root(t), ParOf(up, null))
  {
    SwapHolds(m, root, f, up, t);
    EditHolds(m, root, Up(Swapped(f, t), up), f.sib, sib);
    SwapHolds(m[f.sib.n := RootCell(sib, f.n)], root, f.(sib := sib), up, t);
  }

  /** The sibling turns red. */
  method RedSibling(sibling: Vmar, parent: Vmar, root: RbRoot, ghost f: Frame, ghost up: Ctx, ghost t: Tree, ghost nodes: set<Vmar>)
    requires HoldsAt(Snap(nodes), root.node, Up(f, up), t)
    requires f.sib.Bin? && sibling == f.sib.n && parent == f.n
    modifies nodes`rbParent, nodes`black
    ensures HoldsAt(Snap(nodes), root.node, up, Case2Tree(f, t, f.black)) && parent in nodes && parent.black == old(parent.black) == f.black
  {
    ghost var m := Snap(nodes);
    EditSibling(m, root.node, f, up, t, Paint(f.sib, false));
    SetParentColor(sibling, parent, false, nodes);
    ghost var m1 := Snap(nodes);
    ClimbHolds(m1, root.node, f.(sib := Paint(f.sib, false)), up, t);
    assert m1[parent] == m[parent];
  }

  method EraseCase2(sibling: Vmar, parent: Vmar, root: RbRoot, ghost f: Frame, ghost up: Ctx, ghost t: Tree, ghost nodes: set<Vmar>)
    requires HoldsAt(Snap(nodes), root.node, Up(f, up), t)
    requires f.sib.Bin? && sibling == f.sib.n && parent == f.n
    modifies nodes`rbParent, nodes`black
    ensures HoldsAt(Snap(nodes), root.node, up, Case2Tree(f, t, true))
    ensures f.black ==> parent.black == old(parent.black)
  {
    RedSibling(sibling, parent, root, f, up, t, nodes);
    if !parent.black {
      EditHolds(Snap(nodes), root.node, up, Case2Tree(f, t, f.black), Case2Tree(f, t, true));
      // rb_set_black
      SetParentColor(parent, parent.rbParent, true, nodes);
    }
  }

  // ----- Case 3: rotate at the sibling -----

  /** The stores of case 3 before the maxima are recomputed: n is the near child of g. */
  ghost function NearLinked(m: Mem, s: Side, n: Vmar, g: Vmar, p: Vmar): Mem
    requires n in m && g in m && p in m && Opt(m[n].Child(s.Flip())) <= m.Keys
  {
    var x := m[n].Child(s.Flip());
    var m1 := m[g := m[g].WithChild(s, x)];
    var m2 := m1[n := m1[n].WithChild(s.Flip(), g)];
    var m3 := m2[p := m2[p].WithChild(s.Flip(), n)];
    if x == null then m3 else m3[x := m3[x].(parent := g, black := true)]
  }

  method LinkNear(s: Side, n: Vmar, g: Vmar, p: Vmar, ghost nodes: set<Vmar>)
    requires {n, g, p} <= nodes && Opt(Snap(nodes)[n].Child(s.Flip())) <= nodes
    modifies nodes`left, nodes`right, nodes`rbParent, nodes`black
    ensures Snap(nodes) == NearLinked(old(Snap(nodes)), s, n, g, p)
  {
    ghost var m := Snap(nodes);
    var tmp1 := Child(n, s.Flip());
    assert tmp1 == m[n].Child(s.Flip());
    SetChild(g, s, tmp1, nodes);
    SetChild(n, s.Flip(), g, nodes);
    SetChild(p, s.Flip(), n, nodes);
    if tmp1 != null {
      SetParentColor(tmp1, g, true, nodes);
    }
  }

  /** Case 3 is a rotation that leaves both turned nodes with their old parents. */
  ghost predicate NearStale(m: Mem, m1: Mem, y: Rotation, c: Ctx) {
    && y.p in m1 && y.g in m1 && c.Up?
    && m == m1[y.p := m1[y.p].(parent := y.g)][y.g := m1[y.g].(parent := c.f.n)]
  }

  lemma NearLinkedIs(m: Mem, y: Rotation, c: Ctx, pb: bool, pm: nat, gm: nat, root: Vmar?)
    requires Ready(m, y, c, true, gm, root) && c.Up? && c.f.side == y.s.Flip()
    requires m[y.p] == SideCell(y.s, Root(y.a), Root(y.b), y.g, pb, y.pgap, pm)
    requires m[y.g] == SideCell(y.s, y.p, Root(y.u), c.f.n, true, y.ggap, gm)
    ensures c.f.n in m && Opt(m[y.p].Child(y.s.Flip())) <= m.Keys
    ensures NearStale(NearLinked(m, y.s, y.p, y.g, c.f.n), y.After(m, c, pb, pm, true, gm, Paint(y.b, true)), y, c)
  {
    var b := Paint(y.b, true);
    var m1 := y.After(m, c, pb, pm, true, gm, b);
    AfterCells(m, y, c, pb, pm, true, gm, b);
    var m2 := NearLinked(m, y.s, y.p, y.g, c.f.n);
    var m3 := m1[y.p := m1[y.p].(parent := y.g)][y.g := m1[y.g].(parent := c.f.n)];
    assert m2[y.p] == m3[y.p];
    assert m2[y.g] == m3[y.g];
    assert b.Bin? ==> m2[b.n] == m3[b.n];
    assert m2[c.f.n] == m3[c.f.n];
  }

  lemma NearRemaxed(m0: Mem, m: Mem, y: Rotation, c: Ctx, pb: bool, pm: nat, gm: nat, root: Vmar?)
    requires Ready(m0, y, c, true, gm, root) && c.Up?
    requires NearStale(m, y.After(m0, c, pb, pm, true, gm, Paint(y.b, true)), y, c)
    ensures y.g in m && y.p in m && Opt(m[y.g].left) + Opt(m[y.g].right) <= m.Keys
    ensures var m1 := y.After(m0, c, pb, gm, true, Max(y.ggap, Max(Mx(y.b), Mx(y.u))), Paint(y.b, true));
            NearStale(Remaxed(m, y.g, y.p), m1, y, c)
  {
    var b, gm' := Paint(y.b, true), Max(y.ggap, Max(Mx(y.b), Mx(y.u)));
    var m1 := y.After(m0, c, pb, pm, true, gm, b);
    AfterCells(m0, y, c, pb, pm, true, gm, b);
    AfterMaxima(m0, y, c, pb, pm, true, gm, b, gm, gm');
    assert y.b.Bin? ==> m[y.b.n].maxGap == Mx(y.b);
    assert y.u.Bin? ==> m[y.u.n].maxGap == Mx(y.u);
  }

  /** The rotation of case 3. */
  ghost function NearRotation(f: Frame): Rotation
    requires f.sib.Bin? && Near(f.sib, f.side).Bin?
  {
    var q := Near(f.sib, f.side);
    Rotation(f.side, Near(q, f.side), Far(q, f.side), Far(f.sib, f.side), q.n, f.sib.n, q.gap, f.sib.gap)
  }

  /** The sibling subtree after case 3: the near nephew is on top, still red. */
  ghost function NearTurned(f: Frame): Tree
    requires f.sib.Bin? && Near(f.sib, f.side).Bin?
  {
    var y := NearRotation(f);
    y.To(Near(f.sib, f.side).black, f.sib.mx, true, Max(y.ggap, Max(Mx(y.b), Mx(y.u))), Paint(y.b, true))
  }

  /** The memory of the complete case 3 rotation. */
  ghost function NearMem(m: Mem, f: Frame, up: Ctx, t: Tree): Mem
    requires f.sib.Bin? && Near(f.sib, f.side).Bin?
  {
    var y := NearRotation(f);
    y.After(m, Up(Swapped(f, t), up), Near(f.sib, f.side).black, f.sib.mx, true,
            Max(y.ggap, Max(Mx(y.b), Mx(y.u))), Paint(y.b, true))
  }

  lemma NearFrom(f: Frame)
    requires f.sib.Bin? && Near(f.sib, f.side).Bin?
    ensures var q := Near(f.sib, f.side); NearRotation(f).From(q.black, q.mx, f.sib.black, f.sib.mx) == f.sib
  {
  }

  lemma NearMemHolds(m: Mem, root: Vmar?, f: Frame, up: Ctx, t: Tree)
    requires HoldsAt(m, root, Up(f, up), t) && f.sib.Bin? && Near(f.sib, f.side).Bin?
    ensures HoldsAt(NearMem(m, f, up, t), root, Up(f.(sib := NearTurned(f)), up), t)
    ensures Ready(m, NearRotation(f), Up(Swapped(f, t), up), f.sib.black, f.sib.mx, root)
  {
    var y, q, c := NearRotation(f), Near(f.sib, f.side), Up(Swapped(f, t), up);
    SwapHolds(m, root, f, up, t);
    NearFrom(f);
    HoldsReady(m, root, y, c, q.black, q.mx, f.sib.black, f.sib.mx);
    RotateHolds(y, m, root, root, c, q.black, q.mx, f.sib.black, f.sib.mx,
                q.black, f.sib.mx, true, Max(y.ggap, Max(Mx(y.b), Mx(y.u))), Paint(y.b, true));
    SwapHolds(NearMem(m, f, up, t), root, f.(sib := NearTurned(f)), up, t);
  }

  /** What case 3 and the first store of case 4 do. */
  ghost function NearDone(m: Mem, s: Side, n: Vmar, g: Vmar, p: Vmar): Mem
    requires CanTurnNear(m, s, n, g, p)
  {
    var m1 := Remaxed(NearLinked(m, s, n, g, p), g, n);
    m1[g := m1[g].(parent := n, black := true)]
  }

  ghost predicate CanTurnNear(m: Mem, s: Side, n: Vmar, g: Vmar, p: Vmar) {
    && n in m && g in m && p in m && n != g && Opt(m[n].Child(s.Flip())) <= m.Keys
    && var m1 := NearLinked(m, s, n, g, p);
       g in m1 && n in m1 && Opt(m1[g].left) + Opt(m1[g].right) <= m1.Keys
  }

  lemma NearCells(m: Mem, root: Vmar?, f: Frame, up: Ctx, t: Tree)
    requires HoldsAt(m, root, Up(f, up), t) && f.sib.Bin?
    ensures f.sib.n in m && m[f.sib.n] == RootCell(f.sib, f.n)
    ensures Near(f.sib, f.side).Bin? ==>
              var q := Near(f.sib, f.side); q.n in m && m[q.n] == RootCell(q, f.sib.n)
    ensures Far(f.sib, f.side).Bin? ==>
              var q := Far(f.sib, f.side); q.n in m && m[q.n] == RootCell(q, f.sib.n)
  {
    assert Rep(m, f.sib, f.n);
    assert Rep(m, Near(f.sib, f.side), f.sib.n) && Rep(m, Far(f.sib, f.side), f.sib.n);
  }

  lemma NearUnstale(m: Mem, m1: Mem, y: Rotation, c: Ctx)
    requires NearStale(m, m1, y, c) && y.p != y.g && m1[y.g].parent == y.p && m1[y.g].black
    ensures y.g in m && m[y.g := m[y.g].(parent := y.p, black := true)] == m1[y.p := m1[y.p].(parent := y.g)]
  {
  }

  lemma NearDoneIs(m: Mem, root: Vmar?, f: Frame, up: Ctx, t: Tree)
    requires HoldsAt(m, root, Up(f, up), t) && f.sib.Bin? && Near(f.sib, f.side).Bin? && f.sib.black
    ensures var y := NearRotation(f);
            && CanTurnNear(m, f.side, y.p, y.g, f.n)
            && var m1 := NearMem(m, f, up, t);
               y.p in m1 && NearDone(m, f.side, y.p, y.g, f.n) == m1[y.p := m1[y.p].(parent := y.g)]
  {
    var y, q, c := NearRotation(f), Near(f.sib, f.side), Up(Swapped(f, t), up);
    assert Ready(m, y, c, true, f.sib.mx, root) by {
      NearMemHolds(m, root, f, up, t);
    }
    NearCells(m, root, f, up, t);
    NearLinkedIs(m, y, c, q.black, q.mx, f.sib.mx, root);
    NearRemaxed(m, NearLinked(m, f.side, y.p, y.g, f.n), y, c, q.black, q.mx, f.sib.mx, root);
    var m1 := NearMem(m, f, up, t);
    assert y.p != y.g && m1[y.g].parent == y.p && m1[y.g].black by {
      AfterCells(m, y, c, q.black, f.sib.mx, true, Max(y.ggap, Max(Mx(y.b), Mx(y.u))), Paint(y.b, true));
    }
    NearUnstale(Remaxed(NearLinked(m, f.side, y.p, y.g, f.n), y.g, y.p), m1, y, c);
  }

  method TurnNear(s: Side, n: Vmar, g: Vmar, p: Vmar, ghost nodes: set<Vmar>)
    requires CanTurnNear(Snap(nodes), s, n, g, p)
    modifies nodes`left, nodes`right, nodes`rbParent, nodes`black, nodes`maxGap
    ensures Snap(nodes) == Remaxed(NearLinked(old(Snap(nodes)), s, n, g, p), g, n)
  {
    LinkNear(s, n, g, p, nodes);
    AugmentRotate(g, n, nodes);
  }

  // ----- Case 4: rotate at the parent -----

  /** The sibling frame with its far nephew painted black. */
  ghost function FarPainted(f: Frame): Frame
    requires f.sib.Bin?
  {
    f.(sib := if f.side.L? then f.sib.(r := Paint(f.sib.r, true)) else f.sib.(l := Paint(f.sib.l, true)))
  }

  lemma FarPaintedHolds(m: Mem, root: Vmar?, f: Frame, up: Ctx, t: Tree)
    requires HoldsAt(m, root, Up(f, up), t) && f.sib.Bin? && Far(f.sib, f.side).Bin?
    ensures var q := Far(f.sib, f.side);
            && q.n in m && m[q.n] == RootCell(q, f.sib.n)
            && HoldsAt(m[q.n := m[q.n].(parent := f.sib.n, black := true)], root, Up(FarPainted(f), up), t)
  {
    var q, sib := Far(f.sib, f.side), f.sib;
    var c := Up(Swapped(f, t), up);
    var g := Frame(f.side.Flip(), sib.n, sib.black, sib.gap, sib.mx, Near(sib, f.side));
    assert Close(g, q) == sib;
    NearCells(m, root, f, up, t);
    SwapHolds(m, root, f, up, t);
    ClimbHolds(m, root, g, c, q);
    EditHolds(m, root, Up(g, c), q, Paint(q, true));
    var m1 := m[q.n := RootCell(Paint(q, true), sib.n)];
    ClimbHolds(m1, root, g, c, Paint(q, true));
    assert Close(g, Paint(q, true)) == FarPainted(f).sib;
    SwapHolds(m1, root, FarPainted(f), up, t);
  }

  /** The tree case 4 leaves at the place of the parent. */
  ghost function Case4Tree(f: Frame, t: Tree): Tree
    requires f.sib.Bin?
  {
    var x := SiblingRotation(f, t);
    x.To(f.black, f.mx, true, Max(x.ggap, Max(Mx(x.b), Mx(x.u))), x.b)
  }

  ghost function Case4Mem(m: Mem, f: Frame, up: Ctx, t: Tree): Mem
    requires f.sib.Bin?
  {
    var x := SiblingRotation(f, t);
    x.After(m, up, f.black, f.mx, true, Max(x.ggap, Max(Mx(x.b), Mx(x.u))), x.b)
  }

  /** Case 4 works whatever the sibling's parent field holds. */
  lemma Case4Holds(m: Mem, m1: Mem, root: Vmar?, f: Frame, up: Ctx, t: Tree, q: Vmar?)
    requires HoldsAt(m1, root, Up(f, up), t) && f.sib.Bin?
    requires f.sib.n in m1 && m == m1[f.sib.n := m1[f.sib.n].(parent := q)]
    ensures Ready(m, SiblingRotation(f, t), up, f.black, f.mx, root)
    ensures HoldsAt(Case4Mem(m, f, up, t), if up.Top? then f.sib.n else root, up, Case4Tree(f, t))
  {
    var x := SiblingRotation(f, t);
    var gm := Max(x.ggap, Max(Mx(x.b), Mx(x.u)));
    SiblingFrom(f, t);
    ClimbHolds(m1, root, f, up, t);
    HoldsReady(m1, root, x, up, f.sib.black, f.sib.mx, f.black, f.mx);
    assert m1[x.g] == m1[x.g].WithChild(x.s, m1[x.g].Child(x.s));
    StaleReady(m, m1, x, up, f.black, f.mx, root, q, m1[x.g].Child(x.s));
    RotateHolds(x, m1, root, if up.Top? then x.p else root, up, f.sib.black, f.sib.mx, f.black, f.mx,
                f.black, f.mx, true, gm, x.b);
    AfterForgets(m, m1, x, up, f.black, f.mx, true, gm, x.b);
  }

  lemma Case4Balanced(f: Frame, up: Ctx, t: Tree, h: int)
    requires EraseInv(Up(f, up), t, h) && f.sib.Bin? && f.sib.black && !IsBlack(Far(f.sib, f.side))
    ensures var t' := Case4Tree(FarPainted(f), t);
            NoRedRed(t') && BlackHeight(t', h + 1 + B(f.black)) && RootFits(t', up)
    ensures CtxOk(up, h + 1 + B(f.black))
  {
    var near, far := Near(f.sib, f.side), Far(f.sib, f.side);
    assert NoRedRed(near) && BlackHeight(near, h);
    assert NoRedRed(far) && BlackHeight(far, h);
    var far' := Paint(far, true);
    assert NoRedRed(far') && BlackHeight(far', h + 1);
    var x := SiblingRotation(FarPainted(f), t);
    assert x.a == far' && x.b == near;
    var r := Mk(x.s, x.b, x.g, true, x.ggap, Max(x.ggap, Max(Mx(x.b), Mx(x.u))), x.u);
    assert NoRedRed(r) && BlackHeight(r, h + 1) && IsBlack(r);
  }

  lemma FarPaintedKept(f: Frame)
    requires f.sib.Bin? && Aug(f.sib)
    ensures var sib := FarPainted(f).sib; Aug(sib) && Mx(sib) == Mx(f.sib) && InOrder(sib) == InOrder(f.sib)
  {
    var far := Far(f.sib, f.side);
    assert Aug(far);
    var far' := Paint(far, true);
    assert Aug(far') && Mx(far') == Mx(far) && InOrder(far') == InOrder(far);
  }

  lemma Case4Kept(f: Frame, up: Ctx, t: Tree, h: int)
    requires EraseInv(Up(f, up), t, h) && f.sib.Bin?
    ensures var t' := Case4Tree(FarPainted(f), t);
            Aug(t') && Mx(t') == f.mx && InOrder(t') == InOrder(Close(f, t))
    ensures CAug(up, f.mx)
  {
    var f1 := FarPainted(f);
    var x := SiblingRotation(f1, t);
    FarPaintedKept(f);
    AugMk(f1.side, t, f1.n, f1.black, f1.gap, f1.mx, f1.sib);
    SiblingFrom(f1, t);
    RotateAug(x, f1.sib.black, f1.sib.mx, f1.black, f1.mx, f1.black, true, x.b);
    RotateInOrder(x, f1.sib.black, f1.sib.mx, f1.black, f1.mx, f1.black, f1.mx, true, Max(x.ggap, Max(Mx(x.b), Mx(x.u))), x.b);
    assert InOrder(Close(f1, t)) == InOrder(Close(f, t));
  }

  lemma Case3Balanced(f: Frame, up: Ctx, t: Tree, h: int)
    requires EraseInv(Up(f, up), t, h) && f.sib.Bin? && f.sib.black
    requires IsBlack(Far(f.sib, f.side)) && !IsBlack(Near(f.sib, f.side))
    ensures var t' := Case4Tree(f.(sib := NearTurned(f)), t);
            NoRedRed(t') && BlackHeight(t', h + 1 + B(f.black)) && RootFits(t', up)
    ensures CtxOk(up, h + 1 + B(f.black))
  {
    var q, far := Near(f.sib, f.side), Far(f.sib, f.side);
    var y := NearRotation(f);
    assert NoRedRed(q) && BlackHeight(q, h) && NoRedRed(far) && BlackHeight(far, h);
    assert NoRedRed(y.a) && BlackHeight(y.a, h) && IsBlack(y.a);
    assert NoRedRed(y.b) && BlackHeight(y.b, h) && Paint(y.b, true) == y.b;
    var x := SiblingRotation(f.(sib := NearTurned(f)), t);
    assert x.b == y.a;
    assert NoRedRed(x.a) && BlackHeight(x.a, h + 1) && IsBlack(x.a);
    var r := Mk(x.s, x.b, x.g, true, x.ggap, Max(x.ggap, Max(Mx(x.b), Mx(x.u))), x.u);
    assert NoRedRed(r) && BlackHeight(r, h + 1) && IsBlack(r);
  }

  lemma NearTurnedKept(f: Frame)
    requires f.sib.Bin? && Near(f.sib, f.side).Bin? && Aug(f.sib)
    ensures var sib := NearTurned(f); Aug(sib) && Mx(sib) == Mx(f.sib) && InOrder(sib) == InOrder(f.sib)
  {
    var y, q := NearRotation(f), Near(f.sib, f.side);
    var b, gm := Paint(y.b, true), Max(y.ggap, Max(Mx(y.b), Mx(y.u)));
    NearFrom(f);
    RotateAug(y, q.black, q.mx, f.sib.black, f.sib.mx, q.black, true, b);
    RotateInOrder(y, q.black, q.mx, f.sib.black, f.sib.mx, q.black, f.sib.mx, true, gm, b);
  }

  lemma Case3Kept(f: Frame, up: Ctx, t: Tree, h: int)
    requires EraseInv(Up(f, up), t, h) && f.sib.Bin? && Near(f.sib, f.side).Bin?
    ensures var t' := Case4Tree(f.(sib := NearTurned(f)), t);
            Aug(t') && Mx(t') == f.mx && InOrder(t') == InOrder(Close(f, t))
    ensures CAug(up, f.mx)
  {
    var f1 := f.(sib := NearTurned(f));
    var x := SiblingRotation(f1, t);
    NearTurnedKept(f);
    AugMk(f1.side, t, f1.n, f1.black, f1.gap, f1.mx, f1.sib);
    SiblingFrom(f1, t);
    RotateAug(x, f1.sib.black, f1.sib.mx, f1.black, f1.mx, f1.black, true, x.b);
    RotateInOrder(x, f1.sib.black, f1.sib.mx, f1.black, f1.mx, f1.black, f1.mx, true, Max(x.ggap, Max(Mx(x.b), Mx(x.u))), x.b);
    assert InOrder(Close(f1, t)) == InOrder(Close(f, t));
  }

  /** The sibling frame case 4 starts from: as it is, or after case 3. */
  ghost function Case4Frame(f: Frame): Frame
    requires f.sib.Bin? && (IsBlack(Far(f.sib, f.side)) ==> Near(f.sib, f.side).Bin?)
  {
    if IsBlack(Far(f.sib, f.side)) then f.(sib := NearTurned(f)) else FarPainted(f)
  }

  /** Cases 3 and 4 end the fix-up. */
  lemma Case4Done(m: Mem, root: Vmar?, f: Frame, up: Ctx, t: Tree, h: int, order: seq<Vmar>)
    requires EraseInv(Up(f, up), t, h) && InOrder(Plug(Up(f, up), t)) == order && f.sib.Bin? && f.sib.black
    requires IsBlack(Far(f.sib, f.side)) ==> !IsBlack(Near(f.sib, f.side))
    requires HoldsAt(m, root, up, Case4Tree(Case4Frame(f), t))
    ensures Finished(m, root, Plug(up, Case4Tree(Case4Frame(f), t)), order)
  {
    if IsBlack(Far(f.sib, f.side)) {
      Case3Balanced(f, up, t, h);
      Case3Kept(f, up, t, h);
    } else {
      Case4Balanced(f, up, t, h);
      Case4Kept(f, up, t, h);
    }
    var t' := Case4Tree(Case4Frame(f), t);
    InsertDone(m, root, up, t', h + 1 + B(f.black));
    PlugInOrder(up, t', Close(f, t));
  }

  /** The memory from which the rotation of case 4 completes the fix-up. */
  ghost predicate Case4Ready(m: Mem, root: Vmar?, f: Frame, up: Ctx, t: Tree) {
    && f.sib.Bin? && Ready(m, SiblingRotation(f, t), up, f.black, f.mx, root)
    && HoldsAt(Case4Mem(m, f, up, t), if up.Top? then f.sib.n else root, up, Case4Tree(f, t))
  }

  /** Case 3 followed by the recolouring of the old sibling. */
  method EraseCase3(s: Side, near: Vmar, sibling: Vmar, parent: Vmar, root: RbRoot,
                    ghost f: Frame, ghost up: Ctx, ghost t: Tree, ghost nodes: set<Vmar>)
    requires HoldsAt(Snap(nodes), root.node, Up(f, up), t) && f.sib.Bin? && f.sib.black && Near(f.sib, f.side).Bin?
    requires near == Near(f.sib, f.side).n && sibling == f.sib.n && parent == f.n && s == f.side
    modifies nodes`left, nodes`right, nodes`rbParent, nodes`black, nodes`maxGap
    ensures Case4Ready(Snap(nodes), root.node, f.(sib := NearTurned(f)), up, t)
  {
    ghost var m := Snap(nodes);
    assert CanTurnNear(m, s, near, sibling, parent) by { NearDoneIs(m, root.node, f, up, t); }
    Case3Stores(s, near, sibling, parent, nodes);
    Case3Ready(m, Snap(nodes), root.node, f, up, t);
  }

  method Case3Stores(s: Side, near: Vmar, sibling: Vmar, parent: Vmar, ghost nodes: set<Vmar>)
    requires CanTurnNear(Snap(nodes), s, near, sibling, parent)
    modifies nodes`left, nodes`right, nodes`rbParent, nodes`black, nodes`maxGap
    ensures Snap(nodes) == NearDone(old(Snap(nodes)), s, near, sibling, parent)
  {
    TurnNear(s, near, sibling, parent, nodes);
    SetParentColor(sibling, near, true, nodes);
  }

  lemma Case3Ready(m: Mem, m': Mem, root: Vmar?, f: Frame, up: Ctx, t: Tree)
    requires HoldsAt(m, root, Up(f, up), t) && f.sib.Bin? && f.sib.black && Near(f.sib, f.side).Bin?
    requires CanTurnNear(m, f.side, Near(f.sib, f.side).n, f.sib.n, f.n)
    requires m' == NearDone(m, f.side, Near(f.sib, f.side).n, f.sib.n, f.n)
    ensures Case4Ready(m', root, f.(sib := NearTurned(f)), up, t)
  {
    NearDoneIs(m, root, f, up, t);
    NearMemHolds(m, root, f, up, t);
    Case4Holds(m', NearMem(m, f, up, t), root, f.(sib := NearTurned(f)), up, t, f.sib.n);
  }

  /** The recolouring of a red far nephew. */
  method EraseCase4Paint(far: Vmar, sibling: Vmar, root: RbRoot,
                         ghost f: Frame, ghost up: Ctx, ghost t: Tree, ghost nodes: set<Vmar>)
    requires HoldsAt(Snap(nodes), root.node, Up(f, up), t) && f.sib.Bin? && Far(f.sib, f.side).Bin?
    requires far == Far(f.sib, f.side).n && sibling == f.sib.n
    modifies nodes`rbParent, nodes`black
    ensures Case4Ready(Snap(nodes), root.node, FarPainted(f), up, t)
  {
    ghost var m := Snap(nodes);
    assert far in m by { FarPaintedHolds(m, root.node, f, up, t); }
    SetParentColor(far, sibling, true, nodes);
    Case4PaintReady(m, Snap(nodes), root.node, f, up, t);
  }

  lemma Case4PaintReady(m: Mem, m1: Mem, root: Vmar?, f: Frame, up: Ctx, t: Tree)
    requires HoldsAt(m, root, Up(f, up), t) && f.sib.Bin? && Far(f.sib, f.side).Bin? && Far(f.sib, f.side).n in m
    requires var far := Far(f.sib, f.side).n; m1 == m[far := m[far].(parent := f.sib.n, black := true)]
    ensures Case4Ready(m1, root, FarPainted(f), up, t)
  {
    FarPaintedHolds(m, root, f, up, t);
    NearCells(m1, root, FarPainted(f), up, t);
    assert m1 == m1[f.sib.n := m1[f.sib.n].(parent := f.n)];
    Case4Holds(m1, m1, root, FarPainted(f), up, t, f.n);
  }

  method EraseTurn(s: Side, sibling: Vmar, parent: Vmar, root: RbRoot,
                   ghost f: Frame, ghost up: Ctx, ghost t: Tree, ghost nodes: set<Vmar>)
    requires HoldsAt(Snap(nodes), root.node, Up(f, up), t) && f.sib.Bin? && f.sib.black
    requires IsBlack(Far(f.sib, f.side)) ==> !IsBlack(Near(f.sib, f.side))
    requires sibling == f.sib.n && parent == f.n && s == f.side
    modifies nodes`left, nodes`right, nodes`rbParent, nodes`black, nodes`maxGap, root`node
    ensures HoldsAt(Snap(nodes), root.node, up, Case4Tree(Case4Frame(f), t))
  {
    var top := EraseRecolor(s, sibling, parent, root, f, up, t, nodes);
    Case4Turn(s, top, parent, root, Case4Frame(f), up, t, nodes);
  }

  /** Case 3, or the recolouring of case 4. */
  method EraseRecolor(s: Side, sibling: Vmar, parent: Vmar, root: RbRoot,
                      ghost f: Frame, ghost up: Ctx, ghost t: Tree, ghost nodes: set<Vmar>) returns (top: Vmar)
    requires HoldsAt(Snap(nodes), root.node, Up(f, up), t) && f.sib.Bin? && f.sib.black
    requires IsBlack(Far(f.sib, f.side)) ==> !IsBlack(Near(f.sib, f.side))
    requires sibling == f.sib.n && parent == f.n && s == f.side
    modifies nodes`left, nodes`right, nodes`rbParent, nodes`black, nodes`maxGap
    ensures Case4Frame(f).sib.Bin? && top == Case4Frame(f).sib.n && Case4Frame(f).n == parent && Case4Frame(f).side == s
    ensures Case4Ready(Snap(nodes), root.node, Case4Frame(f), up, t)
  {
    NearCells(Snap(nodes), root.node, f, up, t);
    top := sibling;
    var tmp1 := Child(sibling, s.Flip());
    if tmp1 == null || tmp1.black {
      var tmp2 := Child(sibling, s);
      EraseCase3(s, tmp2, sibling, parent, root, f, up, t, nodes);
      top := tmp2;
    } else {
      EraseCase4Paint(tmp1, sibling, root, f, up, t, nodes);
    }
  }

  /** The rotation of case 4. */
  method Case4Turn(s: Side, top: Vmar, parent: Vmar, root: RbRoot, ghost f: Frame, ghost up: Ctx, ghost t: Tree, ghost nodes: set<Vmar>)
    requires f.sib.Bin? && Case4Ready(Snap(nodes), root.node, f, up, t) && top == f.sib.n && parent == f.n && s == f.side
    modifies nodes`left, nodes`right, nodes`rbParent, nodes`black, nodes`maxGap, root`node
    ensures HoldsAt(Snap(nodes), root.node, up, Case4Tree(f, t))
  {
    RotateUp(s.Flip(), top, parent, true, true, root, SiblingRotation(f, t), up, f.black, f.mx, nodes);
  }

  // ----- the loop -----

  /** What the loop reads off the heap. */
  lemma EraseView(m: Mem, root: Vmar?, c: Ctx, t: Tree, h: int)
    requires HoldsAt(m, root, c, t) && EraseInv(c, t, h)
    ensures c.f.sib.Bin? && c.f.sib.n != Root(t)
    ensures c.f.n in m && m[c.f.n] == FrameCell(c.f, Root(t), ParOf(c.up, null))
    ensures c.f.sib.n in m && m[c.f.sib.n] == RootCell(c.f.sib, c.f.n)
    ensures c.f.sib.l.Bin? ==> c.f.sib.l.n in m && m[c.f.sib.l.n].black == c.f.sib.l.black
    ensures c.f.sib.r.Bin? ==> c.f.sib.r.n in m && m[c.f.sib.r.n].black == c.f.sib.r.black
  {
    SiblingExists(c, t, h);
    assert Rep(m, c.f.sib, c.f.n);
    assert Rep(m, c.f.sib.l, c.f.sib.n) && Rep(m, c.f.sib.r, c.f.sib.n);
  }

  lemma FlipDone(m: Mem, root: Vmar?, f: Frame, up: Ctx, t: Tree, h: int, order: seq<Vmar>)
    requires EraseInv(Up(f, up), t, h) && InOrder(Plug(Up(f, up), t)) == order && f.sib.Bin? && f.sib.black
    requires IsBlack(f.sib.l) && IsBlack(f.sib.r) && HoldsAt(m, root, up, Case2Tree(f, t, true))
    ensures f.n in m && m[f.n].parent == ParOf(up, null)
    ensures !f.black || up.Top? ==> Finished(m, root, Plug(up, Case2Tree(f, t, true)), order)
    ensures f.black && up.Up? ==> EraseState(m, root, up, Case2Tree(f, t, true), h + 1, order)
  {
    var t' := Case2Tree(f, t, true);
    Case2Inv(f, up, t, h);
    PlugInOrder(up, t', Close(f, t));
    if !f.black || up.Top? {
      InsertDone(m, root, up, t', h + 1);
    }
  }

  /** Which side the short subtree is on, and the colour of its sibling. */
  lemma EraseLook(m: Mem, root: Vmar?, c: Ctx, t: Tree, h: int)
    requires HoldsAt(m, root, c, t) && EraseInv(c, t, h)
    ensures c.f.sib.Bin? && c.f.n in m && c.f.sib.n in m && m[c.f.sib.n].black == c.f.sib.black
    ensures m[c.f.n].Child(c.f.side) == Root(t) && m[c.f.n].Child(c.f.side.Flip()) == c.f.sib.n != Root(t)
  {
    EraseView(m, root, c, t, h);
  }

  method EraseFlip(sibling: Vmar, parent: Vmar, root: RbRoot, ghost f: Frame, ghost up: Ctx, ghost t: Tree,
                   ghost h: int, ghost order: seq<Vmar>, ghost nodes: set<Vmar>) returns (climb: bool)
    requires EraseState(Snap(nodes), root.node, Up(f, up), t, h, order) && f.sib.Bin? && f.sib.black
    requires IsBlack(f.sib.l) && IsBlack(f.sib.r) && sibling == f.sib.n && parent == f.n
    modifies nodes`rbParent, nodes`black
    ensures !climb ==> Finished(Snap(nodes), root.node, Plug(up, Case2Tree(f, t, true)), order)
    ensures climb ==> EraseState(Snap(nodes), root.node, up, Case2Tree(f, t, true), h + 1, order)
    ensures climb ==> f.black && parent.rbParent == ParOf(up, null)
  {
    assert Snap(nodes)[parent].black == f.black;
    var red := !parent.black;
    EraseCase2(sibling, parent, root, f, up, t, nodes);
    FlipDone(Snap(nodes), root.node, f, up, t, h, order);
    climb := !red && parent.rbParent != null;
  }

  /** Cases 2 to 4, for a black sibling. */
  method EraseFix(s: Side, sibling: Vmar, parent: Vmar, root: RbRoot, ghost f: Frame, ghost up: Ctx, ghost t: Tree,
                  ghost h: int, ghost order: seq<Vmar>, ghost nodes: set<Vmar>) returns (climb: bool, ghost tree: Tree)
    requires EraseState(Snap(nodes), root.node, Up(f, up), t, h, order) && f.sib.Bin? && f.sib.black
    requires s == f.side && sibling == f.sib.n && parent == f.n
    modifies nodes`left, nodes`right, nodes`rbParent, nodes`black, nodes`maxGap, root`node
    ensures !climb ==> Finished(Snap(nodes), root.node, tree, order)
    ensures climb ==> EraseState(Snap(nodes), root.node, up, Case2Tree(f, t, true), h + 1, order)
    ensures climb ==> f.black && parent.rbParent == ParOf(up, null)
  {
    EraseView(Snap(nodes), root.node, Up(f, up), t, h);
    var tmp1, tmp2 := Child(sibling, s.Flip()), Child(sibling, s);
    if (tmp1 == null || tmp1.black) && (tmp2 == null || tmp2.black) {
      climb := EraseFlip(sibling, parent, root, f, up, t, h, order, nodes);
      tree := Plug(up, Case2Tree(f, t, true));
    } else {
      EraseTurn(s, sibling, parent, root, f, up, t, nodes);
      Case4Done(Snap(nodes), root.node, f, up, t, h, order);
      climb, tree := false, Plug(up, Case4Tree(Case4Frame(f), t));
    }
  }

  /** Case 1, after which the new sibling is black and the parent red, so the fix-up ends here. */
  method EraseRed(s: Side, sibling: Vmar, parent: Vmar, root: RbRoot, ghost f: Frame, ghost up: Ctx, ghost t: Tree,
                  ghost h: int, ghost order: seq<Vmar>, ghost nodes: set<Vmar>) returns (ghost tree: Tree)
    requires EraseState(Snap(nodes), root.node, Up(f, up), t, h, order)
    requires f.sib.Bin? && !f.sib.black && s == f.side && sibling == f.sib.n && parent == f.n
    modifies nodes`left, nodes`right, nodes`rbParent, nodes`black, nodes`maxGap, root`node
    ensures Finished(Snap(nodes), root.node, tree, order)
  {
    EraseCase1(s, sibling, parent, root, f, up, t, h, order, nodes);
    Case1Inv(f, up, t, h);
    EraseLook(Snap(nodes), root.node, Up(Case1Frame(f, t), Up(Case1Above(f), up)), t, h);
    var near := Child(parent, s.Flip());
    var climb;
    climb, tree := EraseFix(s, near, parent, root, Case1Frame(f, t), Up(Case1Above(f), up), t, h, order, nodes);
  }

  /** ____rb_erase_color */
  method EraseColor(p: Vmar, root: RbRoot, ghost c0: Ctx, ghost h0: int, ghost order: seq<Vmar>, ghost nodes: set<Vmar>)
      returns (ghost tree: Tree)
    requires EraseState(Snap(nodes), root.node, c0, Nil, h0, order) && p == c0.f.n
    modifies nodes`left, nodes`right, nodes`rbParent, nodes`black, nodes`maxGap, root`node
    ensures Finished(Snap(nodes), root.node, tree, order)
  {
    ghost var c, t, h := c0, Nil, h0;
    var node: Vmar? := null;
    var parent := p;
    while true
      invariant EraseState(Snap(nodes), root.node, c, t, h, order)
      invariant node == Root(t) && parent == c.f.n
      decreases c
    {
      EraseLook(Snap(nodes), root.node, c, t, h);
      var s := if node != parent.right then L else R;
      var sibling := Child(parent, s.Flip());
      if !sibling.black {
        tree := EraseRed(s, sibling, parent, root, c.f, c.up, t, h, order, nodes);
        return;
      }
      var climb;
      climb, tree := EraseFix(s, sibling, parent, root, c.f, c.up, t, h, order, nodes);
      if !climb {
        return;
      }
      node := parent;
      parent := node.rbParent;
      c, t, h := c.up, Case2Tree(c.f, t, true), h + 1;
    }
  }
}
