/** `__rb_insert` (src/lib/rbtree/rbtree.c): the bottom-up colour fix-up after a leaf was linked.
    The two mirrored halves of the loop are one body indexed by the side of the parent. */
module RbInsert {
  import opened VmarNode
  import opened RbTree
  import opened RbRotate

  /** The loop invariant: t is a red-rooted red-black subtree; its root may clash with a red parent. */
  ghost predicate InsertInv(c: Ctx, t: Tree, h: int) {
    && t.Bin? && !t.black && NoRedRed(t) && BlackHeight(t, h) && CtxOk(c, h)
    && Aug(t) && CAug(c, Mx(t))
  }

  // ----- Case 1: colour flips -----

  ghost function Flipped(f: Frame, g: Frame, t: Tree): Tree {
    Close(g.(black := false, sib := Paint(g.sib, true)), Close(f.(black := true), t))
  }

  lemma FlipKeepsInv(f: Frame, g: Frame, up: Ctx, t: Tree, h: int)
    requires InsertInv(Up(f, Up(g, up)), t, h) && !f.black && !IsBlack(g.sib)
    ensures InsertInv(up, Flipped(f, g, t), h + 1)
    ensures InOrder(Flipped(f, g, t)) == InOrder(Close(g, Close(f, t)))
  {
    var c := Up(g, up);
    assert CtxOk(c, h) && CAug(c, f.mx);
    assert Aug(g.sib) && NoRedRed(g.sib) && BlackHeight(g.sib, h);
  }

  ghost function FlippedMem(m: Mem, f: Frame, g: Frame, up: Ctx, t: Tree): Mem
    requires g.sib.Bin?
  {
    m[g.sib.n := RootCell(Paint(g.sib, true), g.n)]
     [f.n := FrameCell(f.(black := true), Root(t), g.n)]
     [g.n := FrameCell(g.(black := false), f.n, ParOf(up, null))]
  }

  lemma FlipHolds(m: Mem, root: Vmar?, f: Frame, g: Frame, up: Ctx, t: Tree)
    requires HoldsAt(m, root, Up(f, Up(g, up)), t) && g.sib.Bin?
    ensures HoldsAt(FlippedMem(m, f, g, up, t), root, up, Flipped(f, g, t))
  {
    var u := Paint(g.sib, true);
    var m1 := m[g.sib.n := RootCell(u, g.n)];
    var m2 := m1[f.n := FrameCell(f.(black := true), Root(t), g.n)];
    var g1, g2 := Frame(g.side.Flip(), g.n, g.black, g.gap, g.mx, Close(f, t)), g.(sib := u);
    var t2 := Close(f.(black := true), t);
    ClimbHolds(m, root, f, Up(g, up), t);
    ClimbHolds(m, root, g, up, Close(f, t));
    assert Close(g1, g.sib) == Close(g, Close(f, t));
    ClimbHolds(m, root, g1, up, g.sib);
    EditHolds(m, root, Up(g1, up), g.sib, u);
    ClimbHolds(m1, root, g1, up, u);
    assert Close(g1, u) == Close(g2, Close(f, t));
    ClimbHolds(m1, root, g2, up, Close(f, t));
    EditHolds(m1, root, Up(g2, up), Close(f, t), t2);
    ClimbHolds(m2, root, g2, up, t2);
    EditHolds(m2, root, up, Close(g2, t2), Flipped(f, g, t));
  }

  lemma FlipCells(m: Mem, root: Vmar?, f: Frame, g: Frame, up: Ctx, t: Tree)
    requires HoldsAt(m, root, Up(f, Up(g, up)), t)
    ensures f.n in m && m[f.n] == FrameCell(f, Root(t), g.n)
    ensures g.n in m && m[g.n] == FrameCell(g, f.n, ParOf(up, null))
    ensures g.sib.Bin? ==> g.sib.n in m && m[g.sib.n] == RootCell(g.sib, g.n) && g.sib.n != f.n && g.sib.n != g.n
    ensures f.n != g.n && (t.Bin? ==> t.n in m && m[t.n] == RootCell(t, f.n) && t.n != f.n && t.n != g.n)
    ensures f.sib.Bin? ==> f.sib.n != Root(t)
    ensures g.sib.Bin? ==> g.sib.n != Root(t)
  {
    assert Seg(m, Up(g, up), f.n, root, null);
    assert CDisj(Up(g, up));
  }

  lemma FlippedMemIs(m: Mem, root: Vmar?, f: Frame, g: Frame, up: Ctx, t: Tree)
    requires HoldsAt(m, root, Up(f, Up(g, up)), t) && g.sib.Bin?
    ensures g.sib.n in m && f.n in m && g.n in m && m[g.n].parent == ParOf(up, null)
    ensures g.sib.n != f.n && g.sib.n != g.n && f.n != g.n
    ensures FlippedMem(m, f, g, up, t)
            == m[g.sib.n := m[g.sib.n].(parent := g.n, black := true)]
                [f.n := m[f.n].(parent := g.n, black := true)]
                [g.n := m[g.n].(black := false)]
  {
    FlipCells(m, root, f, g, up, t);
  }

  method FlipColors(uncle: Vmar, parent: Vmar, gparent: Vmar, ghost nodes: set<Vmar>)
    requires {uncle, parent, gparent} <= nodes && uncle != parent && uncle != gparent && parent != gparent
    modifies {uncle, parent, gparent}`rbParent, {uncle, parent, gparent}`black
    ensures var m := old(Snap(nodes));
            Snap(nodes) == m[uncle := m[uncle].(parent := gparent, black := true)]
                            [parent := m[parent].(parent := gparent, black := true)]
                            [gparent := m[gparent].(black := false)]
  {
    SetParentColor(uncle, gparent, true, nodes);
    SetParentColor(parent, gparent, true, nodes);
    SetParentColor(gparent, gparent.rbParent, false, nodes);
  }

  // ----- Cases 2 and 3: rotations -----

  /** Case 3: node is the outer grandchild. */
  ghost function OuterRotation(f: Frame, g: Frame, t: Tree): Rotation {
    Rotation(g.side, t, f.sib, g.sib, f.n, g.n, f.gap, g.gap)
  }

  /** The tree that insertion leaves at the place of the grandparent. */
  ghost function Turned(x: Rotation, gm: nat): Tree {
    x.To(true, gm, false, Max(x.ggap, Max(Mx(x.b), Mx(x.u))), Paint(x.b, true))
  }

  lemma OuterBalanced(x: Rotation, pm: nat, gm: nat, h: int)
    requires !IsBlack(x.a) && IsBlack(x.b) && IsBlack(x.u)
    requires NoRedRed(x.a) && NoRedRed(x.b) && NoRedRed(x.u)
    requires BlackHeight(x.a, h) && BlackHeight(x.b, h) && BlackHeight(x.u, h)
    requires Aug(x.From(false, pm, true, gm))
    ensures var t := Turned(x, gm);
            IsBlack(t) && NoRedRed(t) && BlackHeight(t, h + 1) && Aug(t) && Mx(t) == gm
            && InOrder(t) == InOrder(x.From(false, pm, true, gm))
  {
    var b := Paint(x.b, true);
    var gm' := Max(x.ggap, Max(Mx(x.b), Mx(x.u)));
    assert b == x.b;
    var r := Mk(x.s, b, x.g, false, x.ggap, gm', x.u);
    assert NoRedRed(r) && BlackHeight(r, h);
    RotateAug(x, false, pm, true, gm, true, false, b);
    RotateInOrder(x, false, pm, true, gm, true, gm, false, gm', b);
  }

  /** Case 2: node is the inner grandchild, first turned at the parent. */
  ghost function InnerRotation(f: Frame, t: Tree): Rotation
    requires t.Bin?
  {
    if f.side.L? then Rotation(L, t.l, t.r, f.sib, t.n, f.n, t.gap, f.gap)
    else Rotation(R, t.r, t.l, f.sib, t.n, f.n, t.gap, f.gap)
  }

  lemma InnerFrom(f: Frame, t: Tree)
    requires t.Bin?
    ensures InnerRotation(f, t).From(t.black, t.mx, f.black, f.mx) == Close(f, t)
  {
  }

  /** The stores of case 2, before the maxima are recomputed. */
  ghost function InnerLinked(m: Mem, s: Side, n: Vmar, p: Vmar): Mem
    requires n in m && p in m && Opt(m[n].Child(s)) <= m.Keys
  {
    var x := m[n].Child(s);
    var m1 := m[p := m[p].WithChild(s.Flip(), x)];
    var m2 := m1[n := m1[n].WithChild(s, p)];
    var m3 := if x == null then m2 else m2[x := m2[x].(parent := p, black := true)];
    m3[p := m3[p].(parent := n, black := false)]
  }

  method LinkInner(s: Side, node: Vmar, parent: Vmar, ghost nodes: set<Vmar>)
    requires {node, parent} <= nodes && node != parent
    requires var x := Snap(nodes)[node].Child(s); Opt(x) <= nodes && x != node && x != parent
    modifies nodes`left, nodes`right, nodes`rbParent, nodes`black
    ensures Snap(nodes) == InnerLinked(old(Snap(nodes)), s, node, parent)
  {
    ghost var m := Snap(nodes);
    var tmp := Child(node, s);
    assert tmp == m[node].Child(s);
    SetChild(parent, s.Flip(), tmp, nodes);
    SetChild(node, s, parent, nodes);
    if tmp != null {
      SetParentColor(tmp, parent, true, nodes);
    }
    SetParentColor(parent, node, false, nodes);
  }

  lemma InnerStale(m: Mem, y: Rotation, c: Ctx, pb: bool, pm: nat, gb: bool, gm: nat, root: Vmar?)
    requires Ready(m, y, c, gb, gm, root) && c.Up?
    requires m[y.p] == SideCell(y.s, Root(y.a), Root(y.b), y.g, pb, y.pgap, pm)
    ensures Opt(m[y.p].Child(y.s.Flip())) <= m.Keys
    ensures var m1 := y.After(m, c, pb, pm, false, gm, Paint(y.b, true));
            && y.p in m1
            && InnerLinked(m, y.s.Flip(), y.p, y.g) == m1[y.p := m1[y.p].(parent := y.g)][c.f.n := m[c.f.n]]
  {
    var b := Paint(y.b, true);
    var m1 := y.After(m, c, pb, pm, false, gm, b);
    AfterCells(m, y, c, pb, pm, false, gm, b);
    var m2 := InnerLinked(m, y.s.Flip(), y.p, y.g);
    var m3 := m1[y.p := m1[y.p].(parent := y.g)][c.f.n := m[c.f.n]];
    assert m2[y.p] == m3[y.p];
    assert m2[y.g] == m3[y.g];
    assert b.Bin? ==> m2[b.n] == m3[b.n];
    assert m2[c.f.n] == m3[c.f.n];
  }

  /** After case 2 the memory is that of a rotation at the parent, except that the turned node and
      the grandparent do not know of each other yet. */
  lemma InnerLinkedIs(m: Mem, root: Vmar?, f: Frame, g: Frame, up: Ctx, t: Tree)
    requires HoldsAt(m, root, Up(f, Up(g, up)), t) && t.Bin? && f.side == g.side.Flip()
    ensures t.n in m && f.n in m && g.n in m && t.n != f.n
    ensures var x := m[t.n].Child(g.side); Opt(x) <= m.Keys && x != t.n && x != f.n
    ensures var y := InnerRotation(f, t);
            var m1 := y.After(m, Up(g, up), t.black, t.mx, false, f.mx, Paint(y.b, true));
            && t.n in m1
            && InnerLinked(m, g.side, t.n, f.n) == m1[t.n := m1[t.n].(parent := f.n)][g.n := m[g.n]]
  {
    FlipCells(m, root, f, g, up, t);
    var y := InnerRotation(f, t);
    InnerFrom(f, t);
    ClimbHolds(m, root, f, Up(g, up), t);
    HoldsReady(m, root, y, Up(g, up), t.black, t.mx, f.black, f.mx);
    InnerStale(m, y, Up(g, up), t.black, t.mx, f.black, f.mx, root);
  }

  /** The memory between cases 2 and 3, as a rotation with two stale fields. */
  ghost predicate Stale(m: Mem, m1: Mem, y: Rotation, c: Ctx, m0: Mem) {
    && y.p in m1 && c.Up? && c.f.n in m0
    && m == m1[y.p := m1[y.p].(parent := y.g)][c.f.n := m0[c.f.n]]
  }

  lemma InnerRemaxed(m0: Mem, m: Mem, y: Rotation, c: Ctx, pb: bool, pm: nat, gb: bool, gm: nat, root: Vmar?)
    requires Ready(m0, y, c, gb, gm, root) && c.Up?
    requires var b := Paint(y.b, true); Stale(m, y.After(m0, c, pb, pm, false, gm, b), y, c, m0)
    ensures y.g in m && y.p in m && Opt(m[y.g].left) + Opt(m[y.g].right) <= m.Keys
    ensures var b := Paint(y.b, true);
            var m1 := y.After(m0, c, pb, gm, false, Max(y.ggap, Max(Mx(y.b), Mx(y.u))), b);
            Stale(Remaxed(m, y.g, y.p), m1, y, c, m0)
  {
    var b, gm' := Paint(y.b, true), Max(y.ggap, Max(Mx(y.b), Mx(y.u)));
    var m1 := y.After(m0, c, pb, pm, false, gm, b);
    AfterCells(m0, y, c, pb, pm, false, gm, b);
    AfterMaxima(m0, y, c, pb, pm, false, gm, b, gm, gm');
    assert y.b.Bin? ==> m[y.b.n].maxGap == Mx(y.b);
    assert y.u.Bin? ==> m[y.u.n].maxGap == Mx(y.u);
    assert m[y.g] == m1[y.g];
  }

  /** The second rotation does not look at the stale fields. */
  lemma StaleReady(m: Mem, m1: Mem, x: Rotation, up: Ctx, gb: bool, gm: nat, root: Vmar?, q: Vmar?, r: Vmar?)
    requires Ready(m1, x, up, gb, gm, root)
    requires m == m1[x.p := m1[x.p].(parent := q)][x.g := m1[x.g].WithChild(x.s, r)]
    ensures Ready(m, x, up, gb, gm, root)
  {
  }

  ghost function InnerTurned(f: Frame, t: Tree): Tree
    requires t.Bin?
  {
    var y := InnerRotation(f, t);
    y.To(t.black, f.mx, false, Max(y.ggap, Max(Mx(y.b), Mx(y.u))), Paint(y.b, true))
  }

  ghost predicate CanTurnInner(m: Mem, s: Side, n: Vmar, p: Vmar) {
    && n in m && p in m && n != p
    && (var x := m[n].Child(s); Opt(x) <= m.Keys && x != n && x != p)
    && (var m1 := InnerLinked(m, s, n, p);
        p in m1 && n in m1 && Opt(m1[p].left) + Opt(m1[p].right) <= m1.Keys)
  }

  /** The statements of case 2. */
  method TurnInner(s: Side, node: Vmar, parent: Vmar, ghost nodes: set<Vmar>)
    requires CanTurnInner(Snap(nodes), s, node, parent)
    modifies nodes`left, nodes`right, nodes`rbParent, nodes`black, nodes`maxGap
    ensures Snap(nodes) == Remaxed(InnerLinked(old(Snap(nodes)), s, node, parent), parent, node)
  {
    LinkInner(s, node, parent, nodes);
    AugmentRotate(parent, node, nodes);
  }

  /** The memory in which the grandparent would have been told of the case 2 rotation. */
  ghost function InnerMem(m: Mem, f: Frame, g: Frame, up: Ctx, t: Tree): Mem
    requires t.Bin?
  {
    var y := InnerRotation(f, t);
    y.After(m, Up(g, up), t.black, f.mx, false, Max(y.ggap, Max(Mx(y.b), Mx(y.u))), Paint(y.b, true))
  }

  lemma InnerMemHolds(m: Mem, root: Vmar?, f: Frame, g: Frame, up: Ctx, t: Tree)
    requires HoldsAt(m, root, Up(f, Up(g, up)), t) && t.Bin?
    ensures HoldsAt(InnerMem(m, f, g, up, t), root, Up(g, up), InnerTurned(f, t))
  {
    var y := InnerRotation(f, t);
    InnerFrom(f, t);
    ClimbHolds(m, root, f, Up(g, up), t);
    RotateHolds(y, m, root, root, Up(g, up), t.black, t.mx, f.black, f.mx,
                t.black, f.mx, false, Max(y.ggap, Max(Mx(y.b), Mx(y.u))), Paint(y.b, true));
  }

  lemma InnerTurnIs(m: Mem, root: Vmar?, f: Frame, g: Frame, up: Ctx, t: Tree)
    requires HoldsAt(m, root, Up(f, Up(g, up)), t) && t.Bin? && f.side == g.side.Flip()
    ensures CanTurnInner(m, g.side, t.n, f.n)
    ensures Stale(Remaxed(InnerLinked(m, g.side, t.n, f.n), f.n, t.n), InnerMem(m, f, g, up, t),
                  InnerRotation(f, t), Up(g, up), m)
  {
    var y, c := InnerRotation(f, t), Up(g, up);
    assert Ready(m, y, c, f.black, f.mx, root) by {
      InnerFrom(f, t);
      ClimbHolds(m, root, f, c, t);
      HoldsReady(m, root, y, c, t.black, t.mx, f.black, f.mx);
    }
    InnerLinkedIs(m, root, f, g, up, t);
    InnerRemaxed(m, InnerLinked(m, g.side, t.n, f.n), y, c, t.black, t.mx, f.black, f.mx, root);
  }

  /** Case 3 after case 2: node now stands where the parent stood. */
  ghost function SecondRotation(f: Frame, g: Frame, t: Tree): Rotation
    requires t.Bin?
  {
    var y := InnerRotation(f, t);
    Rotation(g.side, Mk(y.s, Paint(y.b, true), y.g, false, y.ggap, Max(y.ggap, Max(Mx(y.b), Mx(y.u))), y.u),
             y.a, g.sib, t.n, g.n, t.gap, g.gap)
  }

  /** The rotation of case 3, whichever way it was reached. */
  ghost function InsertRotation(f: Frame, g: Frame, t: Tree): Rotation
    requires t.Bin?
  {
    if f.side == g.side then OuterRotation(f, g, t) else SecondRotation(f, g, t)
  }

  lemma SecondFrom(f: Frame, g: Frame, t: Tree)
    requires t.Bin? && f.side == g.side.Flip()
    ensures SecondRotation(f, g, t).From(t.black, f.mx, g.black, g.mx) == Close(g, InnerTurned(f, t))
  {
  }

  lemma InsertTurnBalanced(f: Frame, g: Frame, up: Ctx, t: Tree, h: int)
    requires InsertInv(Up(f, Up(g, up)), t, h) && !f.black && IsBlack(g.sib)
    ensures var t' := Turned(InsertRotation(f, g, t), g.mx);
            && IsBlack(t') && NoRedRed(t') && BlackHeight(t', h + 1) && Aug(t') && Mx(t') == g.mx
            && InOrder(t') == InOrder(Close(g, Close(f, t)))
    ensures g.black && CtxOk(up, h + 1) && CAug(up, g.mx)
  {
    var c, x := Up(g, up), InsertRotation(f, g, t);
    assert CtxOk(c, h) && CAug(c, f.mx);
    AugMk(f.side, t, f.n, f.black, f.gap, f.mx, f.sib);
    AugMk(g.side, Close(f, t), g.n, g.black, g.gap, g.mx, g.sib);
    if f.side == g.side {
      OuterBalanced(x, f.mx, g.mx, h);
    } else {
      var y := InnerRotation(f, t);
      var b, gm := Paint(y.b, true), Max(y.ggap, Max(Mx(y.b), Mx(y.u)));
      assert IsBlack(y.a) && IsBlack(y.b) && b == y.b;
      assert NoRedRed(x.a) && BlackHeight(x.a, h);
      InnerFrom(f, t);
      SecondFrom(f, g, t);
      RotateAug(y, t.black, t.mx, f.black, f.mx, t.black, false, b);
      RotateInOrder(y, t.black, t.mx, f.black, f.mx, t.black, f.mx, false, gm, b);
      AugMk(g.side, InnerTurned(f, t), g.n, g.black, g.gap, g.mx, g.sib);
      OuterBalanced(x, f.mx, g.mx, h);
    }
  }

  /** The memory after case 3. */
  ghost function TurnedMem(m: Mem, x: Rotation, up: Ctx, g: Frame): Mem {
    x.After(m, up, g.black, g.mx, false, Max(x.ggap, Max(Mx(x.b), Mx(x.u))), Paint(x.b, true))
  }

  /** What case 3 needs of the memory it finds, and what it makes of it. */
  ghost predicate Turnable(m: Mem, root: Vmar?, f: Frame, g: Frame, up: Ctx, t: Tree) {
    t.Bin? &&
    var x := InsertRotation(f, g, t);
    && Ready(m, x, up, g.black, g.mx, root)
    && (g.black ==> HoldsAt(TurnedMem(m, x, up, g), if up.Top? then x.p else root, up, Turned(x, g.mx)))
  }

  lemma OuterTurnable(m: Mem, root: Vmar?, f: Frame, g: Frame, up: Ctx, t: Tree)
    requires HoldsAt(m, root, Up(f, Up(g, up)), t) && t.Bin? && f.side == g.side
    ensures Turnable(m, root, f, g, up, t)
  {
    var x := OuterRotation(f, g, t);
    ClimbHolds(m, root, f, Up(g, up), t);
    ClimbHolds(m, root, g, up, Close(f, t));
    HoldsReady(m, root, x, up, f.black, f.mx, g.black, g.mx);
    RotateHolds(x, m, root, if up.Top? then x.p else root, up, f.black, f.mx, g.black, g.mx,
                g.black, g.mx, false, Max(x.ggap, Max(Mx(x.b), Mx(x.u))), Paint(x.b, true));
  }

  lemma InnerTurnable(m: Mem, m0: Mem, root: Vmar?, f: Frame, g: Frame, up: Ctx, t: Tree)
    requires HoldsAt(m0, root, Up(f, Up(g, up)), t) && t.Bin? && f.side == g.side.Flip()
    requires Stale(m, InnerMem(m0, f, g, up, t), InnerRotation(f, t), Up(g, up), m0)
    ensures Turnable(m, root, f, g, up, t)
  {
    var x, m1 := SecondRotation(f, g, t), InnerMem(m0, f, g, up, t);
    InnerMemHolds(m0, root, f, g, up, t);
    ClimbHolds(m1, root, g, up, InnerTurned(f, t));
    SecondFrom(f, g, t);
    HoldsReady(m1, root, x, up, t.black, f.mx, g.black, g.mx);
    assert m0[g.n] == m1[g.n].WithChild(g.side, f.n) by {
      FlipCells(m0, root, f, g, up, t);
    }
    StaleReady(m, m1, x, up, g.black, g.mx, root, f.n, f.n);
    RotateHolds(x, m1, root, if up.Top? then x.p else root, up, t.black, f.mx, g.black, g.mx,
                g.black, g.mx, false, Max(x.ggap, Max(Mx(x.b), Mx(x.u))), Paint(x.b, true));
    AfterForgets(m, m1, x, up, g.black, g.mx, false, Max(x.ggap, Max(Mx(x.b), Mx(x.u))), Paint(x.b, true));
  }

  /** Cases 2 and 3. */
  method InsertTurn(s: Side, node: Vmar, parent: Vmar, gparent: Vmar, root: RbRoot,
                    ghost f: Frame, ghost g: Frame, ghost up: Ctx, ghost t: Tree, ghost nodes: set<Vmar>)
    requires HoldsAt(Snap(nodes), root.node, Up(f, Up(g, up)), t)
    requires t.Bin? && node == t.n && parent == f.n && gparent == g.n && s == g.side && g.black
    modifies nodes`left, nodes`right, nodes`rbParent, nodes`black, nodes`maxGap, root`node
    ensures HoldsAt(Snap(nodes), root.node, up, Turned(InsertRotation(f, g, t), g.mx))
  {
    ghost var m, x := Snap(nodes), InsertRotation(f, g, t);
    var p := parent;
    InsertSide(m, root.node, f, g, up, t);
    if node == Child(parent, s.Flip()) {
      InnerTurnIs(m, root.node, f, g, up, t);
      TurnInner(s, node, parent, nodes);
      InnerTurnable(Snap(nodes), m, root.node, f, g, up, t);
      p := node;
    } else {
      OuterTurnable(m, root.node, f, g, up, t);
    }
    RotateUp(s, p, gparent, false, false, root, x, up, g.black, g.mx, nodes);
  }

  lemma InsertSide(m: Mem, root: Vmar?, f: Frame, g: Frame, up: Ctx, t: Tree)
    requires HoldsAt(m, root, Up(f, Up(g, up)), t) && t.Bin?
    ensures f.n in m && (m[f.n].Child(g.side.Flip()) == t.n <==> f.side == g.side.Flip())
  {
  }

  ghost predicate Sound(t: Tree) {
    RedBlack(t) && Aug(t)
  }

  /** A subtree that fits its context ends the fix-up. */
  lemma InsertDone(m: Mem, root: Vmar?, c: Ctx, t: Tree, h: int)
    requires HoldsAt(m, root, c, t) && NoRedRed(t) && BlackHeight(t, h) && CtxOk(c, h) && RootFits(t, c)
    requires Aug(t) && CAug(c, Mx(t))
    ensures HoldsAt(m, root, Top, Plug(c, t)) && Sound(Plug(c, t))
  {
    PlugHolds(m, root, c, t);
    PlugRedBlack(c, t, h);
    PlugAug(c, t);
  }

  /** Congruence of the in-order sequence. */
  lemma PlugInOrder(c: Ctx, t: Tree, t': Tree)
    requires InOrder(t) == InOrder(t')
    ensures InOrder(Plug(c, t)) == InOrder(Plug(c, t'))
  {
    InOrderPlug(c, t);
    InOrderPlug(c, t');
  }

  lemma FlipStep(m: Mem, root: Vmar?, f: Frame, g: Frame, up: Ctx, t: Tree, h: int)
    requires HoldsAt(m, root, Up(f, Up(g, up)), t) && InsertInv(Up(f, Up(g, up)), t, h)
    requires !f.black && !IsBlack(g.sib)
    ensures HoldsAt(FlippedMem(m, f, g, up, t), root, up, Flipped(f, g, t))
    ensures InsertInv(up, Flipped(f, g, t), h + 1)
    ensures InOrder(Plug(up, Flipped(f, g, t))) == InOrder(Plug(Up(f, Up(g, up)), t))
  {
    FlipHolds(m, root, f, g, up, t);
    FlipKeepsInv(f, g, up, t, h);
    PlugInOrder(up, Flipped(f, g, t), Close(g, Close(f, t)));
  }

  lemma TurnStep(m: Mem, root: Vmar?, f: Frame, g: Frame, up: Ctx, t: Tree, h: int)
    requires InsertInv(Up(f, Up(g, up)), t, h) && !f.black && IsBlack(g.sib)
    requires HoldsAt(m, root, up, Turned(InsertRotation(f, g, t), g.mx))
    ensures var t' := Plug(up, Turned(InsertRotation(f, g, t), g.mx));
            && HoldsAt(m, root, Top, t') && Sound(t')
            && InOrder(t') == InOrder(Plug(Up(f, Up(g, up)), t))
  {
    var t1 := Turned(InsertRotation(f, g, t), g.mx);
    InsertTurnBalanced(f, g, up, t, h);
    InsertDone(m, root, up, t1, h + 1);
    PlugInOrder(up, t1, Close(g, Close(f, t)));
  }

  /** What the loop reads off the heap. */
  lemma InsertView(m: Mem, root: Vmar?, c: Ctx, t: Tree, h: int)
    requires HoldsAt(m, root, c, t) && InsertInv(c, t, h)
    ensures t.n in m && m[t.n].parent == ParOf(c, null)
    ensures c.Up? ==> c.f.n in m && m[c.f.n].black == c.f.black
    ensures c.Up? && !c.f.black ==>
              && c.up.Up? && c.up.f.black && c.up.f.n in m && m[c.f.n].parent == c.up.f.n
              && var g := c.up.f;
              && m[g.n].Child(g.side) == c.f.n && m[g.n].Child(g.side.Flip()) == Root(g.sib)
              && Root(g.sib) != c.f.n && (g.sib.Bin? ==> g.sib.n in m && m[g.sib.n].black == g.sib.black)
  {
    if c.Up? && !c.f.black {
      FlipCells(m, root, c.f, c.up.f, c.up.up, t);
    }
  }

  ghost predicate InsertState(m: Mem, root: Vmar?, c: Ctx, t: Tree, h: int, order: seq<Vmar>) {
    HoldsAt(m, root, c, t) && InsertInv(c, t, h) && InOrder(Plug(c, t)) == order
  }

  ghost predicate Finished(m: Mem, root: Vmar?, t: Tree, order: seq<Vmar>) {
    HoldsAt(m, root, Top, t) && Sound(t) && InOrder(t) == order
  }

  method InsertAtRoot(node: Vmar, root: RbRoot, ghost t: Tree, ghost h: int, ghost order: seq<Vmar>, ghost nodes: set<Vmar>)
    requires InsertState(Snap(nodes), root.node, Top, t, h, order) && node == t.n
    modifies node`rbParent, node`black
    ensures Finished(Snap(nodes), root.node, Paint(t, true), order)
  {
    ghost var m := Snap(nodes);
    assert m[node] == RootCell(t, null);
    EditHolds(m, root.node, Top, t, Paint(t, true));
    SetParentColor(node, null, true, nodes);
    InsertDone(Snap(nodes), root.node, Top, Paint(t, true), h + 1);
  }

  method InsertFlip(uncle: Vmar, parent: Vmar, gparent: Vmar, root: RbRoot, ghost f: Frame, ghost g: Frame,
                    ghost up: Ctx, ghost t: Tree, ghost h: int, ghost order: seq<Vmar>, ghost nodes: set<Vmar>)
    requires InsertState(Snap(nodes), root.node, Up(f, Up(g, up)), t, h, order) && !f.black && !IsBlack(g.sib)
    requires uncle == Root(g.sib) && parent == f.n && gparent == g.n
    modifies nodes`rbParent, nodes`black
    ensures InsertState(Snap(nodes), root.node, up, Flipped(f, g, t), h + 1, order)
  {
    ghost var m := Snap(nodes);
    FlippedMemIs(m, root.node, f, g, up, t);
    FlipColors(uncle, parent, gparent, nodes);
    FlipStep(m, root.node, f, g, up, t, h);
  }

  method InsertFinish(s: Side, node: Vmar, parent: Vmar, gparent: Vmar, root: RbRoot, ghost f: Frame, ghost g: Frame,
                      ghost up: Ctx, ghost t: Tree, ghost h: int, ghost order: seq<Vmar>, ghost nodes: set<Vmar>)
      returns (ghost tree: Tree)
    requires InsertState(Snap(nodes), root.node, Up(f, Up(g, up)), t, h, order) && !f.black && IsBlack(g.sib)
    requires node == t.n && parent == f.n && gparent == g.n && s == g.side
    modifies nodes`left, nodes`right, nodes`rbParent, nodes`black, nodes`maxGap, root`node
    ensures Finished(Snap(nodes), root.node, tree, order)
  {
    assert g.black;
    InsertTurn(s, node, parent, gparent, root, f, g, up, t, nodes);
    TurnStep(Snap(nodes), root.node, f, g, up, t, h);
    tree := Plug(up, Turned(InsertRotation(f, g, t), g.mx));
  }

  /** __rb_insert: n is the red root of t. */
  method InsertColor(n: Vmar, root: RbRoot, ghost c0: Ctx, ghost t0: Tree, ghost h0: int,
                     ghost order: seq<Vmar>, ghost nodes: set<Vmar>)
      returns (ghost tree: Tree)
    requires InsertState(Snap(nodes), root.node, c0, t0, h0, order) && n == t0.n
    modifies nodes`left, nodes`right, nodes`rbParent, nodes`black, nodes`maxGap, root`node
    ensures Finished(Snap(nodes), root.node, tree, order)
  {
    ghost var c, t, h := c0, t0, h0;
    var node := n;
    InsertView(Snap(nodes), root.node, c, t, h);
    var parent := node.rbParent;
    while true
      invariant InsertState(Snap(nodes), root.node, c, t, h, order)
      invariant node == t.n && parent == ParOf(c, null)
      decreases c
    {
      InsertView(Snap(nodes), root.node, c, t, h);
      if parent == null {
        InsertAtRoot(node, root, t, h, order, nodes);
        return Paint(t, true);
      }
      if parent.black {
        InsertDone(Snap(nodes), root.node, c, t, h);
        return Plug(c, t);
      }
      var gparent := parent.rbParent;
      ghost var f, g, up := c.f, c.up.f, c.up.up;
      var s := if parent != gparent.right then L else R;
      var tmp := Child(gparent, s.Flip());
      if tmp != null && !tmp.black {
        InsertFlip(tmp, parent, gparent, root, f, g, up, t, h, order, nodes);
        c, t, h := up, Flipped(f, g, t), h + 1;
        InsertView(Snap(nodes), root.node, c, t, h);
        node := gparent;
        parent := node.rbParent;
      } else {
        tree := InsertFinish(s, node, parent, gparent, root, f, g, up, t, h, order, nodes);
        return;
      }
    }
  }
}
