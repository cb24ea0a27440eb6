/** The two-child cases of `__rb_erase_augmented` (src/lib/rbtree/rbtree_augmented.h): the in-order
    successor takes the place of the erased node. */
module RbSuccessor {
  import opened VmarNode
  import opened RbTree
  import opened RbAugment
  import opened RbInsert
  import opened RbErase

  ghost predicate AllLeft(c: Ctx) {
    c.Up? ==> c.f.side.L? && AllLeft(c.up)
  }

  lemma {:induction false} AllLeftBefore(c: Ctx)
    requires AllLeft(c)
    ensures Before(c) == []
  {
    if c.Up? {
      AllLeftBefore(c.up);
    }
  }

  /** A position in the right subtree: p leads from its root down to the subtree st. */
  ghost predicate Descent(m: Mem, p: Ctx, st: Tree, child: Vmar?, node: Vmar) {
    && st.Bin? && AllLeft(p) && Seg(m, p, st.n, child, node) && Rep(m, st, ParOf(p, node))
    && Disj(st) && CDisj(p) && Nodes(st) !! CNodes(p)
  }

  lemma DescentStep(m: Mem, p: Ctx, st: Tree, child: Vmar?, node: Vmar)
    requires Descent(m, p, st, child, node) && st.l.Bin?
    ensures var f := Frame(L, st.n, st.black, st.gap, st.mx, st.r);
            Descent(m, Up(f, p), st.l, child, node) && Plug(Up(f, p), st.l) == Plug(p, st)
  {
  }

  /** The do-while loop of case 3. */
  method FindSuccessor(child: Vmar, node: Vmar, ghost r: Tree, ghost nodes: set<Vmar>)
      returns (parent: Vmar, successor: Vmar, ghost p: Ctx, ghost st: Tree)
    requires Descent(Snap(nodes), Top, r, child, node) && r.l.Bin?
    ensures Descent(Snap(nodes), p, st, child, node) && Plug(p, st) == r && st.l.Nil? && p.Up?
    ensures successor == st.n && parent == p.f.n
  {
    ghost var m := Snap(nodes);
    successor := child;
    var tmp := child.left;
    p, st := Top, r;
    parent := child;
    while tmp != null
      invariant Descent(m, p, st, child, node) && Plug(p, st) == r && m == Snap(nodes)
      invariant successor == st.n && tmp == Root(st.l)
      invariant p.Top? ==> st.l.Bin?
      invariant p.Up? ==> parent == p.f.n
      decreases st
    {
      DescentStep(m, p, st, child, node);
      parent := successor;
      successor := tmp;
      p, st := Up(Frame(L, st.n, st.black, st.gap, st.mx, st.r), p), st.l;
      assert m[successor] == CellOf(successor);
      tmp := tmp.left;
    }
  }

  // ----- taking the successor out of the right subtree -----

  /** The stores of case 3 up to the copy callback, in order. */
  ghost function UnhookMem(m: Mem, q: Vmar, s: Vmar, child: Vmar, x: Vmar?, mx: nat): Mem
    requires q in m && s in m && child in m
  {
    var m1 := m[q := m[q].WithChild(L, x)];
    var m2 := m1[s := m1[s].WithChild(R, child)];
    var m3 := m2[child := m2[child].(parent := s)];
    m3[s := m3[s].(maxGap := mx)]
  }

  /** The right subtree without the successor hangs below the successor s, which is not yet placed. */
  ghost predicate Unhooked(m: Mem, p: Ctx, x: Tree, s: Vmar, black: bool, gap: nat, mx: nat) {
    && s in m && m[s] == Cell(null, TopOf(p, Root(x)), m[s].parent, black, gap, mx)
    && Seg(m, p, Root(x), TopOf(p, Root(x)), s) && Rep(m, x, s)
    && Disj(x) && CDisj(p) && Nodes(x) !! CNodes(p) && s !in Nodes(x) && s !in CNodes(p)
  }

  /** Only nodes of the right subtree and its root's parent are affected. */
  ghost predicate SameElse(m: Mem, m': Mem, vs: set<Vmar>) {
    m'.Keys == m.Keys && forall v :: v in m && v !in vs ==> m'[v] == m[v]
  }

  lemma {:induction false} Reseat(m: Mem, m': Mem, p: Ctx, hole: Vmar?, hole': Vmar?, child: Vmar, node: Vmar, s: Vmar)
    requires Seg(m, p, hole, child, node) && AllLeft(p) && p.Up? && CDisj(p)
    requires child in m && p.f.n in m
    requires var m1 := m[p.f.n := m[p.f.n].WithChild(L, hole')];
             SameOn(m1[child := m1[child].(parent := s)], m', CNodes(p))
    ensures Seg(m', p, hole', child, s)
    decreases p
  {
    SegNodes(m, p, hole, child, node);
    if p.up.Up? {
      ChildAbove(m, p.up, p.f.n, child, node);
    }
    RepFrame(m, m', p.f.sib, p.f.n);
    if p.up.Up? {
      var m1 := m[p.f.n := m[p.f.n].WithChild(L, hole')];
      var m2 := m[p.up.f.n := m[p.up.f.n].WithChild(L, p.f.n)];
      assert m2 == m;
      Reseat(m, m', p.up, p.f.n, p.f.n, child, node, s);
    }
  }

  /** The top of a path is one of its nodes. */
  lemma {:induction false} ChildAbove(m: Mem, p: Ctx, hole: Vmar?, child: Vmar, node: Vmar)
    requires Seg(m, p, hole, child, node) && p.Up?
    ensures child in CNodes(p)
    decreases p
  {
    if p.up.Up? {
      ChildAbove(m, p.up, p.f.n, child, node);
    }
  }

  lemma UnhookHolds(m: Mem, p: Ctx, st: Tree, child: Vmar, node: Vmar, mx: nat)
    requires Descent(m, p, st, child, node) && st.l.Nil? && p.Up?
    ensures p.f.n in m && st.n in m && child in m
    ensures var m' := UnhookMem(m, p.f.n, st.n, child, Root(st.r), mx);
            && Unhooked(m', p, st.r, st.n, st.black, st.gap, mx)
            && SameElse(m, m', CNodes(p) + {st.n})
  {
    ChildAbove(m, p, st.n, child, node);
    SegNodes(m, p, st.n, child, node);
    SegTop(m, p, st.n, child, node);
    var m' := UnhookMem(m, p.f.n, st.n, child, Root(st.r), mx);
    Reseat(m, m', p, st.n, Root(st.r), child, node, st.n);
    RepFrame(m, m', st.r, st.n);
  }

  lemma KeepHolds(m: Mem, st: Tree, node: Vmar, mx: nat)
    requires st.Bin? && Descent(m, Top, st, st.n, node) && st.l.Nil?
    ensures st.n in m
    ensures var m' := m[st.n := m[st.n].(maxGap := mx)];
            && Unhooked(m', Top, st.r, st.n, st.black, st.gap, mx)
            && SameElse(m, m', {st.n})
  {
    RepFrame(m, m[st.n := m[st.n].(maxGap := mx)], st.r, st.n);
  }

  lemma UnhookedPropState(m: Mem, p: Ctx, x: Tree, s: Vmar, black: bool, gap: nat, mx: nat)
    requires Unhooked(m, p, x, s, black, gap, mx)
    ensures (x.Bin? ==> x.n in m) && MaxAt(m, Root(x)) == Mx(x)
    ensures PropState(m, Top, p, Root(x), Root(x), TopOf(p, Root(x)), s, Mx(x))
  {
  }

  lemma UnhookedPropagated(m: Mem, m': Mem, p: Ctx, x: Tree, s: Vmar, black: bool, gap: nat, mx: nat)
    requires Unhooked(m, p, x, s, black, gap, mx) && OnlyMaxima(m, m', p)
    requires Seg(m', Propagated(p, Mx(x)), Root(x), TopOf(p, Root(x)), s)
    ensures Unhooked(m', Propagated(p, Mx(x)), x, s, black, gap, mx)
  {
    PropagatedShape(p, Mx(x));
    RepNodes(m, x, s);
    RepFrame(m, m', x, s);
    SegTop(m', Propagated(p, Mx(x)), Root(x), TopOf(p, Root(x)), s);
  }

  // ----- putting the successor in the place of the node -----

  ghost function PlaceLinked(m: Mem, s: Vmar, l: Vmar, node: Vmar, above: Vmar?): Mem
    requires {s, l} + Opt(above) <= m.Keys
  {
    var m1 := m[s := m[s].WithChild(L, l)];
    var m2 := m1[l := m1[l].(parent := s)];
    if above == null then m2
    else m2[above := m2[above].WithChild(if m2[above].left == node then L else R, s)]
  }

  /** The stores after the successor was unhooked, in order. */
  ghost function PlaceMem(m: Mem, s: Vmar, l: Vmar, node: Vmar, above: Vmar?, x: Vmar?, par: Vmar, black: bool): Mem
    requires {s, l} + Opt(above) + Opt(x) <= m.Keys
  {
    var m3 := PlaceLinked(m, s, l, node, above);
    var m4 := if x == null then m3 else m3[x := m3[x].(parent := par, black := true)];
    m4[s := m4[s].(parent := above, black := black)]
  }

  /** The path above the right subtree once the successor stands for the node. */
  ghost function PlacedCtx(t: Tree, s: Vmar, gap: nat, c: Ctx): Ctx
    requires t.Bin?
  {
    Up(Frame(R, s, t.black, gap, t.mx, t.l), c)
  }

  /** All the parts that are put together. */
  ghost predicate Apart(p: Ctx, x: Tree, s: Vmar, t: Tree, c: Ctx)
    requires t.Bin?
  {
    && Disj(x) && CDisj(p) && Disj(t.l) && CDisj(c)
    && (Nodes(x) !! CNodes(p) !! Nodes(t.l) !! CNodes(c) !! {s}) && t.n !in CNodes(c) && t.n !in Nodes(t.l) && t.n != s
  }

  ghost predicate Placeable(m: Mem, root: Vmar?, p: Ctx, x: Tree, s: Vmar, black: bool, gap: nat, t: Tree, c: Ctx) {
    && t.Bin? && t.l.Bin? && Unhooked(m, p, x, s, black, gap, t.mx)
    && Rep(m, t.l, t.n) && Seg(m, c, t.n, root, null) && Apart(p, x, s, t, c)
  }

  lemma PlaceDomain(m: Mem, root: Vmar?, p: Ctx, x: Tree, s: Vmar, black: bool, gap: nat, t: Tree, c: Ctx)
    requires Placeable(m, root, p, x, s, black, gap, t, c)
    ensures {s, t.l.n} + Opt(ParOf(c, null)) + Opt(Root(x)) <= m.Keys
    ensures s != t.l.n && {s, t.l.n} !! Opt(ParOf(c, null)) !! Opt(Root(x))
  {
  }

  lemma PlaceCells(m: Mem, root: Vmar?, p: Ctx, x: Tree, s: Vmar, black: bool, gap: nat, t: Tree, c: Ctx)
    requires Placeable(m, root, p, x, s, black, gap, t, c)
    ensures {s, t.l.n} + Opt(ParOf(c, null)) + Opt(Root(x)) <= m.Keys
    ensures var m' := PlaceMem(m, s, t.l.n, t.n, ParOf(c, null), Root(x), ParOf(p, s), t.black);
            && m'.Keys == m.Keys
            && m'[s] == Cell(t.l.n, TopOf(p, Root(x)), ParOf(c, null), t.black, gap, t.mx)
            && m'[t.l.n] == RootCell(t.l, s)
            && (x.Bin? ==> m'[x.n] == RootCell(Paint(x, true), ParOf(p, s)))
            && (c.Up? ==> m'[c.f.n] == FrameCell(c.f, s, ParOf(c.up, null)))
            && SameElse(m, m', {s, t.l.n} + Opt(ParOf(c, null)) + Opt(Root(x)))
  {
    PlaceDomain(m, root, p, x, s, black, gap, t, c);
    PlaceStored(m, s, t.l.n, t.n, ParOf(c, null), Root(x), ParOf(p, s), t.black);
  }

  /** Each store of PlaceMem is to another node, but for the two to s. */
  lemma PlaceStored(m: Mem, s: Vmar, l: Vmar, node: Vmar, above: Vmar?, x: Vmar?, par: Vmar, black: bool)
    requires {s, l} + Opt(above) + Opt(x) <= m.Keys && s != l && {s, l} !! Opt(above) !! Opt(x)
    ensures var m' := PlaceMem(m, s, l, node, above, x, par, black);
            && m'[s] == m[s].(left := l, parent := above, black := black) && m'[l] == m[l].(parent := s)
            && (x != null ==> m'[x] == m[x].(parent := par, black := true))
            && (above != null ==> m'[above] == m[above].WithChild(if m[above].left == node then L else R, s))
            && SameElse(m, m', {s, l} + Opt(above) + Opt(x))
  {
  }

  lemma PlaceHolds(m: Mem, m': Mem, root: Vmar?, p: Ctx, x: Tree, s: Vmar, black: bool, gap: nat, t: Tree, c: Ctx)
    requires Placeable(m, root, p, x, s, black, gap, t, c)
    requires {s, t.l.n} + Opt(ParOf(c, null)) + Opt(Root(x)) <= m.Keys
    requires m' == PlaceMem(m, s, t.l.n, t.n, ParOf(c, null), Root(x), ParOf(p, s), t.black)
    ensures HoldsAt(m', NewRoot(c, root, s), Append(p, PlacedCtx(t, s, gap, c)), Paint(x, true))
  {
    var c1, x', root' := PlacedCtx(t, s, gap, c), Paint(x, true), NewRoot(c, root, s);
    PlaceCells(m, root, p, x, s, black, gap, t, c);
    assert Seg(m', p, Root(x), TopOf(p, Root(x)), s) by {
      SegFrame(m, m', p, Root(x), TopOf(p, Root(x)), s);
    }
    assert Rep(m', x', ParOf(p, s)) && Nodes(x') == Nodes(x) && Disj(x') by {
      RepEdit(m, m', x, s, x', ParOf(p, s));
    }
    assert Rep(m', t.l, s) by {
      RepEdit(m, m', t.l, t.n, t.l, s);
    }
    assert Seg(m', c, s, root', null) by {
      SegEdit(m, m', c, t.n, root, s, root');
    }
    assert Seg(m', c1, TopOf(p, Root(x)), root', null);
    SegAppend(m', p, c1, Root(x), root', null);
    ParOfAppend(p, c1, null);
    AppendDisj(p, c1);
    AppendNodes(p, c1);
  }

  ghost predicate CanPlace(m: Mem, node: Vmar, s: Vmar, child2: Vmar?) {
    && node in m && m[node].left != null && s != node && s != child2 && child2 != node
    && {s, m[node].left} + Opt(m[node].parent) + Opt(child2) <= m.Keys
    && m[node].left != node && m[node].left != s && m[node].parent != node && m[node].parent != s
  }

  method Place(node: Vmar, s: Vmar, parent: Vmar, child2: Vmar?, root: RbRoot, ghost nodes: set<Vmar>)
      returns (rebalance: Vmar?)
    requires CanPlace(Snap(nodes), node, s, child2)
    modifies nodes`left, nodes`right, nodes`rbParent, nodes`black, root`node
    ensures var m := old(Snap(nodes));
            Snap(nodes) == PlaceMem(m, s, m[node].left, node, m[node].parent, child2, parent, m[node].black)
    ensures root.node == if old(Snap(nodes))[node].parent == null then s else old(root.node)
    ensures rebalance == if child2 == null && old(Snap(nodes))[s].black then parent else null
  {
    ghost var m := Snap(nodes);
    var tmp := node.left;
    var above, black := node.rbParent, node.black;
    assert m[node].left == tmp && m[node].parent == above && m[node].black == black;
    PlaceLinks(node, s, tmp, above, root, nodes);
    assert Snap(nodes)[s].black == m[s].black;
    if child2 != null {
      SetParentColor(child2, parent, true, nodes);
      rebalance := null;
    } else {
      rebalance := if s.black then parent else null;
    }
    SetParentColor(s, above, black, nodes);
  }

  method PlaceLinks(node: Vmar, s: Vmar, tmp: Vmar, above: Vmar?, root: RbRoot, ghost nodes: set<Vmar>)
    requires {s, tmp} + Opt(above) <= nodes
    modifies nodes`left, nodes`right, nodes`rbParent, root`node
    ensures Snap(nodes) == PlaceLinked(old(Snap(nodes)), s, tmp, node, above)
    ensures root.node == if above == null then s else old(root.node)
  {
    SetChild(s, L, tmp, nodes);
    SetParent(tmp, s, nodes);
    ChangeChild(node, s, above, root, nodes);
  }

  // ----- the result -----

  /** The path to the place the successor left, in the final tree. */
  ghost function FinalCtx(c: Ctx, t: Tree, p: Ctx, st: Tree): Ctx
    requires t.Bin? && st.Bin?
  {
    var p' := Propagated(p, Mx(st.r));
    Append(p', Propagated(PlacedCtx(t, st.n, st.gap, c), Mx(Plug(p', Paint(st.r, true)))))
  }

  ghost function OldCtx(c: Ctx, t: Tree, p: Ctx): Ctx
    requires t.Bin?
  {
    Append(p, Up(Frame(R, t.n, t.black, t.gap, t.mx, t.l), c))
  }

  lemma FinalAlike(c: Ctx, t: Tree, p: Ctx, st: Tree)
    requires t.Bin? && st.Bin?
    ensures Alike(OldCtx(c, t, p), FinalCtx(c, t, p, st))
  {
    var p' := Propagated(p, Mx(st.r));
    var c1, y := PlacedCtx(t, st.n, st.gap, c), Mx(Plug(p', Paint(st.r, true)));
    var c0 := Up(Frame(R, t.n, t.black, t.gap, t.mx, t.l), c);
    PropagatedShape(p, Mx(st.r));
    PropagatedShape(c1, y);
    AlikeRefl(c);
    AlikeTrans(c0, c1, Propagated(c1, y));
    AlikeAppend(p, p', c0, Propagated(c1, y));
  }

  lemma {:induction false} AlikeTrans(a: Ctx, b: Ctx, c: Ctx)
    requires Alike(a, b) && Alike(b, c)
    ensures Alike(a, c)
  {
    if a.Up? {
      AlikeTrans(a.up, b.up, c.up);
    }
  }

  lemma FinalBalanced(c: Ctx, t: Tree, p: Ctx, st: Tree)
    requires RedBlack(Plug(c, t)) && t.Bin? && st.Bin? && st.l.Nil? && Plug(p, st) == t.r
    ensures var x', c' := Paint(st.r, true), FinalCtx(c, t, p, st);
            && (st.r.Bin? ==> BlackHeight(x', 1) && NoRedRed(x') && CtxOk(c', 1))
            && (st.r.Nil? && st.black ==> CtxOk(c', 1))
            && (st.r.Nil? && !st.black ==> CtxOk(c', 0))
  {
    var c0, c', h := OldCtx(c, t, p), FinalCtx(c, t, p, st), if st.r.Nil? && !st.black then 0 else 1;
    PlugAppend(p, Up(Frame(R, t.n, t.black, t.gap, t.mx, t.l), c), st);
    assert Plug(c0, st) == Plug(c, t);
    SpliceBalanced(c0, st, st.r);
    FinalAlike(c, t, p, st);
    AlikeOk(c0, c', h);
  }

  lemma FinalAug(c: Ctx, t: Tree, p: Ctx, st: Tree)
    requires Aug(Plug(c, t)) && t.Bin? && st.Bin? && Plug(p, st) == t.r
    ensures var x' := Paint(st.r, true); Aug(x') && CAug(FinalCtx(c, t, p, st), Mx(x'))
  {
    var x', p' := Paint(st.r, true), Propagated(p, Mx(st.r));
    var r' := Plug(p', x');
    var c1 := PlacedCtx(t, st.n, st.gap, c);
    var c' := Propagated(c1, Mx(r'));
    assert Aug(t) && CAug(c, Mx(t)) by { PlugAug(c, t); }
    assert Aug(st) && CAug(p, Mx(st)) by { PlugAug(p, st); }
    assert Aug(x') && Mx(x') == Mx(st.r) by { assert Aug(st.r); }
    assert Aug(r') by {
      PropagatedAug(p, Mx(st.r));
      PlugAug(p', x');
    }
    assert Aug(Plug(c', r')) by {
      PropagatedAug(c1, Mx(r'));
      PlugAug(c', r');
    }
    PlugAppend(p', c', x');
    PlugAug(Append(p', c'), x');
  }

  lemma SuccessorFirst(t: Tree, p: Ctx, st: Tree)
    requires t.Bin? && st.Bin? && st.l.Nil? && Plug(p, st) == t.r && AllLeft(p)
    ensures InOrder(t.r) == [st.n] + InOrder(st.r) + After(p)
  {
    AllLeftBefore(p);
    InOrderPlug(p, st);
  }

  lemma FinalOrder(c: Ctx, t: Tree, p: Ctx, st: Tree)
    requires t.Bin? && st.Bin? && st.l.Nil? && Plug(p, st) == t.r && AllLeft(p)
    ensures InOrder(Plug(FinalCtx(c, t, p, st), Paint(st.r, true))) == Without(c, t)
  {
    var x', p' := Paint(st.r, true), Propagated(p, Mx(st.r));
    var r' := Plug(p', x');
    var c1 := PlacedCtx(t, st.n, st.gap, c);
    var c' := Propagated(c1, Mx(r'));
    PlugAppend(p', c', x');
    assert Before(p') == [] && After(p') == After(p) by {
      AllLeftBefore(p);
      PropagatedShape(p, Mx(st.r));
    }
    SuccessorFirst(t, p, st);
    assert InOrder(r') == InOrder(st.r) + After(p) by { InOrderPlug(p', x'); }
    assert Before(c') == Before(c) + (InOrder(t.l) + [st.n]) && After(c') == After(c) by {
      PropagatedShape(c1, Mx(r'));
    }
    InOrderPlug(c', r');
    Regroup(Before(c), InOrder(t.l), st.n, InOrder(st.r), After(p), After(c));
  }

  lemma Regroup(a: seq<Vmar>, b: seq<Vmar>, s: Vmar, x: seq<Vmar>, d: seq<Vmar>, e: seq<Vmar>)
    ensures a + (b + [s]) + (x + d) + e == a + b + (([s] + x + d) + e)
  {
  }

  lemma TwoChildDone(m: Mem, root: Vmar?, c: Ctx, t: Tree, p: Ctx, st: Tree, rebalance: Vmar?)
    requires Sound(Plug(c, t)) && t.Bin? && st.Bin? && st.l.Nil? && Plug(p, st) == t.r && AllLeft(p)
    requires HoldsAt(m, root, FinalCtx(c, t, p, st), Paint(st.r, true))
    requires rebalance == if st.r.Nil? && st.black then ParOf(p, st.n) else null
    ensures Erased(m, root, rebalance, FinalCtx(c, t, p, st), Paint(st.r, true), 0, Without(c, t))
  {
    var x', c' := Paint(st.r, true), FinalCtx(c, t, p, st);
    FinalBalanced(c, t, p, st);
    FinalAug(c, t, p, st);
    FinalOrder(c, t, p, st);
    if st.r.Bin? {
      InsertDone(m, root, c', x', 1);
    } else if rebalance == null {
      InsertDone(m, root, c', x', 0);
    }
  }

  // ----- the code -----

  /** The parts of a node with two children. */
  lemma TwoChildParts(m: Mem, root: Vmar?, c: Ctx, t: Tree)
    requires HoldsAt(m, root, c, t) && t.Bin? && t.l.Bin? && t.r.Bin?
    ensures t.n in m && m[t.n] == RootCell(t, ParOf(c, null))
    ensures Descent(m, Top, t.r, t.r.n, t.n)
  {
  }

  /** Once the successor is unhooked, everything else is as before. */
  lemma NowPlaceable(m0: Mem, m: Mem, root: Vmar?, c: Ctx, t: Tree, p: Ctx, p': Ctx, st: Tree)
    requires HoldsAt(m0, root, c, t) && t.Bin? && t.l.Bin? && st.Bin? && st.l.Nil? && Plug(p, st) == t.r
    requires Unhooked(m, p', st.r, st.n, st.black, st.gap, t.mx) && CNodes(p') == CNodes(p)
    requires SameElse(m0, m, CNodes(p) + {st.n})
    ensures Placeable(m, root, p', st.r, st.n, st.black, st.gap, t, c)
    ensures t.n in m && m[t.n] == RootCell(t, ParOf(c, null))
  {
    NodesPlug(p, st);
    assert Nodes(st) == {st.n} + Nodes(st.r);
    RepNodes(m0, t.l, t.n);
    SegNodes(m0, c, t.n, root, null);
    RepFrame(m0, m, t.l, t.n);
    SegFrame(m0, m, c, t.n, root, null);
  }

  lemma PlaceReady(m0: Mem, m: Mem, root: Vmar?, c: Ctx, t: Tree, p: Ctx, st: Tree)
    requires HoldsAt(m0, root, c, t) && t.Bin? && t.l.Bin? && Out(m0, m, t.r, t.mx, p, st)
    ensures Placeable(m, root, Propagated(p, Mx(st.r)), st.r, st.n, st.black, st.gap, t, c)
    ensures CanPlace(m, t.n, st.n, Root(st.r)) && m[t.n] == RootCell(t, ParOf(c, null))
    ensures m[st.n].black == st.black && ParOf(Propagated(p, Mx(st.r)), st.n) == ParOf(p, st.n)
  {
    PropagatedShape(p, Mx(st.r));
    NowPlaceable(m0, m, root, c, t, p, Propagated(p, Mx(st.r)), st);
    PlaceDomain(m, root, Propagated(p, Mx(st.r)), st.r, st.n, st.black, st.gap, t, c);
    NodesPlug(p, st);
  }

  /** The final propagation starts at the successor in its new place. */
  lemma PlacedPropState(m: Mem, root: Vmar?, p: Ctx, c1: Ctx, x: Tree)
    requires HoldsAt(m, root, Append(p, c1), x)
    ensures var top := TopOf(p, Root(x));
            && (top != null ==> top in m) && MaxAt(m, top) == Mx(Plug(p, x))
            && PropState(m, Top, c1, top, top, root, null, MaxAt(m, top))
            && Seg(m, p, Root(x), top, ParOf(c1, null)) && Rep(m, x, ParOf(p, ParOf(c1, null)))
            && CDisj(p) && CDisj(c1) && CNodes(p) !! CNodes(c1) && Nodes(x) !! CNodes(p) && Nodes(x) !! CNodes(c1) && Disj(x)
  {
    SegAppend(m, p, c1, Root(x), root, null);
    ParOfAppend(p, c1, null);
    AppendDisj(p, c1);
    AppendNodes(p, c1);
    TopMax(m, p, x, TopOf(p, Root(x)), ParOf(c1, null));
  }

  lemma {:induction false} TopMax(m: Mem, p: Ctx, x: Tree, top: Vmar?, tp: Vmar?)
    requires Seg(m, p, Root(x), top, tp) && Rep(m, x, ParOf(p, tp))
    ensures top == Root(Plug(p, x)) && (top != null ==> top in m && (top in Nodes(x) || top in CNodes(p)))
    ensures MaxAt(m, top) == Mx(Plug(p, x))
    decreases p
  {
    if p.Up? {
      TopMax(m, p.up, Close(p.f, x), top, tp);
      NodesPlug(p, x);
      NodesPlug(p.up, Close(p.f, x));
    }
  }

  lemma PlacedPropagated(m: Mem, m': Mem, root: Vmar?, p: Ctx, c1: Ctx, x: Tree, y: nat)
    requires HoldsAt(m, root, Append(p, c1), x) && OnlyMaxima(m, m', c1)
    requires Seg(m', Propagated(c1, y), TopOf(p, Root(x)), root, null)
    ensures HoldsAt(m', root, Append(p, Propagated(c1, y)), x)
  {
    var top, c2 := TopOf(p, Root(x)), Propagated(c1, y);
    PlacedPropState(m, root, p, c1, x);
    assert CNodes(c2) == CNodes(c1) && CDisj(c2) && ParOf(c2, null) == ParOf(c1, null) by { PropagatedShape(c1, y); }
    SegNodes(m, p, Root(x), top, ParOf(c1, null));
    RepNodes(m, x, ParOf(p, ParOf(c1, null)));
    SegFrame(m, m', p, Root(x), top, ParOf(c1, null));
    RepFrame(m, m', x, ParOf(p, ParOf(c1, null)));
    SegAppend(m', p, c2, Root(x), root, null);
    ParOfAppend(p, c2, null);
    AppendDisj(p, c2);
    AppendNodes(p, c2);
  }

  method UnhookStores(q: Vmar, s: Vmar, child: Vmar, child2: Vmar?, mx: nat, ghost nodes: set<Vmar>)
    requires {q, s, child} <= nodes
    modifies nodes`left, nodes`right, nodes`rbParent, nodes`maxGap
    ensures Snap(nodes) == UnhookMem(old(Snap(nodes)), q, s, child, child2, mx)
  {
    SetChild(q, L, child2, nodes);
    SetChild(s, R, child, nodes);
    SetParent(child, s, nodes);
    SetMaxGap(s, mx, nodes);
  }

  /** The successor is out of the right subtree r, whose maxima are right again. */
  ghost predicate Out(m0: Mem, m: Mem, r: Tree, mx: nat, p: Ctx, st: Tree) {
    && st.Bin? && st.l.Nil? && Plug(p, st) == r && AllLeft(p)
    && Unhooked(m, Propagated(p, Mx(st.r)), st.r, st.n, st.black, st.gap, mx)
    && SameElse(m0, m, CNodes(p) + {st.n})
  }

  /** Case 3: the successor is below the right child. */
  method UnhookDeep(node: Vmar, child: Vmar, mx: nat, ghost r: Tree, ghost nodes: set<Vmar>)
      returns (parent: Vmar, successor: Vmar, child2: Vmar?, ghost p: Ctx, ghost st: Tree)
    requires Descent(Snap(nodes), Top, r, child, node) && r.l.Bin?
    modifies nodes`left, nodes`right, nodes`rbParent, nodes`maxGap
    ensures Out(old(Snap(nodes)), Snap(nodes), r, mx, p, st)
    ensures successor == st.n && parent == ParOf(p, st.n) && child2 == Root(st.r)
    ensures successor.black == st.black
  {
    ghost var m := Snap(nodes);
    parent, successor, p, st := FindSuccessor(child, node, r, nodes);
    assert m[successor] == RootCell(st, ParOf(p, node));
    child2 := successor.right;
    UnhookHolds(m, p, st, child, node, mx);
    UnhookStores(parent, successor, child, child2, mx, nodes);
    ghost var m1 := Snap(nodes);
    UnhookedPropState(m1, p, st.r, st.n, st.black, st.gap, mx);
    Propagate(parent, successor, p, Root(st.r), TopOf(p, Root(st.r)), nodes);
    UnhookedPropagated(m1, Snap(nodes), p, st.r, st.n, st.black, st.gap, mx);
    assert Snap(nodes)[successor].black == st.black;
  }

  /** Case 2: the right child is the successor. */
  method UnhookHere(node: Vmar, child: Vmar, mx: nat, ghost r: Tree, ghost nodes: set<Vmar>) returns (child2: Vmar?)
    requires Descent(Snap(nodes), Top, r, child, node) && r.l.Nil? && child == r.n
    modifies nodes`maxGap
    ensures Out(old(Snap(nodes)), Snap(nodes), r, mx, Top, r)
    ensures child2 == Root(r.r) && child.black == r.black
  {
    ghost var m := Snap(nodes);
    assert m[child] == RootCell(r, node);
    child2 := child.right;
    KeepHolds(m, r, node, mx);
    SetMaxGap(child, mx, nodes);
  }

  /** Cases 2 and 3 of `__rb_erase_augmented`. */
  method EraseTwoChildren(node: Vmar, root: RbRoot, ghost c: Ctx, ghost t: Tree, ghost nodes: set<Vmar>)
      returns (rebalance: Vmar?, ghost c': Ctx, ghost t': Tree)
    requires HoldsAt(Snap(nodes), root.node, c, t) && Sound(Plug(c, t)) && t.Bin? && t.l.Bin? && t.r.Bin? && node == t.n
    modifies nodes`left, nodes`right, nodes`rbParent, nodes`black, nodes`maxGap, root`node
    ensures Erased(Snap(nodes), root.node, rebalance, c', t', 0, Without(c, t))
  {
    TwoChildParts(Snap(nodes), root.node, c, t);
    var child := node.right;
    var parent, successor, child2;
    ghost var p, st;
    assert Snap(nodes)[child] == RootCell(t.r, node);
    if child.left == null {
      child2 := UnhookHere(node, child, node.maxGap, t.r, nodes);
      parent, successor, p, st := child, child, Top, t.r;
    } else {
      parent, successor, child2, p, st := UnhookDeep(node, child, node.maxGap, t.r, nodes);
    }
    rebalance := PlaceSuccessor(node, successor, parent, child2, root, old(Snap(nodes)), c, t, p, st, nodes);
    c', t' := FinalCtx(c, t, p, st), Paint(st.r, true);
  }

  method PlaceIn(node: Vmar, s: Vmar, parent: Vmar, child2: Vmar?, root: RbRoot, ghost m0: Mem,
                 ghost c: Ctx, ghost t: Tree, ghost p: Ctx, ghost st: Tree, ghost nodes: set<Vmar>)
      returns (rebalance: Vmar?)
    requires HoldsAt(m0, root.node, c, t) && t.Bin? && t.l.Bin? && node == t.n && node in nodes
    requires Out(m0, Snap(nodes), t.r, t.mx, p, st)
    requires s == st.n && parent == ParOf(p, st.n) && child2 == Root(st.r) && s.black == st.black
    modifies nodes`left, nodes`right, nodes`rbParent, nodes`black, root`node
    ensures HoldsAt(Snap(nodes), root.node, Append(Propagated(p, Mx(st.r)), PlacedCtx(t, st.n, st.gap, c)), Paint(st.r, true))
    ensures rebalance == if st.r.Nil? && st.black then ParOf(p, st.n) else null
  {
    ghost var m, p' := Snap(nodes), Propagated(p, Mx(st.r));
    PlaceReady(m0, m, root.node, c, t, p, st);
    rebalance := Place(node, s, parent, child2, root, nodes);
    PlaceHolds(m, Snap(nodes), old(root.node), p', st.r, s, st.black, st.gap, t, c);
  }

  method PlaceSuccessor(node: Vmar, s: Vmar, parent: Vmar, child2: Vmar?, root: RbRoot, ghost m0: Mem,
                        ghost c: Ctx, ghost t: Tree, ghost p: Ctx, ghost st: Tree, ghost nodes: set<Vmar>)
      returns (rebalance: Vmar?)
    requires HoldsAt(m0, root.node, c, t) && Sound(Plug(c, t)) && t.Bin? && t.l.Bin? && node == t.n && node in nodes
    requires Out(m0, Snap(nodes), t.r, t.mx, p, st)
    requires s == st.n && parent == ParOf(p, st.n) && child2 == Root(st.r) && s.black == st.black
    modifies nodes`left, nodes`right, nodes`rbParent, nodes`black, nodes`maxGap, root`node
    ensures Erased(Snap(nodes), root.node, rebalance, FinalCtx(c, t, p, st), Paint(st.r, true), 0, Without(c, t))
  {
    rebalance := PlaceIn(node, s, parent, child2, root, m0, c, t, p, st, nodes);
    PropagatePlaced(s, root, Propagated(p, Mx(st.r)), PlacedCtx(t, st.n, st.gap, c), Paint(st.r, true), nodes);
    assert Erased(Snap(nodes), root.node, rebalance, FinalCtx(c, t, p, st), Paint(st.r, true), 0, Without(c, t)) by {
      TwoChildDone(Snap(nodes), root.node, c, t, p, st, rebalance);
    }
  }

  /** The final propagation, from the successor in its new place. */
  method PropagatePlaced(s: Vmar, root: RbRoot, ghost p: Ctx, ghost c1: Ctx, ghost x: Tree, ghost nodes: set<Vmar>)
    requires HoldsAt(Snap(nodes), root.node, Append(p, c1), x) && s == ParOf(c1, null)
    modifies nodes`maxGap
    ensures HoldsAt(Snap(nodes), root.node, Append(p, Propagated(c1, Mx(Plug(p, x)))), x)
  {
    ghost var m := Snap(nodes);
    PlacedPropState(m, root.node, p, c1, x);
    Propagate(s, null, c1, TopOf(p, Root(x)), root.node, nodes);
    PlacedPropagated(m, Snap(nodes), root.node, p, c1, x, Mx(Plug(p, x)));
  }
}
