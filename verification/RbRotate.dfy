/** The rotation that `__rb_insert` and `____rb_erase_color` perform at a node, and what it does
    to red-black and augmented trees. */
module RbRotate {
  import opened VmarNode
  import opened RbTree

  /** What a rotation reads: the cells it starts from, which need not form a tree. */
  ghost predicate Ready(m: Mem, x: Rotation, up: Ctx, gb: bool, gm: nat, root: Vmar?) {
    && x.p in m && x.g in m && x.p != x.g
    && m[x.p].Child(x.s) == Root(x.a) && m[x.p].Child(x.s.Flip()) == Root(x.b) && m[x.p].gap == x.pgap
    && m[x.g].Child(x.s.Flip()) == Root(x.u) && m[x.g].gap == x.ggap
    && m[x.g].parent == ParOf(up, null) && m[x.g].black == gb && m[x.g].maxGap == gm
    && (x.b.Bin? ==> x.b.n in m && m[x.b.n] == RootCell(x.b, m[x.b.n].parent) && x.b.n != x.p && x.b.n != x.g)
    && (x.u.Bin? ==> x.u.n in m && m[x.u.n].maxGap == x.u.mx && x.u.n != x.p && x.u.n != x.g)
    && (if up.Top? then root == x.g
        else up.f.n in m && m[up.f.n] == FrameCell(up.f, x.g, ParOf(up.up, null))
             && up.f.n != x.p && up.f.n != x.g && (x.b.Bin? ==> up.f.n != x.b.n)
             && Root(up.f.sib) != x.g)
  }

  /** The memory once the inner subtree has moved from p to g, before parents and colours. */
  ghost function Moved(m: Mem, x: Rotation, b': Tree): Mem
    requires x.p in m && x.g in m
  {
    var m1 := m[x.g := m[x.g].WithChild(x.s, Root(x.b))][x.p := m[x.p].WithChild(x.s.Flip(), x.g)];
    if b'.Nil? then m1 else m1[b'.n := RootCell(b', x.g)]
  }

  method MoveInner(s: Side, p: Vmar, g: Vmar, keep: bool, root: RbRoot,
                   ghost x: Rotation, ghost up: Ctx, ghost gb: bool, ghost gm: nat, ghost nodes: set<Vmar>)
    requires x.s == s && x.p == p && x.g == g
    requires Ready(Snap(nodes), x, up, gb, gm, root.node)
    modifies nodes`left, nodes`right, nodes`rbParent, nodes`black
    ensures Snap(nodes) == Moved(old(Snap(nodes)), x, if keep then x.b else Paint(x.b, true))
  {
    ghost var m := Snap(nodes);
    var tmp := Child(p, s.Flip());
    SetChild(g, s, tmp, nodes);
    SetChild(p, s.Flip(), g, nodes);
    if tmp != null {
      assert Snap(nodes)[tmp] == m[tmp];
      if keep {
        SetParent(tmp, g, nodes);
      } else {
        SetParentColor(tmp, g, true, nodes);
      }
    }
  }

  lemma MovedCells(m: Mem, x: Rotation, up: Ctx, gb: bool, gm: nat, root: Vmar?, b': Tree)
    requires Ready(m, x, up, gb, gm, root) && SameShape(x.b, b')
    ensures var m1 := Moved(m, x, b');
            && m1[x.g] == m[x.g].WithChild(x.s, Root(x.b))
            && m1[x.p] == m[x.p].WithChild(x.s.Flip(), x.g)
            && (up.Up? ==> m1[up.f.n] == m[up.f.n])
            && Opt(m1[x.g].parent) <= m1.Keys
  {
  }

  lemma ReparentedIs(m: Mem, x: Rotation, up: Ctx, gb: bool, gm: nat, root: Vmar?, black: bool, b': Tree)
    requires Ready(m, x, up, gb, gm, root) && SameShape(x.b, b')
    ensures var m1 := Moved(m, x, b');
            && Opt(m1[x.g].parent) <= m1.Keys
            && Reparented(m1, x.g, x.p, black) == x.After(m, up, gb, m[x.p].maxGap, black, gm, b')
  {
    var m1 := Moved(m, x, b');
    MovedCells(m, x, up, gb, gm, root, b');
    var m2, m3 := Reparented(m1, x.g, x.p, black), x.After(m, up, gb, m[x.p].maxGap, black, gm, b');
    assert m2[x.g] == m3[x.g];
    assert m2[x.p] == m3[x.p];
    if up.Up? {
      assert m2[up.f.n] == m3[up.f.n];
    }
    assert m2 == m3;
  }

  lemma AfterCells(m: Mem, x: Rotation, up: Ctx, pb: bool, pm: nat, gb: bool, gm: nat, b': Tree)
    requires x.p in m && x.g in m && x.p != x.g && (up.Up? ==> up.f.n in m && up.f.n != x.p && up.f.n != x.g)
    requires b'.Bin? ==> b'.n in m && b'.n != x.p && b'.n != x.g
    ensures var m2 := x.After(m, up, pb, pm, gb, gm, b');
            && m2.Keys == m.Keys
            && m2[x.g] == SideCell(x.s, Root(x.b), Root(x.u), x.p, gb, x.ggap, gm)
            && m2[x.p] == SideCell(x.s, Root(x.a), x.g, ParOf(up, null), pb, x.pgap, pm)
  {
  }

  /** Only the two turned nodes hold the maxima given to After. */
  lemma AfterMaxima(m: Mem, x: Rotation, up: Ctx, pb: bool, pm: nat, gb: bool, gm: nat, b': Tree, pm': nat, gm': nat)
    requires x.p in m && x.g in m && x.p != x.g && (up.Up? ==> up.f.n in m && up.f.n != x.p && up.f.n != x.g)
    requires b'.Bin? ==> b'.n in m && b'.n != x.p && b'.n != x.g
    ensures var m2 := x.After(m, up, pb, pm, gb, gm, b');
            && x.p in m2 && x.g in m2
            && x.After(m, up, pb, pm', gb, gm', b')
               == m2[x.p := m2[x.p].(maxGap := pm')][x.g := m2[x.g].(maxGap := gm')]
  {
    AfterCells(m, x, up, pb, pm, gb, gm, b');
    AfterCells(m, x, up, pb, pm', gb, gm', b');
  }

  lemma RemaxedIs(m: Mem, x: Rotation, up: Ctx, gb: bool, gm: nat, root: Vmar?, black: bool, b': Tree)
    requires Ready(m, x, up, gb, gm, root) && SameShape(x.b, b') && Mx(b') == Mx(x.b)
    ensures var m2 := x.After(m, up, gb, m[x.p].maxGap, black, gm, b');
            && x.p in m2 && x.g in m2 && Opt(m2[x.g].left) + Opt(m2[x.g].right) <= m2.Keys
            && Remaxed(m2, x.g, x.p) == x.After(m, up, gb, gm, black, Max(x.ggap, Max(Mx(x.b), Mx(x.u))), b')
  {
    var m2 := x.After(m, up, gb, m[x.p].maxGap, black, gm, b');
    AfterCells(m, x, up, gb, m[x.p].maxGap, black, gm, b');
    assert x.b.Bin? ==> m2[x.b.n].maxGap == Mx(x.b);
    assert x.u.Bin? ==> m2[x.u.n].maxGap == Mx(x.u);
    AfterMaxima(m, x, up, gb, m[x.p].maxGap, black, gm, b', gm, Max(x.ggap, Max(Mx(x.b), Mx(x.u))));
  }

  method RotateLinks(s: Side, p: Vmar, g: Vmar, black: bool, keep: bool, root: RbRoot,
                     ghost x: Rotation, ghost up: Ctx, ghost gb: bool, ghost gm: nat, ghost nodes: set<Vmar>)
    requires x.s == s && x.p == p && x.g == g
    requires Ready(Snap(nodes), x, up, gb, gm, root.node)
    modifies nodes`left, nodes`right, nodes`rbParent, nodes`black, root`node
    ensures Snap(nodes) == x.After(old(Snap(nodes)), up, gb, old(p.maxGap), black, gm,
                                   if keep then x.b else Paint(x.b, true))
    ensures root.node == if up.Top? then p else old(root.node)
  {
    ghost var m := Snap(nodes);
    ghost var b' := if keep then x.b else Paint(x.b, true);
    MoveInner(s, p, g, keep, root, x, up, gb, gm, nodes);
    ghost var m1 := Snap(nodes);
    assert m1[g].parent == ParOf(up, null) && m1.Keys == nodes by { MovedCells(m, x, up, gb, gm, root.node, b'); }
    ReparentedIs(m, x, up, gb, gm, root.node, black, b');
    RotateSetParents(g, p, root, black, nodes);
  }

  /** The shared statements of insert case 3 and erase cases 1 and 4: p takes g's place and
      colour, g becomes its child with colour `black`; the inner subtree moves from p to g and is
      painted black unless its colour is kept. */
  method RotateUp(s: Side, p: Vmar, g: Vmar, black: bool, keep: bool, root: RbRoot,
                  ghost x: Rotation, ghost up: Ctx, ghost gb: bool, ghost gm: nat, ghost nodes: set<Vmar>)
    requires x.s == s && x.p == p && x.g == g
    requires Ready(Snap(nodes), x, up, gb, gm, root.node)
    modifies nodes`left, nodes`right, nodes`rbParent, nodes`black, nodes`maxGap, root`node
    ensures Snap(nodes) == x.After(old(Snap(nodes)), up, gb, gm, black, Max(x.ggap, Max(Mx(x.b), Mx(x.u))),
                                   if keep then x.b else Paint(x.b, true))
    ensures root.node == if up.Top? then p else old(root.node)
  {
    ghost var m := Snap(nodes);
    RotateLinks(s, p, g, black, keep, root, x, up, gb, gm, nodes);
    RemaxedIs(m, x, up, gb, gm, old(root.node), black, if keep then x.b else Paint(x.b, true));
    AugmentRotate(g, p, nodes);
  }

  lemma HoldsReady(m: Mem, root: Vmar?, x: Rotation, up: Ctx, pb: bool, pm: nat, gb: bool, gm: nat)
    requires HoldsAt(m, root, up, x.From(pb, pm, gb, gm))
    ensures Ready(m, x, up, gb, gm, root)
  {
    RotateNodes(x, pb, pm, gb, gm);
    assert Rep(m, Mk(x.s, x.a, x.p, pb, x.pgap, pm, x.b), x.g);
    assert Rep(m, x.b, x.p) && Rep(m, x.u, x.g);
  }

  /** A rotation overwrites both turned nodes, so what they held before does not matter. */
  lemma AfterForgets(m: Mem, m': Mem, x: Rotation, up: Ctx, pb: bool, pm: nat, gb: bool, gm: nat, b': Tree)
    requires m.Keys == m'.Keys && forall v :: v in m && v != x.p && v != x.g ==> m[v] == m'[v]
    ensures x.After(m, up, pb, pm, gb, gm, b') == x.After(m', up, pb, pm, gb, gm, b')
  {
  }

  lemma RotateAug(x: Rotation, pb: bool, pm: nat, gb: bool, gm: nat, pb': bool, gb': bool, b': Tree)
    requires Aug(x.From(pb, pm, gb, gm)) && SameShape(x.b, b') && Mx(b') == Mx(x.b) && (x.b.Bin? ==> b'.gap == x.b.gap)
    ensures Aug(x.To(pb', gm, gb', Max(x.ggap, Max(Mx(x.b), Mx(x.u))), b'))
  {
    var gm' := Max(x.ggap, Max(Mx(x.b), Mx(x.u)));
    AugMk(x.s, x.a, x.p, pb, x.pgap, pm, x.b);
    AugMk(x.s, Mk(x.s, x.a, x.p, pb, x.pgap, pm, x.b), x.g, gb, x.ggap, gm, x.u);
    AugMk(x.s, b', x.g, gb', x.ggap, gm', x.u);
    AugMk(x.s, x.a, x.p, pb', x.pgap, gm, Mk(x.s, b', x.g, gb', x.ggap, gm', x.u));
  }
}
