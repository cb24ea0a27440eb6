/** The mathematical side of the red-black tree: trees, their zippers, the red-black and
    augmentation invariants, and when a memory holds a given tree. */
module RbTree {
  import opened VmarNode

  datatype Tree = Nil | Bin(l: Tree, n: Vmar, black: bool, gap: nat, mx: nat, r: Tree)

  /** One step of a path: the node, which side the hole is on, and the sibling subtree. */
  datatype Frame = Frame(side: Side, n: Vmar, black: bool, gap: nat, mx: nat, sib: Tree)

  datatype Ctx = Top | Up(f: Frame, up: Ctx)

  ghost function Root(t: Tree): Vmar? {
    if t.Nil? then null else t.n
  }

  /** The child on side s and the one on the other side. */
  ghost function Near(t: Tree, s: Side): Tree
    requires t.Bin?
  {
    if s.L? then t.l else t.r
  }

  ghost function Far(t: Tree, s: Side): Tree
    requires t.Bin?
  {
    if s.L? then t.r else t.l
  }

  ghost function Mk(s: Side, a: Tree, n: Vmar, black: bool, gap: nat, mx: nat, b: Tree): Tree {
    if s.L? then Bin(a, n, black, gap, mx, b) else Bin(b, n, black, gap, mx, a)
  }

  ghost function Close(f: Frame, t: Tree): Tree {
    Mk(f.side, t, f.n, f.black, f.gap, f.mx, f.sib)
  }

  ghost function Plug(c: Ctx, t: Tree): Tree {
    match c
    case Top => t
    case Up(f, up) => Plug(up, Close(f, t))
  }

  ghost function Paint(t: Tree, black: bool): Tree {
    if t.Nil? then Nil else t.(black := black)
  }

  ghost function ParOf(c: Ctx, tp: Vmar?): Vmar? {
    if c.Top? then tp else c.f.n
  }

  // ----- contents -----

  ghost function Nodes(t: Tree): set<Vmar> {
    if t.Nil? then {} else Nodes(t.l) + {t.n} + Nodes(t.r)
  }

  ghost function CNodes(c: Ctx): set<Vmar> {
    if c.Top? then {} else Nodes(c.f.sib) + {c.f.n} + CNodes(c.up)
  }

  ghost function InOrder(t: Tree): seq<Vmar> {
    if t.Nil? then [] else InOrder(t.l) + [t.n] + InOrder(t.r)
  }

  /** What the in-order sequence holds before and after the hole. */
  ghost function Before(c: Ctx): seq<Vmar> {
    if c.Top? then []
    else Before(c.up) + if c.f.side.L? then [] else InOrder(c.f.sib) + [c.f.n]
  }

  ghost function After(c: Ctx): seq<Vmar> {
    if c.Top? then []
    else (if c.f.side.L? then [c.f.n] + InOrder(c.f.sib) else []) + After(c.up)
  }

  lemma {:induction false} InOrderPlug(c: Ctx, t: Tree)
    ensures InOrder(Plug(c, t)) == Before(c) + InOrder(t) + After(c)
    decreases c
  {
    if c.Up? {
      InOrderPlug(c.up, Close(c.f, t));
      assert InOrder(Plug(c, t)) == Before(c.up) + InOrder(Close(c.f, t)) + After(c.up);
      if c.f.side.L? {
        assert InOrder(Close(c.f, t)) == InOrder(t) + [c.f.n] + InOrder(c.f.sib);
      } else {
        assert InOrder(Close(c.f, t)) == InOrder(c.f.sib) + [c.f.n] + InOrder(t);
      }
    }
  }

  lemma {:induction false} NodesPlug(c: Ctx, t: Tree)
    ensures Nodes(Plug(c, t)) == Nodes(t) + CNodes(c)
    decreases c
  {
    if c.Up? {
      NodesPlug(c.up, Close(c.f, t));
    }
  }

  ghost function Elems(s: seq<Vmar>): set<Vmar> {
    set v | v in s
  }

  lemma {:induction false} NodesInOrder(t: Tree)
    ensures Nodes(t) == Elems(InOrder(t))
  {
    if t.Bin? {
      NodesInOrder(t.l);
      NodesInOrder(t.r);
      assert Elems(InOrder(t)) == Elems(InOrder(t.l)) + {t.n} + Elems(InOrder(t.r));
    }
  }

  // ----- no node occurs twice -----

  ghost predicate Disj(t: Tree) {
    t.Bin? ==>
      && t.n !in Nodes(t.l) && t.n !in Nodes(t.r) && Nodes(t.l) !! Nodes(t.r)
      && Disj(t.l) && Disj(t.r)
  }

  ghost predicate CDisj(c: Ctx) {
    c.Up? ==>
      && c.f.n !in Nodes(c.f.sib) && c.f.n !in CNodes(c.up) && Nodes(c.f.sib) !! CNodes(c.up)
      && Disj(c.f.sib) && CDisj(c.up)
  }

  // ----- red-black -----

  ghost function B(black: bool): int {
    if black then 1 else 0
  }

  ghost predicate IsBlack(t: Tree) {
    t.Nil? || t.black
  }

  /** Both children of every red node are black. */
  ghost predicate NoRedRed(t: Tree) {
    t.Bin? ==>
      && (t.black || (IsBlack(t.l) && IsBlack(t.r)))
      && NoRedRed(t.l) && NoRedRed(t.r)
  }

  /** Every path to a leaf has h black nodes. */
  ghost predicate BlackHeight(t: Tree, h: int) {
    if t.Nil? then h == 0
    else BlackHeight(t.l, h - B(t.black)) && BlackHeight(t.r, h - B(t.black))
  }

  ghost function Height(t: Tree): int {
    if t.Nil? then 0 else Height(t.l) + B(t.black)
  }

  ghost predicate RedBlack(t: Tree) {
    IsBlack(t) && NoRedRed(t) && BlackHeight(t, Height(t))
  }

  lemma {:induction false} HeightUnique(t: Tree, h: int)
    requires BlackHeight(t, h)
    ensures h == Height(t)
  {
    if t.Bin? {
      HeightUnique(t.l, h - B(t.black));
    }
  }

  /** A black-rooted tree of black height h in this context makes a red-black tree. */
  ghost predicate CtxOk(c: Ctx, h: int) {
    c.Up? ==>
      && BlackHeight(c.f.sib, h) && NoRedRed(c.f.sib)
      && (c.f.black || (IsBlack(c.f.sib) && c.up.Up? && c.up.f.black))
      && CtxOk(c.up, h + B(c.f.black))
  }

  /** May a tree with this root colour stand in this context? */
  ghost predicate RootFits(t: Tree, c: Ctx) {
    IsBlack(t) || (c.Up? && c.f.black)
  }

  lemma {:induction false} PlugRedBlack(c: Ctx, t: Tree, h: int)
    requires BlackHeight(t, h) && NoRedRed(t) && CtxOk(c, h) && RootFits(t, c)
    ensures RedBlack(Plug(c, t))
    decreases c
  {
    if c.Top? {
      HeightUnique(t, h);
    } else {
      PlugRedBlack(c.up, Close(c.f, t), h + B(c.f.black));
    }
  }

  lemma {:induction false} UnplugRedBlack(c: Ctx, t: Tree)
    requires RedBlack(Plug(c, t))
    ensures BlackHeight(t, Height(t)) && NoRedRed(t) && CtxOk(c, Height(t)) && RootFits(t, c)
    decreases c
  {
    if c.Up? {
      var u := Close(c.f, t);
      UnplugRedBlack(c.up, u);
      HeightUnique(t, Height(u) - B(c.f.black));
    }
  }

  // ----- augmentation -----

  ghost function Mx(t: Tree): nat {
    if t.Nil? then 0 else t.mx
  }

  ghost predicate Aug(t: Tree) {
    t.Bin? ==> t.mx == Max(t.gap, Max(Mx(t.l), Mx(t.r))) && Aug(t.l) && Aug(t.r)
  }

  lemma AugMk(s: Side, a: Tree, n: Vmar, black: bool, gap: nat, mx: nat, b: Tree)
    ensures Aug(Mk(s, a, n, black, gap, mx, b)) <==> mx == Max(gap, Max(Mx(a), Mx(b))) && Aug(a) && Aug(b)
    ensures Mx(Mk(s, a, n, black, gap, mx, b)) == mx
  {
  }

  /** The stored maxima of the context are right for a hole whose maximum is m. */
  ghost predicate CAug(c: Ctx, m: nat) {
    c.Up? ==>
      c.f.mx == Max(c.f.gap, Max(m, Mx(c.f.sib))) && Aug(c.f.sib) && CAug(c.up, c.f.mx)
  }

  lemma {:induction false} PlugAug(c: Ctx, t: Tree)
    ensures Aug(Plug(c, t)) <==> Aug(t) && CAug(c, Mx(t))
    decreases c
  {
    if c.Up? {
      PlugAug(c.up, Close(c.f, t));
    }
  }

  ghost function GapList(t: Tree): seq<nat> {
    if t.Nil? then [] else GapList(t.l) + [t.gap] + GapList(t.r)
  }

  /** The stored value is the true maximum over the subtree. */
  lemma {:induction false} AugIsMaximum(t: Tree)
    requires Aug(t)
    ensures forall g :: g in GapList(t) ==> g <= Mx(t)
    ensures t.Bin? ==> t.mx in GapList(t)
  {
    if t.Bin? {
      AugIsMaximum(t.l);
      AugIsMaximum(t.r);
    }
  }

  // ----- the memory holds a tree -----

  ghost function RootCell(t: Tree, p: Vmar?): Cell
    requires t.Bin?
  {
    Cell(Root(t.l), Root(t.r), p, t.black, t.gap, t.mx)
  }

  /** m holds t at its root's address, below parent p. */
  ghost predicate Rep(m: Mem, t: Tree, p: Vmar?) {
    t.Bin? ==>
      && t.n in m && m[t.n] == RootCell(t, p)
      && Rep(m, t.l, t.n) && Rep(m, t.r, t.n)
  }

  ghost function SideCell(s: Side, x: Vmar?, y: Vmar?, p: Vmar?, black: bool, gap: nat, mx: nat): Cell {
    if s.L? then Cell(x, y, p, black, gap, mx) else Cell(y, x, p, black, gap, mx)
  }

  ghost function FrameCell(f: Frame, hole: Vmar?, p: Vmar?): Cell {
    SideCell(f.side, hole, Root(f.sib), p, f.black, f.gap, f.mx)
  }

  /** m holds the path c from `hole` up to `top`, whose parent is tp. */
  ghost predicate Seg(m: Mem, c: Ctx, hole: Vmar?, top: Vmar?, tp: Vmar?) {
    if c.Top? then hole == top
    else
      && c.f.n in m && m[c.f.n] == FrameCell(c.f, hole, ParOf(c.up, tp))
      && Rep(m, c.f.sib, c.f.n) && Seg(m, c.up, c.f.n, top, tp)
  }

  /** m, with this root pointer, holds exactly the tree that has t at the position c. */
  ghost predicate HoldsAt(m: Mem, root: Vmar?, c: Ctx, t: Tree) {
    && Rep(m, t, ParOf(c, null)) && Seg(m, c, Root(t), root, null)
    && Disj(t) && CDisj(c) && Nodes(t) !! CNodes(c)
  }

  ghost predicate SameOn(m: Mem, m': Mem, vs: set<Vmar>) {
    forall v :: v in vs && v in m ==> v in m' && m'[v] == m[v]
  }

  lemma {:induction false} RepFrame(m: Mem, m': Mem, t: Tree, p: Vmar?)
    requires Rep(m, t, p)
    requires SameOn(m, m', Nodes(t))
    ensures Rep(m', t, p)
  {
    if t.Bin? {
      RepFrame(m, m', t.l, t.n);
      RepFrame(m, m', t.r, t.n);
    }
  }

  lemma {:induction false} RepNodes(m: Mem, t: Tree, p: Vmar?)
    requires Rep(m, t, p)
    ensures Nodes(t) <= m.Keys
  {
    if t.Bin? {
      RepNodes(m, t.l, t.n);
      RepNodes(m, t.r, t.n);
    }
  }

  lemma {:induction false} SegNodes(m: Mem, c: Ctx, hole: Vmar?, top: Vmar?, tp: Vmar?)
    requires Seg(m, c, hole, top, tp)
    ensures CNodes(c) <= m.Keys
  {
    if c.Up? {
      RepNodes(m, c.f.sib, c.f.n);
      SegNodes(m, c.up, c.f.n, top, tp);
    }
  }

  lemma {:induction false} SegFrame(m: Mem, m': Mem, c: Ctx, hole: Vmar?, top: Vmar?, tp: Vmar?)
    requires Seg(m, c, hole, top, tp)
    requires SameOn(m, m', CNodes(c))
    ensures Seg(m', c, hole, top, tp)
  {
    if c.Up? {
      RepFrame(m, m', c.f.sib, c.f.n);
      SegFrame(m, m', c.up, c.f.n, top, tp);
    }
  }

  lemma ClimbHolds(m: Mem, root: Vmar?, f: Frame, up: Ctx, t: Tree)
    ensures HoldsAt(m, root, Up(f, up), t) <==> HoldsAt(m, root, up, Close(f, t))
  {
  }

  lemma {:induction false} PlugHolds(m: Mem, root: Vmar?, c: Ctx, t: Tree)
    ensures HoldsAt(m, root, c, t) <==> HoldsAt(m, root, Top, Plug(c, t))
    decreases c
  {
    if c.Up? {
      ClimbHolds(m, root, c.f, c.up, t);
      PlugHolds(m, root, c.up, Close(c.f, t));
    }
  }

  // ----- local changes -----

  /** The same subtrees under a root with other colour or augmented data. */
  ghost predicate SameShape(t: Tree, t': Tree) {
    if t.Nil? then t'.Nil? else t'.Bin? && t'.n == t.n && t'.l == t.l && t'.r == t.r
  }

  /** A subtree whose root is rewritten. */
  lemma RepEdit(m: Mem, m': Mem, t: Tree, p: Vmar?, t': Tree, p': Vmar?)
    requires Rep(m, t, p) && Disj(t) && SameShape(t, t')
    requires t.Bin? ==> SameOn(m, m', Nodes(t.l)) && SameOn(m, m', Nodes(t.r))
    requires t.Bin? ==> t.n in m' && m'[t.n] == RootCell(t', p')
    ensures Rep(m', t', p') && Nodes(t') == Nodes(t) && Disj(t')
  {
    if t.Bin? {
      RepFrame(m, m', t.l, t.n);
      RepFrame(m, m', t.r, t.n);
    }
  }

  /** A path whose lowest node is rewritten to point at another subtree. */
  lemma SegEdit(m: Mem, m': Mem, c: Ctx, o: Vmar?, root: Vmar?, n: Vmar?, root': Vmar?)
    requires Seg(m, c, o, root, null) && CDisj(c)
    requires c.Top? ==> root' == n
    requires c.Up? ==> root' == root && c.f.n in m' && m'[c.f.n] == FrameCell(c.f, n, ParOf(c.up, null))
    requires c.Up? ==> SameOn(m, m', Nodes(c.f.sib)) && SameOn(m, m', CNodes(c.up))
    ensures Seg(m', c, n, root', null)
  {
    if c.Up? {
      RepFrame(m, m', c.f.sib, c.f.n);
      SegFrame(m, m', c.up, c.f.n, root, null);
    }
  }

  /** Rewriting the root of the subtree in focus. */
  lemma EditHolds(m: Mem, root: Vmar?, c: Ctx, t: Tree, t': Tree)
    requires HoldsAt(m, root, c, t) && t.Bin? && SameShape(t, t')
    ensures HoldsAt(m[t.n := RootCell(t', ParOf(c, null))], root, c, t')
  {
    var m' := m[t.n := RootCell(t', ParOf(c, null))];
    RepEdit(m, m', t, ParOf(c, null), t', ParOf(c, null));
    SegFrame(m, m', c, t.n, root, null);
  }

  /** The memory after the child that pointed at o points at n. */
  ghost function Relinked(m: Mem, c: Ctx, n: Vmar?): Mem {
    if c.Top? then m else m[c.f.n := FrameCell(c.f, n, ParOf(c.up, null))]
  }

  /** One rotation at g, on the side of its child p. */
  datatype Rotation = Rotation(s: Side, a: Tree, b: Tree, u: Tree, p: Vmar, g: Vmar,
                               pgap: nat, ggap: nat) {

    ghost function From(pb: bool, pm: nat, gb: bool, gm: nat): Tree {
      Mk(s, Mk(s, a, p, pb, pgap, pm, b), g, gb, ggap, gm, u)
    }

    ghost function To(pb: bool, pm: nat, gb: bool, gm: nat, b': Tree): Tree {
      Mk(s, a, p, pb, pgap, pm, Mk(s, b', g, gb, ggap, gm, u))
    }

    ghost function After(m: Mem, c: Ctx, pb: bool, pm: nat, gb: bool, gm: nat, b': Tree): Mem {
      var m1 := if b'.Nil? then m else m[b'.n := RootCell(b', g)];
      Relinked(m1[g := SideCell(s, Root(b), Root(u), p, gb, ggap, gm)]
                 [p := SideCell(s, Root(a), g, ParOf(c, null), pb, pgap, pm)], c, p)
    }
  }

  /** The parts of a rotation are pairwise disjoint, and this does not depend on the shape. */
  ghost predicate Distant(x: Rotation) {
    && Disj(x.a) && Disj(x.b) && Disj(x.u) && x.p != x.g
    && (Nodes(x.a) !! Nodes(x.b) !! Nodes(x.u) !! {x.p, x.g})
  }

  lemma RotateNodes(x: Rotation, pb: bool, pm: nat, gb: bool, gm: nat)
    ensures var t := x.From(pb, pm, gb, gm);
            && Nodes(t) == Nodes(x.a) + Nodes(x.b) + Nodes(x.u) + {x.p, x.g}
            && (Disj(t) <==> Distant(x))
  {
    var q := Mk(x.s, x.a, x.p, pb, x.pgap, pm, x.b);
    assert Nodes(q) == Nodes(x.a) + {x.p} + Nodes(x.b);
    assert Disj(q) <==> Disj(x.a) && Disj(x.b) && x.p !in Nodes(x.a) && x.p !in Nodes(x.b) && Nodes(x.a) !! Nodes(x.b);
  }

  /** A rotation seen from the other end. */
  lemma RotateMirror(x: Rotation, pb: bool, pm: nat, gb: bool, gm: nat, b': Tree)
    requires SameShape(x.b, b')
    ensures var y := Rotation(x.s.Flip(), x.u, b', x.a, x.g, x.p, x.ggap, x.pgap);
            && x.To(pb, pm, gb, gm, b') == y.From(gb, gm, pb, pm)
            && (Distant(x) <==> Distant(y)) && Nodes(b') == Nodes(x.b)
  {
  }

  lemma RotateInOrder(x: Rotation, pb: bool, pm: nat, gb: bool, gm: nat, pb': bool, pm': nat, gb': bool, gm': nat, b': Tree)
    requires SameShape(x.b, b')
    ensures InOrder(x.From(pb, pm, gb, gm)) == InOrder(x.To(pb', pm', gb', gm', b'))
  {
    assert InOrder(b') == InOrder(x.b);
    if x.s.L? {
      assert InOrder(x.From(pb, pm, gb, gm)) == (InOrder(x.a) + [x.p] + InOrder(x.b)) + [x.g] + InOrder(x.u);
      assert InOrder(x.To(pb', pm', gb', gm', b')) == InOrder(x.a) + [x.p] + (InOrder(x.b) + [x.g] + InOrder(x.u));
    } else {
      assert InOrder(x.From(pb, pm, gb, gm)) == InOrder(x.u) + [x.g] + (InOrder(x.b) + [x.p] + InOrder(x.a));
      assert InOrder(x.To(pb', pm', gb', gm', b')) == (InOrder(x.u) + [x.g] + InOrder(x.b)) + [x.p] + InOrder(x.a);
    }
  }

  /** The parts of the rotated memory, put together. */
  lemma RotateJoin(x: Rotation, m': Mem, root': Vmar?, c: Ctx, pb: bool, pm: nat, gb: bool, gm: nat, b: Tree)
    requires Rep(m', x.a, x.p) && Rep(m', b, x.g) && Rep(m', x.u, x.g) && Seg(m', c, x.p, root', null)
    requires x.p in m' && m'[x.p] == SideCell(x.s, Root(x.a), x.g, ParOf(c, null), pb, x.pgap, pm)
    requires x.g in m' && m'[x.g] == SideCell(x.s, Root(b), Root(x.u), x.p, gb, x.ggap, gm)
    requires var t := x.To(pb, pm, gb, gm, b); Disj(t) && CDisj(c) && Nodes(t) !! CNodes(c)
    ensures HoldsAt(m', root', c, x.To(pb, pm, gb, gm, b))
  {
    assert Rep(m', Mk(x.s, b, x.g, gb, x.ggap, gm, x.u), x.p);
  }

  lemma RotateHolds(x: Rotation, m: Mem, root: Vmar?, root': Vmar?, c: Ctx,
                    pb: bool, pm: nat, gb: bool, gm: nat, pb': bool, pm': nat, gb': bool, gm': nat, b': Tree)
    requires HoldsAt(m, root, c, x.From(pb, pm, gb, gm)) && SameShape(x.b, b')
    requires root' == if c.Top? then x.p else root
    ensures HoldsAt(x.After(m, c, pb', pm', gb', gm', b'), root', c, x.To(pb', pm', gb', gm', b'))
  {
    var m' := x.After(m, c, pb', pm', gb', gm', b');
    RotateNodes(x, pb, pm, gb, gm);
    RotateMirror(x, pb', pm', gb', gm', b');
    RotateNodes(Rotation(x.s.Flip(), x.u, b', x.a, x.g, x.p, x.ggap, x.pgap), gb', gm', pb', pm');
    assert Rep(m, x.a, x.p) && Rep(m, x.b, x.p) && Rep(m, x.u, x.g) by {
      assert Rep(m, Mk(x.s, x.a, x.p, pb, x.pgap, pm, x.b), x.g);
    }
    assert Rep(m', x.a, x.p) by { RepFrame(m, m', x.a, x.p); }
    assert Rep(m', x.u, x.g) by { RepFrame(m, m', x.u, x.g); }
    assert Rep(m', b', x.g) by { RepEdit(m, m', x.b, x.p, b', x.g); }
    assert Seg(m', c, x.p, root', null) by { SegEdit(m, m', c, x.g, root, x.p, root'); }
    RotateJoin(x, m', root', c, pb', pm', gb', gm', b');
  }
}
