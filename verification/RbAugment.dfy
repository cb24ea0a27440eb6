/** The propagate callback of `RB_DECLARE_CALLBACKS` with its early exit, over a path of the tree. */
module RbAugment {
  import opened VmarNode
  import opened RbTree

  ghost function Append(a: Ctx, b: Ctx): Ctx {
    if a.Top? then b else Up(a.f, Append(a.up, b))
  }

  /** The root of the subtree a path closes over its hole. */
  ghost function TopOf(c: Ctx, hole: Vmar?): Vmar? {
    if c.Top? then hole else TopOf(c.up, c.f.n)
  }

  lemma {:induction false} AppendAssoc(a: Ctx, b: Ctx, c: Ctx)
    ensures Append(Append(a, b), c) == Append(a, Append(b, c))
  {
    if a.Up? {
      AppendAssoc(a.up, b, c);
    }
  }

  lemma {:induction false} PlugAppend(a: Ctx, b: Ctx, t: Tree)
    ensures Plug(Append(a, b), t) == Plug(b, Plug(a, t))
    decreases a
  {
    if a.Up? {
      PlugAppend(a.up, b, Close(a.f, t));
    }
  }

  lemma {:induction false} AppendNodes(a: Ctx, b: Ctx)
    ensures CNodes(Append(a, b)) == CNodes(a) + CNodes(b)
  {
    if a.Up? {
      AppendNodes(a.up, b);
    }
  }

  lemma {:induction false} AppendDisj(a: Ctx, b: Ctx)
    ensures CDisj(Append(a, b)) <==> CDisj(a) && CDisj(b) && CNodes(a) !! CNodes(b)
  {
    if a.Up? {
      AppendDisj(a.up, b);
      AppendNodes(a.up, b);
    }
  }

  lemma ParOfAppend(a: Ctx, b: Ctx, tp: Vmar?)
    ensures ParOf(Append(a, b), tp) == ParOf(a, ParOf(b, tp))
  {
  }

  lemma {:induction false} SegAppend(m: Mem, a: Ctx, b: Ctx, hole: Vmar?, top: Vmar?, tp: Vmar?)
    ensures Seg(m, Append(a, b), hole, top, tp)
       <==> Seg(m, a, hole, TopOf(a, hole), ParOf(b, tp)) && Seg(m, b, TopOf(a, hole), top, tp)
    decreases a
  {
    if a.Up? {
      SegAppend(m, a.up, b, a.f.n, top, tp);
      ParOfAppend(a.up, b, tp);
    }
  }

  lemma {:induction false} SegTop(m: Mem, c: Ctx, hole: Vmar?, top: Vmar?, tp: Vmar?)
    requires Seg(m, c, hole, top, tp)
    ensures top == TopOf(c, hole)
  {
    if c.Up? {
      SegTop(m, c.up, c.f.n, top, tp);
    }
  }

  // ----- propagation -----

  /** The path after propagation: maxima are recomputed from the hole up, until one does not change. */
  ghost function Propagated(c: Ctx, x: nat): Ctx {
    if c.Top? then Top
    else
      var y := Max(c.f.gap, Max(x, Mx(c.f.sib)));
      if c.f.mx == y then c else Up(c.f.(mx := y), Propagated(c.up, y))
  }

  /** Everything but the lowest maximum of the path is right. */
  ghost predicate AugAbove(c: Ctx) {
    c.Up? ==> Aug(c.f.sib) && CAug(c.up, c.f.mx)
  }

  /** The early exit is sound: stopping at the first unchanged maximum leaves all maxima right. */
  lemma {:induction false} PropagatedAug(c: Ctx, x: nat)
    requires AugAbove(c)
    ensures CAug(Propagated(c, x), x)
    decreases c
  {
    if c.Up? {
      PropagatedAug(c.up, Max(c.f.gap, Max(x, Mx(c.f.sib))));
    }
  }

  /** Two paths that differ in nodes, gaps and maxima only. */
  ghost predicate Alike(a: Ctx, b: Ctx) {
    if a.Top? then b.Top?
    else b.Up? && a.f.side == b.f.side && a.f.black == b.f.black && a.f.sib == b.f.sib && Alike(a.up, b.up)
  }

  lemma {:induction false} AlikeOk(a: Ctx, b: Ctx, h: int)
    requires Alike(a, b) && CtxOk(a, h)
    ensures CtxOk(b, h)
    decreases a
  {
    if a.Up? {
      AlikeOk(a.up, b.up, h + B(a.f.black));
    }
  }

  lemma {:induction false} AlikeRefl(a: Ctx)
    ensures Alike(a, a)
  {
    if a.Up? {
      AlikeRefl(a.up);
    }
  }

  lemma {:induction false} AlikeAppend(a: Ctx, a': Ctx, b: Ctx, b': Ctx)
    requires Alike(a, a') && Alike(b, b')
    ensures Alike(Append(a, b), Append(a', b'))
  {
    if a.Up? {
      AlikeAppend(a.up, a'.up, b, b');
    }
  }

  /** The same nodes and gaps, too: only maxima differ. */
  lemma {:induction false} PropagatedShape(c: Ctx, x: nat)
    ensures var c' := Propagated(c, x);
            && Alike(c, c') && CNodes(c') == CNodes(c) && Before(c') == Before(c) && After(c') == After(c)
            && (CDisj(c) ==> CDisj(c')) && (forall tp :: ParOf(c', tp) == ParOf(c, tp))
            && (forall hole :: TopOf(c', hole) == TopOf(c, hole))
    decreases c
  {
    if c.Up? {
      AlikeRefl(c);
      PropagatedShape(c.up, Max(c.f.gap, Max(x, Mx(c.f.sib))));
    }
  }

  /** Half-way: the part lo of the path is done, up to the subtree at mid; cr is still to do. */
  ghost predicate PropState(m: Mem, lo: Ctx, cr: Ctx, hole: Vmar?, mid: Vmar?, top: Vmar?, stop: Vmar?, x: nat) {
    && Seg(m, lo, hole, mid, ParOf(cr, stop)) && Seg(m, cr, mid, top, stop)
    && CDisj(lo) && CDisj(cr) && CNodes(lo) !! CNodes(cr) && mid == TopOf(lo, hole)
    && (mid != null ==> mid in m && mid !in CNodes(cr)) && MaxAt(m, mid) == x
    && (stop != null ==> stop !in CNodes(cr))
  }

  lemma SegDomain(m: Mem, cr: Ctx, mid: Vmar?, top: Vmar?, stop: Vmar?)
    requires Seg(m, cr, mid, top, stop) && cr.Up? && CDisj(cr)
    requires mid != null ==> mid in m && mid !in CNodes(cr)
    ensures cr.f.n in m && Opt(m[cr.f.n].left) + Opt(m[cr.f.n].right) <= m.Keys
    ensures m[cr.f.n].parent == ParOf(cr.up, stop) && m[cr.f.n].maxGap == cr.f.mx
    ensures ComputedMax(m, cr.f.n) == Max(cr.f.gap, Max(MaxAt(m, mid), Mx(cr.f.sib)))
  {
  }

  lemma PropStep(m: Mem, lo: Ctx, cr: Ctx, hole: Vmar?, mid: Vmar?, top: Vmar?, stop: Vmar?, x: nat)
    requires PropState(m, lo, cr, hole, mid, top, stop, x) && cr.Up?
    ensures var y := Max(cr.f.gap, Max(x, Mx(cr.f.sib)));
            && cr.f.n in m
            && PropState(m[cr.f.n := m[cr.f.n].(maxGap := y)], Append(lo, Up(cr.f.(mx := y), Top)), cr.up,
                         hole, cr.f.n, top, stop, y)
  {
    var y := Max(cr.f.gap, Max(x, Mx(cr.f.sib)));
    var m', one := m[cr.f.n := m[cr.f.n].(maxGap := y)], Up(cr.f.(mx := y), Top);
    SegFrame(m, m', lo, hole, mid, cr.f.n);
    SegFrame(m, m', cr.up, cr.f.n, top, stop);
    RepFrame(m, m', cr.f.sib, cr.f.n);
    assert Seg(m', one, mid, cr.f.n, ParOf(cr.up, stop));
    SegAppend(m', lo, one, hole, cr.f.n, ParOf(cr.up, stop));
    AppendDisj(lo, one);
    AppendNodes(lo, one);
    SegTop(m', Append(lo, one), hole, cr.f.n, ParOf(cr.up, stop));
  }

  lemma PropEnd(m: Mem, lo: Ctx, cr: Ctx, hole: Vmar?, mid: Vmar?, top: Vmar?, stop: Vmar?, x: nat)
    requires PropState(m, lo, cr, hole, mid, top, stop, x)
    ensures Seg(m, Append(lo, cr), hole, top, stop)
  {
    SegAppend(m, lo, cr, hole, top, stop);
  }

  ghost predicate OnlyMaxima(m: Mem, m': Mem, c: Ctx) {
    && m'.Keys == m.Keys
    && forall v :: v in m && v !in CNodes(c) ==> m'[v] == m[v]
  }

  /** One round of the propagate loop. */
  method PropagateOne(rb: Vmar, stop: Vmar?, ghost lo: Ctx, ghost cr: Ctx, ghost hole: Vmar?, ghost mid: Vmar?,
                      ghost top: Vmar?, ghost x: nat, ghost nodes: set<Vmar>) returns (same: bool)
    requires PropState(Snap(nodes), lo, cr, hole, mid, top, stop, x) && cr.Up? && rb == cr.f.n
    modifies rb`maxGap
    ensures same ==> cr.f.mx == Max(cr.f.gap, Max(x, Mx(cr.f.sib))) && Snap(nodes) == old(Snap(nodes))
    ensures !same ==>
              var y := Max(cr.f.gap, Max(x, Mx(cr.f.sib)));
              && cr.f.mx != y && rb.rbParent == ParOf(cr.up, stop)
              && OnlyMaxima(old(Snap(nodes)), Snap(nodes), cr)
              && PropState(Snap(nodes), Append(lo, Up(cr.f.(mx := y), Top)), cr.up, hole, rb, top, stop, y)
  {
    ghost var m := Snap(nodes);
    PropRound(m, lo, cr, hole, mid, top, stop, x);
    assert m[rb] == CellOf(rb);
    same := ComputeMax(rb, true, nodes);
  }

  /** What one round finds and stores. */
  lemma PropRound(m: Mem, lo: Ctx, cr: Ctx, hole: Vmar?, mid: Vmar?, top: Vmar?, stop: Vmar?, x: nat)
    requires PropState(m, lo, cr, hole, mid, top, stop, x) && cr.Up?
    ensures var rb, y := cr.f.n, Max(cr.f.gap, Max(x, Mx(cr.f.sib)));
            && rb in m && Opt(m[rb].left) + Opt(m[rb].right) <= m.Keys && ComputedMax(m, rb) == y && m[rb].maxGap == cr.f.mx
            && m[rb].parent == ParOf(cr.up, stop)
            && (m[rb].maxGap == y ==> m[rb := m[rb].(maxGap := y)] == m)
            && OnlyMaxima(m, m[rb := m[rb].(maxGap := y)], cr)
            && PropState(m[rb := m[rb].(maxGap := y)], Append(lo, Up(cr.f.(mx := y), Top)), cr.up, hole, rb, top, stop, y)
  {
    SegDomain(m, cr, mid, top, stop);
    PropStep(m, lo, cr, hole, mid, top, stop, x);
  }

  /** The propagate callback from rb up to (not including) stop. */
  method Propagate(rb0: Vmar?, stop: Vmar?, ghost c: Ctx, ghost hole: Vmar?, ghost top: Vmar?, ghost nodes: set<Vmar>)
    requires Opt(hole) <= nodes && rb0 == ParOf(c, stop)
    requires PropState(Snap(nodes), Top, c, hole, hole, top, stop, MaxAt(Snap(nodes), hole))
    modifies nodes`maxGap
    ensures Seg(Snap(nodes), Propagated(c, MaxAt(old(Snap(nodes)), hole)), hole, top, stop)
    ensures OnlyMaxima(old(Snap(nodes)), Snap(nodes), c)
  {
    ghost var x0 := MaxAt(Snap(nodes), hole);
    ghost var lo, cr, mid, x := Top, c, hole, x0;
    var rb := rb0;
    while rb != stop
      invariant PropState(Snap(nodes), lo, cr, hole, mid, top, stop, x)
      invariant rb == ParOf(cr, stop)
      invariant Append(lo, Propagated(cr, x)) == Propagated(c, x0)
      invariant OnlyMaxima(old(Snap(nodes)), Snap(nodes), c) && CNodes(cr) <= CNodes(c)
      decreases cr
    {
      ghost var y := Max(cr.f.gap, Max(x, Mx(cr.f.sib)));
      var same := PropagateOne(rb, stop, lo, cr, hole, mid, top, x, nodes);
      if same {
        PropEnd(Snap(nodes), lo, cr, hole, mid, top, stop, x);
        return;
      }
      AppendAssoc(lo, Up(cr.f.(mx := y), Top), Propagated(cr.up, y));
      rb := rb.rbParent;
      lo, cr, mid, x := Append(lo, Up(cr.f.(mx := y), Top)), cr.up, cr.f.n, y;
    }
    PropEnd(Snap(nodes), lo, cr, hole, mid, top, stop, x);
  }

  lemma HoldsPropState(m: Mem, root: Vmar?, c: Ctx, t: Tree)
    requires HoldsAt(m, root, c, t)
    ensures (t.Bin? ==> t.n in m) && MaxAt(m, Root(t)) == Mx(t)
    ensures PropState(m, Top, c, Root(t), Root(t), root, null, Mx(t))
  {
  }

  lemma PropagatedHolds(m: Mem, m': Mem, root: Vmar?, c: Ctx, t: Tree, x: nat)
    requires HoldsAt(m, root, c, t) && OnlyMaxima(m, m', c)
    requires Seg(m', Propagated(c, x), Root(t), root, null)
    ensures HoldsAt(m', root, Propagated(c, x), t)
  {
    RepNodes(m, t, ParOf(c, null));
    RepFrame(m, m', t, ParOf(c, null));
    PropagatedShape(c, x);
    assert ParOf(Propagated(c, x), null) == ParOf(c, null);
  }

  /** Propagation from a subtree to the root of the tree. */
  method PropagateUp(rb: Vmar?, root: RbRoot, ghost c: Ctx, ghost t: Tree, ghost nodes: set<Vmar>)
    requires HoldsAt(Snap(nodes), root.node, c, t) && rb == ParOf(c, null)
    modifies nodes`maxGap
    ensures HoldsAt(Snap(nodes), root.node, Propagated(c, Mx(t)), t)
  {
    ghost var m := Snap(nodes);
    HoldsPropState(m, root.node, c, t);
    Propagate(rb, null, c, Root(t), root.node, nodes);
    PropagatedHolds(m, Snap(nodes), root.node, c, t, Mx(t));
  }
}
