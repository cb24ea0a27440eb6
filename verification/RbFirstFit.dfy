/** `rb_find_first_fit` (src/lib/rbtree/rbtree_augmented.h): a first-fit walk that skips subtrees. */
module RbFirstFit {
  import opened VmarNode
  import opened RbTree
  import opened RbSearch

  /** The subtree test may be too generous but never misses a fitting node. */
  ghost predicate SoundTest(t: Tree, fits: set<Vmar>, promising: set<Vmar>) {
    t.Bin? ==>
      && (Nodes(t) * fits != {} ==> t.n in promising)
      && SoundTest(t.l, fits, promising) && SoundTest(t.r, fits, promising)
  }

  /** The same for the subtrees still ahead of the hole. */
  ghost predicate SoundCtx(c: Ctx, fits: set<Vmar>, promising: set<Vmar>) {
    c.Up? ==> (c.f.side.L? ==> SoundTest(c.f.sib, fits, promising)) && SoundCtx(c.up, fits, promising)
  }

  ghost predicate None(s: seq<Vmar>, fits: set<Vmar>) {
    forall v :: v in s ==> v !in fits
  }

  lemma NoneInSubtree(t: Tree, fits: set<Vmar>, promising: set<Vmar>)
    requires SoundTest(t, fits, promising) && (t.Bin? ==> t.n !in promising)
    ensures None(InOrder(t), fits)
  {
    NodesInOrder(t);
    forall v | v in InOrder(t)
      ensures v !in fits
    {
      assert v in Elems(InOrder(t));
      assert v in Nodes(t);
      assert v in fits ==> v in Nodes(t) * fits;
    }
  }

  /** Where the walk is: in front of the whole subtree, or past its left part. */
  ghost predicate Standing(m: Mem, root: Vmar?, c: Ctx, t: Tree, past: bool, fits: set<Vmar>, promising: set<Vmar>) {
    && HoldsAt(m, root, c, t) && t.Bin? && SoundTest(t.r, fits, promising) && SoundCtx(c, fits, promising)
    && None(Before(c), fits) && (if past then None(InOrder(t.l), fits) else SoundTest(t.l, fits, promising))
  }

  lemma StepLeft(m: Mem, root: Vmar?, c: Ctx, t: Tree, fits: set<Vmar>, promising: set<Vmar>)
    requires Standing(m, root, c, t, false, fits, promising) && t.l.Bin?
    ensures Standing(m, root, Up(Down(t, L), c), t.l, false, fits, promising)
    ensures Plug(Up(Down(t, L), c), t.l) == Plug(c, t)
    ensures |InOrder(t.l)| + |After(Up(Down(t, L), c))| == |InOrder(t)| + |After(c)|
  {
    DownStep(m, root, c, t, L);
    assert Before(Up(Down(t, L), c)) == Before(c);
  }

  lemma StepRight(m: Mem, root: Vmar?, c: Ctx, t: Tree, fits: set<Vmar>, promising: set<Vmar>)
    requires Standing(m, root, c, t, true, fits, promising) && t.r.Bin? && t.n !in fits
    ensures Standing(m, root, Up(Down(t, R), c), t.r, false, fits, promising)
    ensures Plug(Up(Down(t, R), c), t.r) == Plug(c, t)
    ensures After(Up(Down(t, R), c)) == After(c)
  {
    DownStep(m, root, c, t, R);
  }

  /** The whole subtree in focus is done. */
  ghost predicate Done(m: Mem, root: Vmar?, c: Ctx, t: Tree, fits: set<Vmar>, promising: set<Vmar>) {
    && HoldsAt(m, root, c, t) && t.Bin? && SoundCtx(c, fits, promising)
    && None(Before(c), fits) && None(InOrder(t), fits)
  }

  lemma Finish(m: Mem, root: Vmar?, c: Ctx, t: Tree, fits: set<Vmar>, promising: set<Vmar>)
    requires Standing(m, root, c, t, true, fits, promising) && t.n !in fits && (t.r.Nil? || t.r.n !in promising)
    ensures Done(m, root, c, t, fits, promising)
  {
    NoneInSubtree(t.r, fits, promising);
  }

  lemma ClimbLeft(m: Mem, root: Vmar?, f: Frame, up: Ctx, t: Tree, fits: set<Vmar>, promising: set<Vmar>)
    requires Done(m, root, Up(f, up), t, fits, promising) && f.side.L?
    ensures Standing(m, root, up, Close(f, t), true, fits, promising)
    ensures 1 + |InOrder(f.sib)| + |After(up)| == |After(Up(f, up))|
  {
    ClimbHolds(m, root, f, up, t);
  }

  lemma ClimbRight(m: Mem, root: Vmar?, f: Frame, up: Ctx, t: Tree, fits: set<Vmar>, promising: set<Vmar>)
    requires Done(m, root, Up(f, up), t, fits, promising) && f.side.R?
    ensures Done(m, root, up, Close(f, t), fits, promising)
    ensures After(up) == After(Up(f, up))
  {
    ClimbHolds(m, root, f, up, t);
    var a := InOrder(f.sib) + [f.n];
    assert Before(Up(f, up)) == Before(up) + a;
    assert None(a, fits) && None(Before(up), fits);
    assert InOrder(Close(f, t)) == a + InOrder(t);
  }

  /** The climb of the inner loop, up to the first ancestor reached from its left. */
  method Climb(start: Vmar, root: RbRoot, ghost c0: Ctx, ghost t0: Tree, ghost nodes: set<Vmar>,
               ghost fits: set<Vmar>, ghost promising: set<Vmar>)
      returns (node: Vmar?, ghost c: Ctx, ghost t: Tree)
    requires Done(Snap(nodes), root.node, c0, t0, fits, promising) && start == t0.n
    ensures Plug(c, t) == Plug(c0, t0)
    ensures node != null ==>
              && Standing(Snap(nodes), root.node, c, t, true, fits, promising) && node == t.n
              && 1 + |InOrder(t.r)| + |After(c)| == |After(c0)|
    ensures node == null ==> c.Top? && None(InOrder(t), fits)
  {
    ghost var m := Snap(nodes);
    node, c, t := start, c0, t0;
    while true
      invariant m == Snap(nodes) && Done(m, root.node, c, t, fits, promising) && node == t.n
      invariant Plug(c, t) == Plug(c0, t0) && After(c) == After(c0)
      decreases c
    {
      assert m[node] == RootCell(t, ParOf(c, null));
      var prev := node;
      node := prev.rbParent;
      if node == null {
        return;
      }
      assert m[node] == FrameCell(c.f, prev, ParOf(c.up, null)) && Root(c.f.sib) != prev;
      if prev == node.left {
        ClimbLeft(m, root.node, c.f, c.up, t, fits, promising);
        c, t := c.up, Close(c.f, t);
        return;
      }
      ClimbRight(m, root.node, c.f, c.up, t, fits, promising);
      c, t := c.up, Close(c.f, t);
    }
  }

  /** The nodes a callback says yes to. */
  ghost function Yes(m: Mem, test: Cell -> bool): set<Vmar> {
    set v | v in m && test(m[v])
  }

  /** The visited node is the first that fits. */
  lemma FoundFirst(m: Mem, root: Vmar?, c: Ctx, t: Tree, fits: set<Vmar>, promising: set<Vmar>)
    requires Standing(m, root, c, t, true, fits, promising) && t.n in fits
    ensures var s, i := InOrder(Plug(c, t)), |Before(c)| + |InOrder(t.l)|;
            i < |s| && s[i] == t.n && None(s[..i], fits)
  {
    InOrderPlug(c, t);
    var s, i := InOrder(Plug(c, t)), |Before(c)| + |InOrder(t.l)|;
    assert s[..i] == Before(c) + InOrder(t.l);
  }

  /** rb_find_first_fit, for any sound subtree test: the first fitting node in order, or none fits. */
  method FindFirstFit(root: RbRoot, fits: Cell -> bool, subtreeFits: Cell -> bool, ghost whole: Tree, ghost m: Mem)
      returns (found: Vmar?, ghost at: nat)
    requires m == Snap(Nodes(whole)) && HoldsAt(m, root.node, Top, whole)
    requires SoundTest(whole, Yes(m, fits), Yes(m, subtreeFits))
    ensures found != null ==> at < |InOrder(whole)| && found == InOrder(whole)[at] && found in m && fits(m[found])
    ensures found == null ==> at == |InOrder(whole)|
    ensures forall j :: 0 <= j < at ==> InOrder(whole)[j] in m && !fits(m[InOrder(whole)[j]])
  {
    found, at := FirstFit(root, fits, subtreeFits, whole, m, Yes(m, fits), Yes(m, subtreeFits));
    NodesInOrder(whole);
    ghost var s := InOrder(whole);
    if found == null {
      at := |s|;
      assert s[..at] == s;
    }
    forall j | 0 <= j < at
      ensures s[j] in m && !fits(m[s[j]])
    {
      assert s[j] in s[..at] && s[j] in Elems(s);
    }
  }

  /** How many nodes are still ahead. */
  ghost function Ahead(c: Ctx, t: Tree, past: bool): nat
    requires t.Bin?
  {
    (if past then 1 + |InOrder(t.r)| else |InOrder(t)|) + |After(c)|
  }

  /** check_current: the node itself, then its right subtree, then the way back up. */
  method Visit(node: Vmar, root: RbRoot, fits: Cell -> bool, subtreeFits: Cell -> bool, ghost c: Ctx, ghost t: Tree,
               ghost m: Mem, ghost nodes: set<Vmar>, ghost F: set<Vmar>, ghost P: set<Vmar>)
      returns (fit: bool, next: Vmar?, past: bool, ghost c': Ctx, ghost t': Tree)
    requires m == Snap(nodes) && F == Yes(m, fits) && P == Yes(m, subtreeFits)
    requires Standing(m, root.node, c, t, true, F, P) && node == t.n
    ensures fit <==> node in F
    ensures !fit ==> Plug(c', t') == Plug(c, t)
    ensures !fit && next == null ==> c'.Top? && None(InOrder(t'), F)
    ensures !fit && next != null ==>
              Standing(m, root.node, c', t', past, F, P) && next == t'.n && Ahead(c', t', past) < Ahead(c, t, true)
  {
    CellsHere(m, root.node, c, t);
    fit, next, past, c', t' := fits(CellOf(node)), null, false, c, t;
    if fit {
      return;
    }
    var right := node.right;
    if right != null && subtreeFits(CellOf(right)) {
      StepRight(m, root.node, c, t, F, P);
      next := right;
      c', t' := Up(Down(t, R), c), t.r;
    } else {
      Finish(m, root.node, c, t, F, P);
      next, c', t' := Climb(node, root, c, t, nodes, F, P);
      past := true;
    }
  }

  /** One round of the outer loop. */
  method Round(node: Vmar, past0: bool, root: RbRoot, fits: Cell -> bool, subtreeFits: Cell -> bool, ghost c: Ctx, ghost t: Tree,
               ghost m: Mem, ghost nodes: set<Vmar>, ghost F: set<Vmar>, ghost P: set<Vmar>)
      returns (fit: bool, next: Vmar?, past: bool, ghost c': Ctx, ghost t': Tree, ghost at: nat)
    requires m == Snap(nodes) && F == Yes(m, fits) && P == Yes(m, subtreeFits)
    requires Standing(m, root.node, c, t, past0, F, P) && node == t.n
    ensures fit ==> node in F && (var s := InOrder(Plug(c, t)); at < |s| && s[at] == node && None(s[..at], F))
    ensures !fit ==> Plug(c', t') == Plug(c, t)
    ensures !fit && next == null ==> c'.Top? && None(InOrder(t'), F)
    ensures !fit && next != null ==> Standing(m, root.node, c', t', past, F, P) && next == t'.n
    ensures !fit && next != null ==>
              Ahead(c', t', past) < Ahead(c, t, past0) || (Ahead(c', t', past) == Ahead(c, t, past0) && t' == t.l)
  {
    CellsHere(m, root.node, c, t);
    at := 0;
    var left := node.left;
    if !past0 && left != null && subtreeFits(CellOf(left)) {
      StepLeft(m, root.node, c, t, F, P);
      fit, next, past, c', t' := false, left, false, Up(Down(t, L), c), t.l;
    } else {
      PastLeft(m, root.node, c, t, past0, F, P);
      fit, next, past, c', t' := Visit(node, root, fits, subtreeFits, c, t, m, nodes, F, P);
      if fit {
        FoundFirst(m, root.node, c, t, F, P);
        at := |Before(c)| + |InOrder(t.l)|;
      }
    }
  }

  method FirstFit(root: RbRoot, fits: Cell -> bool, subtreeFits: Cell -> bool, ghost whole: Tree, ghost m: Mem,
                  ghost F: set<Vmar>, ghost P: set<Vmar>)
      returns (found: Vmar?, ghost at: nat)
    requires m == Snap(Nodes(whole)) && F == Yes(m, fits) && P == Yes(m, subtreeFits)
    requires HoldsAt(m, root.node, Top, whole) && SoundTest(whole, F, P)
    ensures found == null ==> None(InOrder(whole), F)
    ensures found != null ==> at < |InOrder(whole)| && found == InOrder(whole)[at] && found in F
    ensures found != null ==> None(InOrder(whole)[..at], F)
  {
    at := 0;
    var node := root.node;
    if node == null || !subtreeFits(CellOf(node)) {
      NoneInSubtree(whole, F, P);
      return null, 0;
    }
    ghost var c, t := Top, whole;
    var past := false;
    while true
      invariant m == Snap(Nodes(whole)) && Standing(m, root.node, c, t, past, F, P) && node == t.n && Plug(c, t) == whole
      decreases Ahead(c, t, past), t
    {
      var fit, next;
      ghost var c', t';
      fit, next, past, c', t', at := Round(node, past, root, fits, subtreeFits, c, t, m, Nodes(whole), F, P);
      if fit {
        return node, at;
      }
      if next == null {
        return null, 0;
      }
      node, c, t := next, c', t';
    }
  }

  lemma CellsHere(m: Mem, root: Vmar?, c: Ctx, t: Tree)
    requires HoldsAt(m, root, c, t) && t.Bin?
    ensures t.n in m && m[t.n].left == Root(t.l) && m[t.n].right == Root(t.r)
    ensures (t.l.Bin? ==> t.l.n in m) && (t.r.Bin? ==> t.r.n in m)
    ensures |InOrder(t)| == |InOrder(t.l)| + 1 + |InOrder(t.r)|
  {
    assert Rep(m, t.l, t.n) && Rep(m, t.r, t.n);
  }

  /** A left subtree that is absent or not promising holds nothing. */
  lemma PastLeft(m: Mem, root: Vmar?, c: Ctx, t: Tree, past: bool, fits: set<Vmar>, promising: set<Vmar>)
    requires Standing(m, root, c, t, past, fits, promising)
    requires past || t.l.Nil? || t.l.n !in promising
    ensures Standing(m, root, c, t, true, fits, promising)
  {
    if !past {
      NoneInSubtree(t.l, fits, promising);
    }
  }
}
