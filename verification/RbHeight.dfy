/** The logarithmic height of a red-black tree (src/lib/rbtree/rbtree.c, the comment at its head). */
module RbHeight {
  import opened VmarNode
  import opened RbTree

  /** The number of nodes on the longest path to a leaf. */
  ghost function Depth(t: Tree): nat {
    if t.Nil? then 0 else 1 + Max(Depth(t.l), Depth(t.r))
  }

  ghost function Power2(h: nat): nat {
    if h == 0 then 1 else 2 * Power2(h - 1)
  }

  lemma {:induction false} LongestPath(t: Tree, h: int)
    requires NoRedRed(t) && BlackHeight(t, h)
    ensures h >= 0 && Depth(t) <= 2 * h + if IsBlack(t) then 0 else 1
  {
    if t.Bin? {
      LongestPath(t.l, h - B(t.black));
      LongestPath(t.r, h - B(t.black));
    }
  }

  lemma {:induction false} Bushy(t: Tree, h: int)
    requires BlackHeight(t, h)
    ensures h >= 0 && Power2(h) <= |InOrder(t)| + 1
  {
    if t.Bin? {
      Bushy(t.l, h - B(t.black));
      Bushy(t.r, h - B(t.black));
    }
  }

  lemma {:induction false} Square(h: nat)
    ensures Power2(2 * h) == Power2(h) * Power2(h)
  {
    if h > 0 {
      Square(h - 1);
      assert Power2(2 * h) == 2 * Power2(2 * h - 1) && Power2(2 * h - 1) == 2 * Power2(2 * h - 2);
    }
  }

  lemma {:induction false} PowerMonotone(a: nat, b: nat)
    requires a <= b
    ensures Power2(a) <= Power2(b)
  {
    if a < b {
      PowerMonotone(a, b - 1);
    }
  }

  /** With n nodes no path is longer than 2 log2(n + 1): that bounds every search, and every climb of the
      insert, erase and propagate loops. */
  lemma LogarithmicDepth(t: Tree)
    requires RedBlack(t)
    ensures var n := |InOrder(t)|; Depth(t) <= 2 * Height(t) && Power2(Depth(t)) <= (n + 1) * (n + 1)
  {
    var h, n := Height(t), |InOrder(t)|;
    LongestPath(t, h);
    Bushy(t, h);
    PowerMonotone(Depth(t), 2 * h);
    Square(h);
    Product(Power2(h), n + 1);
  }

  lemma Product(a: nat, b: nat)
    requires a <= b
    ensures a * a <= b * b
  {
    assert b * b == a * a + (b - a) * (a + b);
  }
}
