/** The linked, augmented tree as a whole, and the ordered links: `rb_link_linked_node`,
    `__rb_unlink_linked_node` (src/lib/rbtree/rbtree.h). */
module RbLinked {
  import opened VmarNode
  import opened RbTree
  import opened RbInsert

  // ----- the ordered links -----

  ghost function At(s: seq<Vmar>, i: int): Vmar? {
    if 0 <= i < |s| then s[i] else null
  }

  datatype Link = Link(prev: Vmar?, next: Vmar?)

  ghost predicate AreLinks(m: map<Vmar, Link>, nodes: set<Vmar>)
    reads nodes`prev, nodes`next
  {
    m.Keys == nodes && forall v :: v in m ==> m[v] == Link(v.prev, v.next)
  }

  lemma LinksExist(nodes: set<Vmar>)
    ensures exists m: map<Vmar, Link> :: AreLinks(m, nodes)
  {
    assert AreLinks(map v | v in nodes :: Link(v.prev, v.next), nodes);
  }

  ghost function Links(nodes: set<Vmar>): (m: map<Vmar, Link>)
    reads nodes`prev, nodes`next
    ensures m.Keys == nodes && forall v :: v in m ==> m[v] == Link(v.prev, v.next)
  {
    LinksExist(nodes);
    var m: map<Vmar, Link> :| AreLinks(m, nodes);
    m
  }

  /** prev and next spell out the sequence s. */
  ghost predicate Spells(m: map<Vmar, Link>, s: seq<Vmar>) {
    forall i :: 0 <= i < |s| ==> s[i] in m && m[s[i]] == Link(At(s, i - 1), At(s, i + 1))
  }

  ghost predicate Distinct(s: seq<Vmar>) {
    forall i, j :: 0 <= i < j < |s| ==> s[i] != s[j]
  }

  /** The page range of a node: its first page and the page after its last. */
  datatype Span = Span(first: nat, end: nat)

  ghost predicate AreSpans(m: map<Vmar, Span>, nodes: set<Vmar>)
    reads nodes`first, nodes`pages
  {
    m.Keys == nodes && forall v :: v in m ==> m[v] == Span(v.first, v.End())
  }

  lemma SpansExist(nodes: set<Vmar>)
    ensures exists m: map<Vmar, Span> :: AreSpans(m, nodes)
  {
    assert AreSpans(map v | v in nodes :: Span(v.first, v.End()), nodes);
  }

  ghost function Spans(nodes: set<Vmar>): (m: map<Vmar, Span>)
    reads nodes`first, nodes`pages
    ensures m.Keys == nodes && forall v :: v in m ==> m[v] == Span(v.first, v.End())
  {
    SpansExist(nodes);
    var m: map<Vmar, Span> :| AreSpans(m, nodes);
    m
  }

  /** Address order: every range ends before the next one starts. */
  ghost predicate Sorted(m: map<Vmar, Span>, s: seq<Vmar>) {
    && (forall v :: v in s ==> v in m)
    && forall i, j :: 0 <= i < j < |s| ==> m[s[i]].end <= m[s[j]].first
  }

  lemma {:induction false} DisjDistinct(t: Tree)
    requires Disj(t)
    ensures Distinct(InOrder(t))
  {
    if t.Bin? {
      DisjDistinct(t.l);
      DisjDistinct(t.r);
      NodesInOrder(t.l);
      NodesInOrder(t.r);
      var a, b := InOrder(t.l), InOrder(t.r);
      var s := InOrder(t);
      forall i, j | 0 <= i < j < |s|
        ensures s[i] != s[j]
      {
        if j < |a| {
          assert s[i] == a[i] && s[j] == a[j];
        } else if i > |a| {
          assert s[i] == b[i - |a| - 1] && s[j] == b[j - |a| - 1];
        } else {
          assert s[|a|] == t.n;
          assert i < |a| ==> s[i] == a[i] && a[i] in InOrder(t.l) && a[i] in Nodes(t.l);
          assert j > |a| ==> s[j] == b[j - |a| - 1] && b[j - |a| - 1] in InOrder(t.r) && s[j] in Nodes(t.r);
        }
      }
    }
  }

  /** Everything a linked tree keeps. */
  ghost predicate Parts(root: RbRoot, t: Tree)
    reads root, Nodes(t)`left, Nodes(t)`right, Nodes(t)`rbParent, Nodes(t)`black, Nodes(t)`gap, Nodes(t)`maxGap
    reads Nodes(t)`prev, Nodes(t)`next, Nodes(t)`first, Nodes(t)`pages
  {
    && HoldsAt(Snap(Nodes(t)), root.node, Top, t) && Sound(t)
    && Spells(Links(Nodes(t)), InOrder(t)) && root.leftmost == At(InOrder(t), 0)
    && Sorted(Spans(Nodes(t)), InOrder(t))
  }

  ghost predicate PartsAt(k: int, root: RbRoot, t: Tree)
    reads root, Nodes(t)`left, Nodes(t)`right, Nodes(t)`rbParent, Nodes(t)`black, Nodes(t)`gap, Nodes(t)`maxGap
    reads Nodes(t)`prev, Nodes(t)`next, Nodes(t)`first, Nodes(t)`pages
  {
    k == 0 ==> Parts(root, t)
  }

  /** A valid linked tree.  Stated under a quantifier so that proofs which only pass it on do not
      look inside: Open and Fold go between Valid and Parts. */
  ghost predicate Valid(root: RbRoot, t: Tree)
    reads root, Nodes(t)`left, Nodes(t)`right, Nodes(t)`rbParent, Nodes(t)`black, Nodes(t)`gap, Nodes(t)`maxGap
    reads Nodes(t)`prev, Nodes(t)`next, Nodes(t)`first, Nodes(t)`pages
  {
    forall k :: PartsAt(k, root, t)
  }

  lemma Open(root: RbRoot, t: Tree)
    requires Valid(root, t)
    ensures Parts(root, t)
  {
    assert PartsAt(0, root, t);
  }

  lemma Fold(root: RbRoot, t: Tree)
    requires Parts(root, t)
    ensures Valid(root, t)
  {
  }

  method SetPrev(v: Vmar, x: Vmar?, ghost nodes: set<Vmar>)
    requires v in nodes
    modifies v`prev
    ensures Links(nodes) == old(Links(nodes))[v := old(Links(nodes))[v].(prev := x)]
    ensures Snap(nodes) == old(Snap(nodes))
  {
    v.prev := x;
  }

  method SetNext(v: Vmar, x: Vmar?, ghost nodes: set<Vmar>)
    requires v in nodes
    modifies v`next
    ensures Links(nodes) == old(Links(nodes))[v := old(Links(nodes))[v].(next := x)]
    ensures Snap(nodes) == old(Snap(nodes))
  {
    v.next := x;
  }

  ghost function Last(s: seq<Vmar>): Vmar? {
    At(s, |s| - 1)
  }

  /** The links with node put between a and b. */
  ghost function Hooked(m: map<Vmar, Link>, a: seq<Vmar>, node: Vmar, b: seq<Vmar>): map<Vmar, Link>
    requires Opt(Last(a)) + Opt(At(b, 0)) <= m.Keys
  {
    var m1 := m[node := Link(Last(a), At(b, 0))];
    var m2 := if a == [] then m1 else m1[Last(a) := m1[Last(a)].(next := node)];
    if b == [] then m2 else m2[b[0] := m2[b[0]].(prev := node)]
  }

  lemma HookedSpells(m: map<Vmar, Link>, a: seq<Vmar>, node: Vmar, b: seq<Vmar>)
    requires Spells(m, a + b) && Distinct(a + b) && node !in a + b
    ensures Opt(Last(a)) + Opt(At(b, 0)) <= m.Keys
    ensures Spells(Hooked(m, a, node, b), a + [node] + b)
  {
    HookedDomain(m, a, b);
    var s' := a + [node] + b;
    forall i | 0 <= i < |s'|
      ensures s'[i] in Hooked(m, a, node, b) && Hooked(m, a, node, b)[s'[i]] == Link(At(s', i - 1), At(s', i + 1))
    {
      HookedEntry(m, a, node, b, i);
    }
  }

  lemma HookedEntry(m: map<Vmar, Link>, a: seq<Vmar>, node: Vmar, b: seq<Vmar>, i: nat)
    requires Spells(m, a + b) && Distinct(a + b) && node !in a + b && i < |a + [node] + b| && Opt(Last(a)) + Opt(At(b, 0)) <= m.Keys
    ensures var s', m' := a + [node] + b, Hooked(m, a, node, b);
            s'[i] in m' && m'[s'[i]] == Link(At(s', i - 1), At(s', i + 1))
  {
    if i != |a| {
      var k := if i < |a| then i else i - 1;
      SpellsAt(m, a + b, k);
      HookedAt(m, a, node, b, k);
    } else {
      HookedNode(m, a, node, b);
    }
  }

  lemma SpellsAt(m: map<Vmar, Link>, s: seq<Vmar>, k: nat)
    requires Spells(m, s) && k < |s|
    ensures s[k] in m && m[s[k]] == Link(At(s, k - 1), At(s, k + 1))
  {
  }

  /** The entry of the old element k. */
  lemma HookedAt(m: map<Vmar, Link>, a: seq<Vmar>, node: Vmar, b: seq<Vmar>, k: nat)
    requires Distinct(a + b) && node !in a + b && k < |a + b| && Opt(Last(a)) + Opt(At(b, 0)) <= m.Keys
    requires var s := a + b; s[k] in m && m[s[k]] == Link(At(s, k - 1), At(s, k + 1))
    ensures var s', i, m' := a + [node] + b, if k < |a| then k else k + 1, Hooked(m, a, node, b);
            s'[i] == (a + b)[k] && s'[i] in m' && m'[s'[i]] == Link(At(s', i - 1), At(s', i + 1))
  {
    var s := a + b;
    assert a != [] ==> Last(a) == s[|a| - 1];
    assert b != [] ==> b[0] == s[|a|];
    assert s[k] != node;
  }

  lemma HookedNode(m: map<Vmar, Link>, a: seq<Vmar>, node: Vmar, b: seq<Vmar>)
    requires node !in a + b && Opt(Last(a)) + Opt(At(b, 0)) <= m.Keys
    ensures var s', m' := a + [node] + b, Hooked(m, a, node, b);
            s'[|a|] == node && node in m' && m'[node] == Link(At(s', |a| - 1), At(s', |a| + 1))
  {
    assert a != [] ==> Last(a) in a + b;
    assert b != [] ==> b[0] in a + b;
  }

  /** The links with the node between a and b taken out. */
  ghost function Unhook(m: map<Vmar, Link>, a: seq<Vmar>, b: seq<Vmar>): map<Vmar, Link>
    requires Opt(Last(a)) + Opt(At(b, 0)) <= m.Keys
  {
    var m1 := if a == [] then m else m[Last(a) := m[Last(a)].(next := At(b, 0))];
    if b == [] then m1 else m1[b[0] := m1[b[0]].(prev := Last(a))]
  }

  lemma UnhookSpells(m: map<Vmar, Link>, a: seq<Vmar>, node: Vmar, b: seq<Vmar>)
    requires Spells(m, a + [node] + b) && Distinct(a + [node] + b)
    ensures Opt(Last(a)) + Opt(At(b, 0)) <= m.Keys && node in m && m[node] == Link(Last(a), At(b, 0))
    ensures Spells(Unhook(m, a, b), a + b)
  {
    var s, s' := a + b, a + [node] + b;
    assert a != [] ==> Last(a) == s'[|a| - 1];
    assert b != [] ==> b[0] == s'[|a| + 1];
    assert s'[|a|] == node;
    var m' := Unhook(m, a, b);
    forall i | 0 <= i < |s|
      ensures s[i] in m' && m'[s[i]] == Link(At(s, i - 1), At(s, i + 1))
    {
      if i < |a| {
        assert s'[i] == s[i];
        assert At(s', i - 1) == At(s, i - 1);
        if i < |a| - 1 {
          assert At(s', i + 1) == At(s, i + 1);
        }
      } else {
        assert s'[i + 1] == s[i];
        assert At(s', i + 2) == At(s, i + 1);
        if i > |a| {
          assert At(s', i) == At(s, i - 1);
        }
      }
    }
  }

  /** The stores of rb_link_linked_node for a left child, in order; and for a right child. */
  ghost function LinkedLeft(m: map<Vmar, Link>, node: Vmar, parent: Vmar): map<Vmar, Link>
    requires node in m && parent in m && Opt(m[parent].prev) <= m.Keys
  {
    var m1 := m[node := m[node].(prev := m[parent].prev)];
    var m2 := m1[node := m1[node].(next := parent)];
    var m3 := m2[parent := m2[parent].(prev := node)];
    var p := m[parent].prev;
    if p == null then m3 else m3[p := m3[p].(next := node)]
  }

  ghost function LinkedRight(m: map<Vmar, Link>, node: Vmar, parent: Vmar): map<Vmar, Link>
    requires node in m && parent in m && Opt(m[parent].next) <= m.Keys
  {
    var m1 := m[node := m[node].(next := m[parent].next)];
    var m2 := m1[node := m1[node].(prev := parent)];
    var m3 := m2[parent := m2[parent].(next := node)];
    var n := m[parent].next;
    if n == null then m3 else m3[n := m3[n].(prev := node)]
  }

  lemma LinkedIsHooked(m: map<Vmar, Link>, a: seq<Vmar>, node: Vmar, b: seq<Vmar>)
    requires Spells(m, a + b) && Distinct(a + b) && node !in a + b && node in m
    requires Opt(Last(a)) + Opt(At(b, 0)) <= m.Keys
    ensures b != [] ==> m[b[0]].prev == Last(a) && LinkedLeft(m, node, b[0]) == Hooked(m, a, node, b)
    ensures a != [] ==> m[Last(a)].next == At(b, 0) && LinkedRight(m, node, Last(a)) == Hooked(m, a, node, b)
  {
    var s := a + b;
    assert a != [] ==> Last(a) == s[|a| - 1];
    assert b != [] ==> b[0] == s[|a|];
  }

  method LinkLeft(node: Vmar, parent: Vmar, ghost nodes: set<Vmar>)
    requires {node, parent} <= nodes && node != parent && Opt(Links(nodes)[parent].prev) <= nodes
    modifies nodes`prev, nodes`next
    ensures Links(nodes) == LinkedLeft(old(Links(nodes)), node, parent) && Snap(nodes) == old(Snap(nodes))
  {
    var p := parent.prev;
    assert p == Links(nodes)[parent].prev;
    SetPrev(node, p, nodes);
    SetNext(node, parent, nodes);
    SetPrev(parent, node, nodes);
    if p != null {
      SetNext(p, node, nodes);
    }
  }

  method LinkRight(node: Vmar, parent: Vmar, ghost nodes: set<Vmar>)
    requires {node, parent} <= nodes && node != parent && Opt(Links(nodes)[parent].next) <= nodes
    modifies nodes`prev, nodes`next
    ensures Links(nodes) == LinkedRight(old(Links(nodes)), node, parent) && Snap(nodes) == old(Snap(nodes))
  {
    var n := parent.next;
    assert n == Links(nodes)[parent].next;
    SetNext(node, n, nodes);
    SetPrev(node, parent, nodes);
    SetNext(parent, node, nodes);
    if n != null {
      SetPrev(n, node, nodes);
    }
  }

  /** rb_link_linked_node, and the leftmost update of its caller: the hole is between a and b. */
  method LinkOrdered(node: Vmar, parent: Vmar?, side: Side, root: RbRoot, ghost a: seq<Vmar>, ghost b: seq<Vmar>, ghost nodes: set<Vmar>)
    requires Spells(Links(nodes), a + b) && root.leftmost == At(a + b, 0) && Distinct(a + b) && node in nodes && node !in a + b
    requires parent == null ==> a == b == []
    requires parent != null && side.L? ==> b != [] && b[0] == parent
    requires parent != null && side.R? ==> a != [] && Last(a) == parent
    modifies nodes`prev, nodes`next, root`leftmost
    ensures Spells(Links(nodes), a + [node] + b) && root.leftmost == At(a + [node] + b, 0)
    ensures Snap(nodes) == old(Snap(nodes))
  {
    ghost var m := Links(nodes);
    HookedDomain(m, a, b);
    LinkedIsHooked(m, a, node, b);
    LinkStores(node, parent, side, a, b, nodes);
    assert Spells(Links(nodes), a + [node] + b) by { HookedSpells(m, a, node, b); }
    assert Links(nodes)[node] == Link(Last(a), At(b, 0)) by { assert (a + [node] + b)[|a|] == node; }
    if node.prev == null {
      SetLeftmost(node, root, nodes);
    }
  }

  method LinkStores(node: Vmar, parent: Vmar?, side: Side, ghost a: seq<Vmar>, ghost b: seq<Vmar>, ghost nodes: set<Vmar>)
    requires node in nodes && node !in a + b && Opt(Last(a)) + Opt(At(b, 0)) <= nodes
    requires parent == null ==> a == b == []
    requires parent != null && side.L? ==> b != [] && b[0] == parent
    requires parent != null && side.R? ==> a != [] && Last(a) == parent
    requires var m := Links(nodes); b != [] ==> m[b[0]].prev == Last(a) && LinkedLeft(m, node, b[0]) == Hooked(m, a, node, b)
    requires var m := Links(nodes); a != [] ==> m[Last(a)].next == At(b, 0) && LinkedRight(m, node, Last(a)) == Hooked(m, a, node, b)
    modifies nodes`prev, nodes`next
    ensures Links(nodes) == Hooked(old(Links(nodes)), a, node, b)
    ensures Snap(nodes) == old(Snap(nodes))
  {
    if parent == null {
      SetPrev(node, null, nodes);
      SetNext(node, null, nodes);
    } else if side.L? {
      LinkLeft(node, parent, nodes);
    } else {
      LinkRight(node, parent, nodes);
    }
  }

  lemma HookedDomain(m: map<Vmar, Link>, a: seq<Vmar>, b: seq<Vmar>)
    requires Spells(m, a + b)
    ensures Opt(Last(a)) + Opt(At(b, 0)) <= m.Keys
  {
    var s := a + b;
    assert a != [] ==> Last(a) == s[|a| - 1];
    assert b != [] ==> b[0] == s[|a|];
  }

  method SetLeftmost(node: Vmar?, root: RbRoot, ghost nodes: set<Vmar>)
    modifies root`leftmost
    ensures root.leftmost == node
    ensures Links(nodes) == old(Links(nodes)) && Snap(nodes) == old(Snap(nodes))
  {
    root.leftmost := node;
  }

  ghost predicate SpelledAt(k: int, l: map<Vmar, Link>, leftmost: Vmar?, s: seq<Vmar>) {
    k == 0 ==> Spells(l, s) && leftmost == At(s, 0)
  }

  /** The links and the leftmost spell s; closed to proofs that only pass it on. */
  ghost predicate Spelled(l: map<Vmar, Link>, leftmost: Vmar?, s: seq<Vmar>) {
    forall k :: SpelledAt(k, l, leftmost, s)
  }

  lemma OpenSpelled(l: map<Vmar, Link>, leftmost: Vmar?, s: seq<Vmar>)
    requires Spelled(l, leftmost, s)
    ensures Spells(l, s) && leftmost == At(s, 0)
  {
    assert SpelledAt(0, l, leftmost, s);
  }

  lemma FoldSpelled(l: map<Vmar, Link>, leftmost: Vmar?, s: seq<Vmar>)
    requires Spells(l, s) && leftmost == At(s, 0)
    ensures Spelled(l, leftmost, s)
  {
    forall k ensures SpelledAt(k, l, leftmost, s) {
    }
  }

  /** What the node to unlink says about its neighbours. */
  lemma Neighbours(m: map<Vmar, Link>, leftmost: Vmar?, a: seq<Vmar>, node: Vmar, b: seq<Vmar>)
    requires Spelled(m, leftmost, a + [node] + b) && Distinct(a + [node] + b)
    ensures Opt(Last(a)) + Opt(At(b, 0)) <= m.Keys && node in m && m[node] == Link(Last(a), At(b, 0))
    ensures Spelled(Unhook(m, a, b), if Last(a) == null then At(b, 0) else leftmost, a + b)
  {
    OpenSpelled(m, leftmost, a + [node] + b);
    UnhookSpells(m, a, node, b);
    FoldSpelled(Unhook(m, a, b), if Last(a) == null then At(b, 0) else leftmost, a + b);
  }

  /** __rb_unlink_linked_node */
  method UnlinkOrdered(node: Vmar, root: RbRoot, ghost a: seq<Vmar>, ghost b: seq<Vmar>, ghost nodes: set<Vmar>)
    requires Spelled(Links(nodes), root.leftmost, a + [node] + b) && Distinct(a + [node] + b)
    modifies nodes`prev, nodes`next, root`leftmost
    ensures Spelled(Links(nodes), root.leftmost, a + b)
    ensures Snap(nodes) == old(Snap(nodes))
  {
    ghost var m := Links(nodes);
    Neighbours(m, root.leftmost, a, node, b);
    var p, n := node.prev, node.next;
    assert m[node] == Link(p, n);
    UnlinkStores(p, n, nodes);
    if p == null {
      SetLeftmost(n, root, nodes);
    }
  }

  method UnlinkStores(p: Vmar?, n: Vmar?, ghost nodes: set<Vmar>)
    requires Opt(p) + Opt(n) <= nodes
    modifies Opt(p)`next, Opt(n)`prev
    ensures var m := old(Links(nodes));
            var m1 := if p == null then m else m[p := m[p].(next := n)];
            Links(nodes) == if n == null then m1 else m1[n := m1[n].(prev := p)]
    ensures Snap(nodes) == old(Snap(nodes))
  {
    if p != null {
      SetNext(p, n, nodes);
    }
    if n != null {
      SetPrev(n, p, nodes);
    }
  }
}
