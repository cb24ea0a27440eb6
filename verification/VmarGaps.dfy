/** The arithmetic of a region's children (src/mem/vmar.c): gaps, conservation and first fit, over the
    sequence of children in address order. */
module VmarGaps {
  import opened VmarNode
  import opened RbLinked

  type Ranges = map<Vmar, Span>
  type Gaps = map<Vmar, nat>

  /** The page right after the predecessor of child i, or the start of the region. */
  ghost function GapStart(sp: Ranges, s: seq<Vmar>, i: int, lo: nat): nat
    requires 0 <= i <= |s| && forall v :: v in s ==> v in sp
  {
    if i == 0 then lo else assert s[i - 1] in s; sp[s[i - 1]].end
  }

  /** The stored gap of child i is the distance to its predecessor. */
  ghost predicate GapRight(g: Gaps, sp: Ranges, s: seq<Vmar>, i: int, lo: nat)
    requires 0 <= i < |s| && forall v :: v in s ==> v in sp
  {
    s[i] in g && s[i] in s && g[s[i]] == sp[s[i]].first - GapStart(sp, s, i, lo)
  }

  /** The children of the region [lo, hi): in order, disjoint, inside. */
  ghost predicate Inside(sp: Ranges, s: seq<Vmar>, lo: nat, hi: nat) {
    && lo <= hi && Sorted(sp, s)
    && forall v :: v in s ==> lo <= sp[v].first <= sp[v].end <= hi
  }

  ghost predicate Laid(g: Gaps, sp: Ranges, s: seq<Vmar>, lo: nat, hi: nat) {
    && Inside(sp, s, lo, hi)
    && forall i :: 0 <= i < |s| ==> GapRight(g, sp, s, i, lo)
  }

  // ----- conservation -----

  ghost function GapSum(g: Gaps, s: seq<Vmar>): int
    requires forall v :: v in s ==> v in g
  {
    if s == [] then 0 else GapSum(g, s[..|s| - 1]) + g[s[|s| - 1]]
  }

  ghost function PageSum(sp: Ranges, s: seq<Vmar>): int
    requires forall v :: v in s ==> v in sp
  {
    if s == [] then 0 else PageSum(sp, s[..|s| - 1]) + (sp[s[|s| - 1]].end - sp[s[|s| - 1]].first)
  }

  lemma {:induction false} GapsAndPages(g: Gaps, sp: Ranges, s: seq<Vmar>, k: nat, lo: nat, hi: nat)
    requires Laid(g, sp, s, lo, hi) && k <= |s|
    ensures (forall v :: v in s[..k] ==> v in g && v in sp)
    ensures GapSum(g, s[..k]) + PageSum(sp, s[..k]) == GapStart(sp, s, k, lo) - lo
  {
    forall v | v in s[..k]
      ensures v in g && v in sp
    {
      var i :| 0 <= i < k && s[i] == v;
      assert GapRight(g, sp, s, i, lo);
    }
    if k > 0 {
      GapsAndPages(g, sp, s, k - 1, lo, hi);
      assert s[..k][..k - 1] == s[..k - 1];
      assert GapRight(g, sp, s, k - 1, lo);
    }
  }

  /** Gaps, children and the tail gap fill the region exactly. */
  lemma Conservation(g: Gaps, sp: Ranges, s: seq<Vmar>, lo: nat, hi: nat)
    requires Laid(g, sp, s, lo, hi)
    ensures forall v :: v in s ==> v in g && v in sp
    ensures GapSum(g, s) + PageSum(sp, s) + (hi - GapStart(sp, s, |s|, lo)) == hi - lo
    ensures GapStart(sp, s, |s|, lo) <= hi
  {
    GapsAndPages(g, sp, s, |s|, lo, hi);
    assert s[..|s|] == s;
    assert s != [] ==> s[|s| - 1] in s;
  }

  // ----- first fit -----

  /** The range [p, p + k) lies in the region and touches no child. */
  ghost predicate Free(sp: Ranges, s: seq<Vmar>, lo: nat, hi: nat, p: nat, k: nat) {
    && lo <= p && p + k <= hi
    && forall v :: v in s ==> v in sp && (p + k <= sp[v].first || sp[v].end <= p)
  }

  /** A free range lies in a gap. */
  lemma {:induction false} FreeInGap(g: Gaps, sp: Ranges, s: seq<Vmar>, lo: nat, hi: nat, p: nat, k: nat, n: nat) returns (i: nat)
    requires Laid(g, sp, s, lo, hi) && Free(sp, s, lo, hi, p, k)
    requires n <= |s| && GapStart(sp, s, n, lo) <= p
    ensures i <= |s| && GapStart(sp, s, i, lo) <= p
    ensures i < |s| ==> s[i] in g && s[i] in sp && p + k <= sp[s[i]].first && g[s[i]] >= k
    decreases |s| - n
  {
    if n == |s| {
      return n;
    }
    assert GapRight(g, sp, s, n, lo);
    if p + k <= sp[s[n]].first {
      return n;
    }
    i := FreeInGap(g, sp, s, lo, hi, p, k, n + 1);
  }

  /** The start of a gap that is large enough is free. */
  lemma GapIsFree(g: Gaps, sp: Ranges, s: seq<Vmar>, lo: nat, hi: nat, k: nat, i: nat)
    requires Laid(g, sp, s, lo, hi) && i <= |s|
    requires if i < |s| then s[i] in g && g[s[i]] >= k else hi - GapStart(sp, s, i, lo) >= k
    ensures Free(sp, s, lo, hi, GapStart(sp, s, i, lo), k)
  {
    var p := GapStart(sp, s, i, lo);
    if i < |s| {
      assert GapRight(g, sp, s, i, lo);
      assert s[i] in s;
    }
    assert i > 0 ==> s[i - 1] in s;
    forall v | v in s
      ensures v in sp && (p + k <= sp[v].first || sp[v].end <= p)
    {
      var j :| 0 <= j < |s| && s[j] == v;
      if j < i {
        assert j < i - 1 ==> sp[s[j]].end <= sp[s[i - 1]].first;
      } else {
        assert j > i ==> sp[s[i]].end <= sp[s[j]].first;
        assert s[i] in s;
      }
    }
  }

  /** First fit over the gaps is the least free page of the region. */
  lemma FirstGapIsLeast(g: Gaps, sp: Ranges, s: seq<Vmar>, lo: nat, hi: nat, k: nat, i: nat, p: nat)
    requires Laid(g, sp, s, lo, hi) && i <= |s| && Free(sp, s, lo, hi, p, k)
    requires forall j :: 0 <= j < i ==> s[j] in g && g[s[j]] < k
    ensures GapStart(sp, s, i, lo) <= p
  {
    var j := FreeInGap(g, sp, s, lo, hi, p, k, 0);
    GapStartMonotone(sp, s, lo, hi, i, j);
  }

  lemma GapStartMonotone(sp: Ranges, s: seq<Vmar>, lo: nat, hi: nat, i: nat, j: nat)
    requires Inside(sp, s, lo, hi) && i <= j <= |s|
    ensures GapStart(sp, s, i, lo) <= GapStart(sp, s, j, lo)
  {
    assert j > 0 ==> s[j - 1] in s;
    assert i > 0 ==> s[i - 1] in s;
    assert 0 < i < j ==> sp[s[i - 1]].end <= sp[s[j - 1]].first;
  }

  /** A region that has children is right at no other place than its own: its first gap is measured from there. */
  lemma MovedLaid(g: Gaps, sp: Ranges, s: seq<Vmar>, lo: nat, hi: nat, lo': nat, hi': nat)
    requires Laid(g, sp, s, lo, hi) && s != []
    ensures Laid(g, sp, s, lo', hi') <==> lo' == lo && GapStart(sp, s, |s|, lo) <= hi'
  {
    assert GapRight(g, sp, s, 0, lo) && s[0] in s && s[|s| - 1] in s;
    assert GapRight(g, sp, s, 0, lo') ==> lo' == lo;
    if lo' == lo && GapStart(sp, s, |s|, lo) <= hi' {
      forall v | v in s
        ensures sp[v].end <= hi'
      {
        var i :| 0 <= i < |s| && s[i] == v;
        GapStartMonotone(sp, s, lo, hi, i + 1, |s|);
      }
    }
  }

  // ----- adding and removing a child -----

  /** g' has the gaps of g, except where stated. */
  ghost predicate SameGaps(g: Gaps, g': Gaps, except: set<Vmar>) {
    forall v :: v in g && v !in except ==> v in g' && g'[v] == g[v]
  }

  /** A child between a and b leaves all gaps right once its own and its successor's are. */
  lemma AddLaid(g: Gaps, g': Gaps, sp: Ranges, sp': Ranges, a: seq<Vmar>, child: Vmar, b: seq<Vmar>, lo: nat, hi: nat)
    requires Laid(g, sp, a + b, lo, hi) && Inside(sp', a + [child] + b, lo, hi) && child !in a + b
    requires forall v :: v in sp ==> v in sp' && sp'[v] == sp[v]
    requires Distinct(a + b) && SameGaps(g, g', if b == [] then {child} else {child, b[0]})
    requires var s := a + [child] + b; GapRight(g', sp', s, |a|, lo) && (b != [] ==> GapRight(g', sp', s, |a| + 1, lo))
    ensures Laid(g', sp', a + [child] + b, lo, hi)
  {
    forall i | 0 <= i < |a + [child] + b|
      ensures GapRight(g', sp', a + [child] + b, i, lo)
    {
      if i < |a| {
        GapBefore(g, g', sp, sp', a, child, b, lo, hi, i);
      } else if i > |a| + 1 {
        GapBehind(g, g', sp, sp', a, child, b, lo, hi, i);
      }
    }
  }

  /** The gaps in front of a new child. */
  lemma GapBefore(g: Gaps, g': Gaps, sp: Ranges, sp': Ranges, a: seq<Vmar>, child: Vmar, b: seq<Vmar>, lo: nat, hi: nat, i: nat)
    requires Laid(g, sp, a + b, lo, hi) && child !in a + b && i < |a|
    requires forall v :: v in a + [child] + b ==> v in sp'
    requires forall v :: v in sp ==> v in sp' && sp'[v] == sp[v]
    requires Distinct(a + b) && SameGaps(g, g', if b == [] then {child} else {child, b[0]})
    ensures GapRight(g', sp', a + [child] + b, i, lo)
  {
    var s, s' := a + b, a + [child] + b;
    assert s'[i] == s[i] && s[i] in s && GapRight(g, sp, s, i, lo);
    assert i > 0 ==> s'[i - 1] == s[i - 1] && s[i - 1] in s;
    assert b != [] ==> s[|a|] == b[0];
  }

  /** The gaps behind the successor of a new child. */
  lemma GapBehind(g: Gaps, g': Gaps, sp: Ranges, sp': Ranges, a: seq<Vmar>, child: Vmar, b: seq<Vmar>, lo: nat, hi: nat, i: nat)
    requires Laid(g, sp, a + b, lo, hi) && child !in a + b && |a| + 1 < i < |a| + 1 + |b|
    requires forall v :: v in a + [child] + b ==> v in sp'
    requires forall v :: v in sp ==> v in sp' && sp'[v] == sp[v]
    requires Distinct(a + b) && SameGaps(g, g', {child, b[0]})
    ensures GapRight(g', sp', a + [child] + b, i, lo)
  {
    var s, s' := a + b, a + [child] + b;
    assert s'[i] == s[i - 1] && s[i - 1] in s && GapRight(g, sp, s, i - 1, lo);
    assert s'[i - 1] == s[i - 2] && s[i - 2] in s;
    assert s[|a|] == b[0];
  }

  lemma DropInside(sp: Ranges, sp': Ranges, a: seq<Vmar>, child: Vmar, b: seq<Vmar>, lo: nat, hi: nat)
    requires Inside(sp, a + [child] + b, lo, hi)
    requires forall v :: v in a + b ==> v in sp' && v in sp && sp'[v] == sp[v]
    ensures Inside(sp', a + b, lo, hi)
  {
    var s, s' := a + [child] + b, a + b;
    forall v | v in s'
      ensures v in s
    {
    }
    forall i, j | 0 <= i < j < |s'|
      ensures sp'[s'[i]].end <= sp'[s'[j]].first
    {
      assert s'[i] in s' && s'[j] in s';
      assert s'[i] == s[if i < |a| then i else i + 1] && s'[j] == s[if j < |a| then j else j + 1];
    }
  }

  /** Without the child between a and b, only the gap of its successor changes. */
  lemma DropLaid(g: Gaps, g': Gaps, sp: Ranges, sp': Ranges, a: seq<Vmar>, child: Vmar, b: seq<Vmar>, lo: nat, hi: nat)
    requires Laid(g, sp, a + [child] + b, lo, hi) && Distinct(a + [child] + b)
    requires forall v :: v in a + b ==> v in sp && v in sp' && v in g' && sp'[v] == sp[v]
    requires SameGaps(g, g', if b == [] then {child} else {child, b[0]})
    requires b != [] ==> GapRight(g', sp', a + b, |a|, lo)
    ensures Laid(g', sp', a + b, lo, hi)
  {
    var s, s' := a + [child] + b, a + b;
    DropInside(sp, sp', a, child, b, lo, hi);
    assert s[|a|] == child;
    forall i | 0 <= i < |s'|
      ensures GapRight(g', sp', s', i, lo)
    {
      assert s'[i] in s';
      if i < |a| {
        assert s'[i] == s[i] && GapRight(g, sp, s, i, lo);
        assert i > 0 ==> s'[i - 1] == s[i - 1] && s'[i - 1] in s';
        assert b != [] ==> s[|a| + 1] == b[0];
      } else if i > |a| {
        assert s'[i] == s[i + 1] && GapRight(g, sp, s, i + 1, lo);
        assert s'[i - 1] == s[i] && s'[i - 1] in s';
        assert s[|a| + 1] == b[0];
      }
    }
  }
}
