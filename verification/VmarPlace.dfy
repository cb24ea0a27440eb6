/** Choosing a place for a new child (src/mem/vmar.c): `vmar_find_gap`, `vmar_tail_gap`,
    `vmar_check_in_parent`, `vmar_find_place`. */
module VmarPlace {
  import opened VmarNode
  import opened RbTree
  import opened RbLinked
  import opened RbFirstFit
  import opened RbNeighbours
  import opened VmarGaps
  import opened VmarRegion

  // ----- the augmented maximum is a sound index -----

  lemma {:induction false} GapBounded(m: Mem, t: Tree, p: Vmar?, v: Vmar)
    requires Rep(m, t, p) && Aug(t) && v in Nodes(t)
    ensures v in m && m[v].gap <= Mx(t)
  {
    if v in Nodes(t.l) {
      GapBounded(m, t.l, t.n, v);
    } else if v in Nodes(t.r) {
      GapBounded(m, t.r, t.n, v);
    }
  }

  /** vmar_gap_fits */
  function GapFits(k: nat): Cell -> bool {
    (c: Cell) => c.gap >= k
  }

  /** vmar_max_gap_fits */
  function MaxGapFits(k: nat): Cell -> bool {
    (c: Cell) => c.maxGap >= k
  }

  lemma {:induction false} MaximumIsSound(m: Mem, t: Tree, p: Vmar?, k: nat)
    requires Rep(m, t, p) && Aug(t)
    ensures SoundTest(t, Yes(m, GapFits(k)), Yes(m, MaxGapFits(k)))
  {
    if t.Bin? {
      var fits := Yes(m, GapFits(k));
      if Nodes(t) * fits != {} {
        var v :| v in Nodes(t) * fits;
        GapBounded(m, t, p, v);
      }
      MaximumIsSound(m, t.l, t.n, k);
      MaximumIsSound(m, t.r, t.n, k);
    }
  }

  lemma TailStart(parent: Vmar, t: Tree, y: Layout)
    requires RegionOk(parent, t) && y == LayoutOf(parent, t)
    ensures y.Ok() && GapStart(y.sp, y.s, |y.s|, y.lo) <= y.hi
    ensures var last := Last(InOrder(t));
            GapStart(y.sp, y.s, |y.s|, y.lo) == if last != null then last.End() else parent.first
  {
    Conservation(GapOf(Nodes(t)), y.sp, y.s, y.lo, y.hi);
    if y.s != [] {
      var v := y.s[|y.s| - 1];
      assert v in y.s && y.sp[v] == Span(v.first, v.End());
    }
  }

  /** vmar_tail_gap: the first page after the last child. */
  method TailGap(parent: Vmar, ghost t: Tree, ghost y: Layout) returns (size: nat, page: nat)
    requires RegionOk(parent, t) && y == LayoutOf(parent, t)
    ensures y.Ok() && page == GapStart(y.sp, y.s, |y.s|, y.lo) && page + size == y.hi
  {
    TailStart(parent, t, y);
    var last := LastNode(parent.children, t);
    page := if last != null then last.End() else parent.first;
    size := parent.End() - page;
  }

  /** The lowest child whose gap is large enough. */
  lemma FirstFitPlace(y: Layout, g: Gaps, k: nat, at: nat, page: nat)
    requires Laid(g, y.sp, y.s, y.lo, y.hi) && at < |y.s|
    requires y.s[at] in g && y.s[at] in y.sp && g[y.s[at]] >= k && page == y.sp[y.s[at]].first - g[y.s[at]]
    requires forall j :: 0 <= j < at ==> y.s[j] in g && g[y.s[j]] < k
    ensures Free(y.sp, y.s, y.lo, y.hi, page, k)
    ensures forall p: nat :: Free(y.sp, y.s, y.lo, y.hi, p, k) ==> page <= p
  {
    assert GapRight(g, y.sp, y.s, at, y.lo);
    GapIsFree(g, y.sp, y.s, y.lo, y.hi, k, at);
    forall p: nat | Free(y.sp, y.s, y.lo, y.hi, p, k)
      ensures page <= p
    {
      FirstGapIsLeast(g, y.sp, y.s, y.lo, y.hi, k, at, p);
    }
  }

  /** No child has a gap that is large enough. */
  lemma TailPlace(y: Layout, g: Gaps, k: nat)
    requires Laid(g, y.sp, y.s, y.lo, y.hi)
    requires forall j :: 0 <= j < |y.s| ==> y.s[j] in g && g[y.s[j]] < k
    ensures var page := GapStart(y.sp, y.s, |y.s|, y.lo);
            && (forall p: nat :: Free(y.sp, y.s, y.lo, y.hi, p, k) ==> page <= p && page + k <= y.hi)
            && (page + k <= y.hi ==> Free(y.sp, y.s, y.lo, y.hi, page, k))
  {
    var page := GapStart(y.sp, y.s, |y.s|, y.lo);
    forall p: nat | Free(y.sp, y.s, y.lo, y.hi, p, k)
      ensures page <= p && page + k <= y.hi
    {
      FirstGapIsLeast(g, y.sp, y.s, y.lo, y.hi, k, |y.s|, p);
    }
    if page + k <= y.hi {
      GapIsFree(g, y.sp, y.s, y.lo, y.hi, k, |y.s|);
    }
  }

  /** Where the place is, if there is one: the least page at which k pages are free. */
  ghost predicate Least(y: Layout, k: nat, ok: bool, page: nat) {
    if ok then Free(y.sp, y.s, y.lo, y.hi, page, k) && forall p: nat :: Free(y.sp, y.s, y.lo, y.hi, p, k) ==> page <= p
    else forall p: nat :: !Free(y.sp, y.s, y.lo, y.hi, p, k)
  }

  method SearchGap(root: RbRoot, k: nat, ghost t: Tree, ghost m: Mem) returns (found: Vmar?, ghost at: nat)
    requires Valid(root, t) && m == Snap(Nodes(t))
    ensures m == Snap(Nodes(t))
    ensures found != null ==> at < |InOrder(t)| && found == InOrder(t)[at] && found in m && m[found].gap >= k
    ensures found == null ==> at == |InOrder(t)|
    ensures forall j :: 0 <= j < at ==> InOrder(t)[j] in m && m[InOrder(t)[j]].gap < k
  {
    assert HoldsAt(m, root.node, Top, t) && Aug(t) by { Open(root, t); }
    MaximumIsSound(m, t, null, k);
    found, at := FindFirstFit(root, GapFits(k), MaxGapFits(k), t, m);
  }

  /** The search over the tree: the lowest child with a large enough gap. */
  method FindChildGap(parent: Vmar, k: nat, ghost t: Tree, ghost y: Layout, ghost g: Gaps, ghost nodes: set<Vmar>)
      returns (found: Vmar?, ghost at: nat)
    requires Valid(parent.children, t) && y == LayoutOf(parent, t) && g == GapOf(Nodes(t)) && nodes == Nodes(t)
    ensures found == null ==> forall j :: 0 <= j < |y.s| ==> y.s[j] in g && g[y.s[j]] < k
    ensures found != null ==>
              && at < |y.s| && y.s[at] == found && found in g && g[found] >= k
              && forall j :: 0 <= j < at ==> y.s[j] in g && g[y.s[j]] < k
    ensures found != null ==> found in y.sp && found.first == y.sp[found].first && found.gap == g[found]
    ensures Valid(parent.children, t) && y == LayoutOf(parent, t) && g == GapOf(Nodes(t))
  {
    ghost var m := Snap(nodes);
    found, at := SearchGap(parent.children, k, t, m);
    assert forall v :: v in m ==> v in g && m[v].gap == g[v];
    if found != null {
      assert found in y.sp && found in g;
    }
  }

  /** vmar_find_gap: first fit, the least page of the region where the range touches no child. */
  method FindGap(parent: Vmar, pageCount: nat, ghost t: Tree, ghost y: Layout) returns (ok: bool, page: nat)
    requires RegionOk(parent, t) && y == LayoutOf(parent, t)
    ensures Least(y, pageCount, ok, page)
  {
    ghost var g := GapOf(Nodes(t));
    ghost var at;
    var found;
    found, at := FindChildGap(parent, pageCount, t, y, g, Nodes(t));
    if found != null {
      assert found.gap <= found.first by { assert GapRight(g, y.sp, y.s, at, y.lo); }
      page := found.first - found.gap;
      FirstFitPlace(y, g, pageCount, at, page);
      return true, page;
    }
    TailPlace(y, g, pageCount);
    var size;
    size, page := TailGap(parent, t, y);
    ok := size >= pageCount;
  }

  // ----- vmar_find_place -----

  datatype Status = Success | InternalError | InvalidArgument | OutOfResources

  const PAGE_SIZE := 4096
  const ADDRESS_LIMIT := 0x1_0000_0000_0000_0000
  const PAGE_LIMIT := 0x10_0000_0000_0000
  const ANY_OFFSET := ADDRESS_LIMIT - 1

  /** The page a placement of k pages at this offset must start at. */
  ghost predicate Wanted(y: Layout, offset: nat, k: nat, page: nat) {
    if offset == ANY_OFFSET then Least(y, k, true, page)
    else offset % PAGE_SIZE == 0 && page == y.lo + offset / PAGE_SIZE && Free(y.sp, y.s, y.lo, y.hi, page, k)
  }

  ghost predicate HasPlace(y: Layout, offset: nat, k: nat) {
    exists page :: Wanted(y, offset, k, page)
  }

  /** vmar_check_in_parent */
  function InParent(parent: Vmar, child: Vmar): (ok: bool)
    reads parent`first, parent`pages, child`first, child`pages
  {
    child.End() < ADDRESS_LIMIT && child.first >= parent.first && child.End() <= parent.End()
  }

  /** Which page a fixed offset asks for, and the cases in which there is none. */
  lemma FixedPlace(y: Layout, offset: nat, k: nat, first: nat)
    requires y.Ok() && y.hi <= PAGE_LIMIT && k != 0 && offset < ANY_OFFSET
    requires first == (y.lo * PAGE_SIZE + offset) / PAGE_SIZE
    ensures offset % PAGE_SIZE != 0 || y.lo * PAGE_SIZE + offset >= ADDRESS_LIMIT || first + k > y.hi ==> !HasPlace(y, offset, k)
    ensures offset % PAGE_SIZE == 0 ==> y.lo <= first
    ensures offset % PAGE_SIZE == 0 ==> (Wanted(y, offset, k, first) <==> Free(y.sp, y.s, y.lo, y.hi, first, k))
    ensures HasPlace(y, offset, k) ==> Wanted(y, offset, k, first)
  {
  }

  /** The child overlaps no sibling. */
  lemma FreeFits(parent: Vmar, child: Vmar, t: Tree, y: Layout)
    requires y == LayoutOf(parent, t) && y.Ok() && Nodes(t) == Elems(InOrder(t))
    requires Free(y.sp, y.s, y.lo, y.hi, child.first, child.pages)
    ensures Fits(parent, child, Spans(Nodes(t)))
  {
    forall v | v in y.sp
      ensures child.End() <= y.sp[v].first || y.sp[v].end <= child.first
    {
      assert v in Elems(y.s);
    }
  }

  /** rb_find with the child's own range: is any sibling in the way? */
  method IsClear(parent: Vmar, lo: nat, k: nat, ghost t: Tree, ghost y: Layout) returns (clear: bool)
    requires Valid(parent.children, t) && y == LayoutOf(parent, t)
    ensures clear <==> forall v :: v in y.s ==> v in y.sp && (lo + k <= y.sp[v].first || y.sp[v].end <= lo)
    ensures Valid(parent.children, t) && y == LayoutOf(parent, t)
  {
    ValidOrder(parent.children, t);
    var found := Find(parent.children, lo, lo + k, t);
    clear := found == null;
    assert Spans(Nodes(t)) == y.sp;
    if found != null {
      assert found in y.s && y.sp[found] == Span(found.first, found.End());
    } else {
      assert forall v :: v in Nodes(t) ==> y.sp[v] == Span(v.first, v.End());
    }
  }

  /** Whether the offset is aligned and keeps the child inside the parent; the child is set to start there. */
  method SetOffset(parent: Vmar, child: Vmar, offset: nat, ghost t: Tree, ghost y: Layout) returns (ok: bool)
    requires Valid(parent.children, t) && y == LayoutOf(parent, t) && y.Ok() && child !in Nodes(t) && child != parent
    requires child.pages != 0 && parent.End() <= PAGE_LIMIT && offset < ANY_OFFSET
    modifies child`first
    ensures Valid(parent.children, t) && y == LayoutOf(parent, t)
    ensures !ok ==> !HasPlace(y, offset, child.pages)
    ensures ok ==> (Wanted(y, offset, child.pages, child.first) <==> Free(y.sp, y.s, y.lo, y.hi, child.first, child.pages))
    ensures ok && HasPlace(y, offset, child.pages) ==> Wanted(y, offset, child.pages, child.first)
    ensures ok ==> y.lo <= child.first && child.first + child.pages <= y.hi
  {
    var base := parent.first * PAGE_SIZE + offset;
    FixedPlace(y, offset, child.pages, base / PAGE_SIZE);
    if offset % PAGE_SIZE != 0 || base >= ADDRESS_LIMIT {
      return false;
    }
    child.first := base / PAGE_SIZE;
    ok := InParent(parent, child);
  }

  /** The branch of vmar_find_place for a fixed offset from the parent. */
  method FixedOffset(parent: Vmar, child: Vmar, offset: nat, ghost t: Tree, ghost y: Layout) returns (s: Status)
    requires Valid(parent.children, t) && y == LayoutOf(parent, t) && y.Ok() && child !in Nodes(t) && child != parent
    requires child.pages != 0 && parent.End() <= PAGE_LIMIT && offset < ANY_OFFSET
    modifies child`first
    ensures s == if HasPlace(y, offset, child.pages) then Success else InternalError
    ensures s.Success? ==> Wanted(y, offset, child.pages, child.first)
  {
    var ok := SetOffset(parent, child, offset, t, y);
    if !ok {
      return InternalError;
    }
    var clear := IsClear(parent, child.first, child.pages, t, y);
    s := if clear then Success else InternalError;
    ClearIsFree(y, offset, child.first, child.pages);
  }

  /** At a fixed page inside the region only an overlap is in the way. */
  lemma ClearIsFree(y: Layout, offset: nat, first: nat, k: nat)
    requires HasPlace(y, offset, k) ==> Wanted(y, offset, k, first)
    requires Wanted(y, offset, k, first) <==> Free(y.sp, y.s, y.lo, y.hi, first, k)
    ensures HasPlace(y, offset, k) <==> Wanted(y, offset, k, first)
  {
  }

  /** vmar_find_place: succeeds exactly when the wanted place exists, and then the child is at it. */
  method FindPlace(parent: Vmar, child: Vmar, offset: nat, pageCount: nat, ghost t: Tree, ghost y: Layout) returns (s: Status)
    requires RegionOk(parent, t) && y == LayoutOf(parent, t) && child !in Nodes(t) && child != parent
    requires pageCount != 0 && parent.End() <= PAGE_LIMIT && offset <= ANY_OFFSET
    modifies child`first, child`pages
    ensures s == if !parent.unmapped && HasPlace(y, offset, pageCount) then Success else InternalError
    ensures s.Success? ==> Wanted(y, offset, pageCount, child.first) && child.pages == pageCount
  {
    if parent.unmapped {
      return InternalError;
    }
    child.pages := pageCount;
    if offset == ANY_OFFSET {
      var ok, page := FindGap(parent, pageCount, t, y);
      if !ok {
        return InternalError;
      }
      child.first := page;
      assert Wanted(y, offset, pageCount, page);
      return Success;
    }
    s := FixedOffset(parent, child, offset, t, y);
  }
}
