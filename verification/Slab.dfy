/** The slab allocator (src/mem/alloc.c, src/mem/alloc.h): fixed-size objects carved out of pages. */
module Slab {
  import opened Common

  const PAGE_SIZE := 4096

  /** sizeof(mem_alloc_slab_t): two links, a pointer and a counter. */
  const HEADER := 48

  function AlignUp(n: nat, align: nat): (m: nat)
    requires align > 0
    ensures n <= m < n + align && m % align == 0
  {
    RoundUp(n, align);
    (n + align - 1) / align * align
  }

  lemma RoundUp(n: nat, align: nat)
    requires align > 0
    ensures var m := (n + align - 1) / align * align; n <= m < n + align && m % align == 0
  {
    var q := (n + align - 1) / align;
    assert (n + align - 1) == q * align + (n + align - 1) % align;
    Multiple(q, align);
  }

  lemma Multiple(q: nat, align: nat)
    requires align > 0
    ensures q * align % align == 0
  {
    var d, r := q * align / align, q * align % align;
    assert q * align == align * d + r;
    Small(q - d, align, r);
  }

  /** The only multiple of n that is smaller than n is 0. */
  lemma Small(k: int, n: nat, r: nat)
    requires n > 0 && k * n == r < n
    ensures r == 0
  {
  }

  /** mem_alloc_meta_t: what DEFINE_ALLOC computes for a type of this size and alignment. */
  datatype Meta = Meta(size: nat, align: nat) {
    predicate Ok() {
      size >= 16 && align > 0 && PAGE_SIZE % align == 0 && AlignUp(HEADER, align) <= PAGE_SIZE && PerSlab() >= 1
    }

    function Stride(): nat
      requires align > 0
    {
      AlignUp(if size < 8 then 8 else size, align)
    }

    function Area(): nat
      requires align > 0
    {
      AlignUp(HEADER, align)
    }

    function PerSlab(): nat
      requires align > 0 && AlignUp(HEADER, align) <= PAGE_SIZE
    {
      if Stride() == 0 then 0 else (PAGE_SIZE - Area()) / Stride()
    }

    /** The i-th object of the slab at address s. */
    function Object(s: nat, i: nat): nat
      requires align > 0
    {
      s + Area() + Stride() * i
    }
  }

  /** object_to_slab */
  function SlabOf(p: nat): nat {
    p - p % PAGE_SIZE
  }

  /** The objects start at the first aligned place behind the 48 bytes of the header. */
  lemma AreaIs(m: Meta, k: nat)
    requires m.align > 0 && k >= 48 && k % m.align == 0
    ensures 48 <= m.Area() <= k && m.Area() % m.align == 0
  {
    LeastMultiple(48, m.align, k);
  }

  /** They stand at the least distance that keeps them aligned and holds two links or an object. */
  lemma StrideIs(m: Meta, k: nat)
    requires m.align > 0 && k >= 8 && k >= m.size && k % m.align == 0
    ensures 8 <= m.Stride() <= k && m.size <= m.Stride() && m.Stride() % m.align == 0
  {
    LeastMultiple(if m.size < 8 then 8 else m.size, m.align, k);
  }

  /** There are as many as the page has room for. */
  lemma PerSlabIs(m: Meta)
    requires m.align > 0 && AlignUp(HEADER, m.align) <= PAGE_SIZE
    ensures m.Area() + m.PerSlab() * m.Stride() <= 4096 < m.Area() + (m.PerSlab() + 1) * m.Stride()
  {
    var n, st, room := m.PerSlab(), m.Stride(), 4096 - m.Area();
    assert room == n * st + room % st;
    assert (n + 1) * st == n * st + st;
  }

  lemma LeastMultiple(n: nat, align: nat, k: nat)
    requires align > 0 && k % align == 0 && k >= n
    ensures AlignUp(n, align) <= k
  {
    var a := AlignUp(n, align);
    Quotients(a, k, align);
    Multiples(align, a / align - k / align);
  }

  lemma Quotients(a: nat, k: nat, d: nat)
    requires d > 0 && a % d == 0 && k % d == 0
    ensures d * (a / d - k / d) == a - k
  {
    assert a == d * (a / d) && k == d * (k / d);
  }

  lemma DividesSum(a: nat, b: nat, d: nat)
    requires d > 0 && a % d == 0 && b % d == 0
    ensures (a + b) % d == 0
  {
    var x, y := a / d, b / d;
    assert a == x * d && b == y * d;
    assert a + b == (x + y) * d;
    Multiple(x + y, d);
  }

  lemma DividesProduct(a: nat, i: nat, d: nat)
    requires d > 0 && a % d == 0
    ensures a * i % d == 0
  {
    var x := a / d;
    assert a == x * d;
    assert a * i == x * i * d;
    Multiple(x * i, d);
  }

  /** The objects of a slab lie in its page behind the header, are aligned, do not overlap, and lead back to
      their slab. */
  lemma ObjectFits(m: Meta, s: nat, i: nat)
    requires m.Ok() && s % PAGE_SIZE == 0 && i < m.PerSlab()
    ensures var p := m.Object(s, i); s + HEADER <= p && p + m.size <= s + PAGE_SIZE && SlabOf(p) == s && p % m.align == 0
    ensures m.Stride() >= m.size
  {
    var p, st, n := m.Object(s, i), m.Stride(), m.PerSlab();
    assert n * st <= PAGE_SIZE - m.Area() by {
      assert (PAGE_SIZE - m.Area()) == n * st + (PAGE_SIZE - m.Area()) % st;
    }
    assert st * i + st == st * (i + 1);
    assert st * (i + 1) <= st * n by { Scale(st, i + 1, n); }
    assert p % m.align == 0 by {
      assert s % m.align == 0 by {
        var k := s / PAGE_SIZE;
        assert s == PAGE_SIZE * k;
        DividesProduct(PAGE_SIZE, k, m.align);
      }
      DividesProduct(st, i, m.align);
      DividesSum(s, m.Area(), m.align);
      DividesSum(s + m.Area(), st * i, m.align);
    }
    assert SlabOf(p) == s by { Within(s, p); }
  }

  lemma Within(s: nat, p: nat)
    requires s % PAGE_SIZE == 0 && s <= p < s + PAGE_SIZE
    ensures SlabOf(p) == s
  {
  }

  lemma PagesApart(s: nat, t: nat)
    requires s % PAGE_SIZE == 0 && t % PAGE_SIZE == 0 && s != t
    ensures s + PAGE_SIZE <= t || t + PAGE_SIZE <= s
  {
  }

  lemma ObjectsApart(m: Meta, s: nat, i: nat, j: nat)
    requires m.Ok() && i < j
    ensures m.Object(s, i) + m.size <= m.Object(s, j)
  {
    var st := m.Stride();
    assert st * i + st == st * (i + 1);
    Scale(st, i + 1, j);
  }

  // ----- the slabs -----

  /** Some bytes of an object: all zero, the links of the free list, or what its owner stored. */
  datatype Part = Zero | Links | Data(value: int)

  /** An object: the bytes where its links are while it is free, the rest of it, and whether the space up to the next
      object is filled with 0xBB. */
  datatype Bytes = Bytes(head: Part, rest: Part, filled: bool)

  const FRESH := Bytes(Zero, Zero, false)
  const ZEROED := Bytes(Zero, Zero, true)
  const FREED := Bytes(Links, Zero, true)

  /** A page as phys_alloc gives it, by the places where the objects will be. */
  datatype Page = Page(address: nat, bytes: map<nat, Bytes>)

  /** list_del */
  function Without(q: seq<nat>, x: nat): (r: seq<nat>)
    ensures x in q && NoRepeat(q) ==> NoRepeat(r) && |r| == |q| - 1 && forall y :: y in r <==> y in q && y != x
    ensures q != [] && q[0] == x ==> r == q[1..]
  {
    if x !in q then q
    else
      var i := Position(q, x);
      if NoRepeat(q) then DropAt(q, i); q[..i] + q[i + 1..] else q[..i] + q[i + 1..]
  }

  lemma DropAt(q: seq<nat>, i: nat)
    requires i < |q| && NoRepeat(q)
    ensures var r := q[..i] + q[i + 1..]; NoRepeat(r) && |r| == |q| - 1 && forall y :: y in r <==> y in q && y != q[i]
  {
    var r := q[..i] + q[i + 1..];
    assert forall j :: 0 <= j < |r| ==> r[j] == q[if j < i then j else j + 1];
    forall y | y in q && y != q[i]
      ensures y in r
    {
      var j :| 0 <= j < |q| && q[j] == y;
      assert r[if j < i then j else j - 1] == y;
    }
  }

  lemma Elsewhere(q: seq<nat>, x: nat)
    requires NoRepeat(q) && x !in q
    ensures NoRepeat([x] + q) && NoRepeat(q + [x])
  {
  }

  /** One slab: its free list and the number of objects in use. */
  datatype SlabState = SlabState(free: seq<nat>, inUse: nat)

  type Slabs = map<nat, SlabState>

  ghost predicate IsObject(m: Meta, s: nat, p: nat)
    requires m.align > 0 && AlignUp(HEADER, m.align) <= PAGE_SIZE
  {
    exists i :: 0 <= i < m.PerSlab() && p == m.Object(s, i)
  }

  ghost function LiveIn(live: set<nat>, s: nat): set<nat> {
    set p | p in live && SlabOf(p) == s
  }

  /** Free list and live objects are exactly the objects of the slab, and in_use counts the live ones. */
  ghost predicate SlabOk(m: Meta, live: set<nat>, s: nat, x: SlabState)
    requires m.Ok()
  {
    && s % PAGE_SIZE == 0 && NoRepeat(x.free)
    && x.inUse + |x.free| == m.PerSlab() && |LiveIn(live, s)| == x.inUse
    && (forall p :: p in x.free ==> IsObject(m, s, p) && p !in live)
    && (forall p :: IsObject(m, s, p) ==> p in x.free || p in live)
  }

  ghost predicate Listed(q: seq<nat>, slabs: Slabs) {
    NoRepeat(q) && forall s :: s in q ==> s in slabs
  }

  /** The lists hold every slab once: empty those with no object in use, full those with all of them,
      partial the rest; nothing is said of the slabs in `but`. */
  ghost predicate Sorted(per: nat, partial: seq<nat>, full: seq<nat>, empty: seq<nat>, slabs: Slabs, but: set<nat>) {
    && Listed(partial, slabs) && Listed(full, slabs) && Listed(empty, slabs)
    && (forall s :: s in slabs && s !in but ==>
          && (s in empty <==> slabs[s].inUse == 0)
          && (s in full <==> slabs[s].inUse == per)
          && (s in partial <==> 0 < slabs[s].inUse < per))
  }

  /** A slab that was taken from the partial list and is full now. */
  lemma Filled(per: nat, partial: seq<nat>, full: seq<nat>, empty: seq<nat>, slabs: Slabs, s: nat)
    requires Sorted(per, partial, full, empty, slabs, {s}) && s in partial && s !in full && s !in empty
    requires s in slabs && 0 < slabs[s].inUse <= per
    ensures slabs[s].inUse < per ==> Sorted(per, partial, full, empty, slabs, {})
    ensures slabs[s].inUse == per ==> Sorted(per, Without(partial, s), [s] + full, empty, slabs, {})
  {
    Elsewhere(full, s);
    if slabs[s].inUse == per {
      assert forall t :: t in [s] + full <==> t == s || t in full;
    }
  }

  /** The lists after a slab got an object back. */
  lemma Drained(per: nat, partial: seq<nat>, full: seq<nat>, empty: seq<nat>, slabs: Slabs, s: nat, x: SlabState)
    requires Sorted(per, partial, full, empty, slabs, {}) && s in slabs && 0 < slabs[s].inUse <= per && x.inUse == slabs[s].inUse - 1
    ensures var wasFull, slabs' := slabs[s].inUse == per, slabs[s := x];
            && (wasFull ==> s in full && s !in partial && s !in empty) && (!wasFull ==> s in partial && s !in full && s !in empty)
            && (x.inUse == 0 && wasFull ==> Sorted(per, partial, Without(full, s), empty + [s], slabs', {}))
            && (x.inUse == 0 && !wasFull ==> Sorted(per, Without(partial, s), full, empty + [s], slabs', {}))
            && (x.inUse > 0 && wasFull ==> Sorted(per, partial + [s], Without(full, s), empty, slabs', {}))
            && (x.inUse > 0 && !wasFull ==> Sorted(per, partial, full, empty, slabs', {}))
  {
    var wasFull := slabs[s].inUse == per;
    if x.inUse == 0 {
      Elsewhere(empty, s);
      assert forall t :: t in empty + [s] <==> t == s || t in empty;
    } else if wasFull {
      Elsewhere(partial, s);
      assert forall t :: t in partial + [s] <==> t == s || t in partial;
    }
  }

  /** Every slab is consistent, every live object belongs to one, the free objects are zero but for their links, and
      the space between the objects is as it was filled. */
  ghost predicate Objects(m: Meta, slabs: Slabs, live: set<nat>, bytes: map<nat, Bytes>)
    requires m.Ok()
  {
    && (forall s :: s in slabs ==> SlabOk(m, live, s, slabs[s]))
    && (forall p :: p in live ==> p in bytes && bytes[p].filled && SlabOf(p) in slabs && IsObject(m, SlabOf(p), p))
    && (forall s, p :: s in slabs && p in slabs[s].free ==> p in bytes && bytes[p] == FREED)
  }

  /** A page is zeroed and is none of the slabs. */
  ghost predicate PageOk(m: Meta, slabs: Slabs, page: Page)
    requires m.Ok()
  {
    && page.address % PAGE_SIZE == 0 && page.address !in slabs
    && forall p :: IsObject(m, page.address, p) ==> p in page.bytes && page.bytes[p] == FRESH
  }

  lemma AddedObjects(m: Meta, slabs: Slabs, live: set<nat>, bytes: map<nat, Bytes>, bytes': map<nat, Bytes>, s: nat, x: SlabState)
    requires m.Ok() && Objects(m, slabs, live, bytes) && s !in slabs && SlabOk(m, live, s, x)
    requires forall p :: p in bytes' <==> p in bytes || p in x.free
    requires forall p :: p in bytes' ==> bytes'[p] == if p in x.free then FREED else bytes[p]
    ensures Objects(m, slabs[s := x], live, bytes')
  {
  }

  /** Where a slab goes that got an object back. */
  predicate Moved(s: nat, wasFull: bool, isEmpty: bool, partial: seq<nat>, full: seq<nat>, empty: seq<nat>,
                  partial': seq<nat>, full': seq<nat>, empty': seq<nat>) {
    && full' == (if wasFull then Without(full, s) else full)
    && empty' == (if isEmpty then empty + [s] else empty)
    && partial' == if isEmpty then (if wasFull then partial else Without(partial, s)) else if wasFull then partial + [s] else partial
  }

  /** Slab s gives its first free object. */
  predicate Popped(slabs: Slabs, slabs': Slabs, s: nat, p: nat) {
    && s in slabs && slabs[s].free != [] && p == slabs[s].free[0]
    && slabs' == slabs[s := SlabState(slabs[s].free[1..], slabs[s].inUse + 1)]
  }

  /** Where an object comes from, and what becomes of the lists: from the first partial slab if there is one, else from
      the first empty one, and only if there is neither from the page, which is a slab then. */
  ghost predicate Served(p: nat, page: Option<Page>, per: nat, partial: seq<nat>, full: seq<nat>, empty: seq<nat>, slabs: Slabs,
                         partial': seq<nat>, full': seq<nat>, empty': seq<nat>, slabs': Slabs) {
    var s := SlabOf(p);
    && (partial != [] ==> s == partial[0])
    && (partial == [] && empty != [] ==> s == empty[0])
    && (partial == [] && empty == [] ==> page.Some? && s == page.value.address && slabs'.Keys == slabs.Keys + {s})
    && (partial != [] || empty != [] ==> Popped(slabs, slabs', s, p))
    && s in slabs' && empty' == (if partial == [] && empty != [] then empty[1..] else empty)
    && var front := if partial != [] then partial else [s];
       if slabs'[s].inUse == per then partial' == front[1..] && full' == [s] + full else partial' == front && full' == full
  }

  /** Which slab serves an allocation: the first partial one, else the first empty one, else a new one. */
  function ServingSlab(partial: seq<nat>, empty: seq<nat>, page: Option<Page>): nat
    requires partial != [] || empty != [] || page.Some?
  {
    if partial != [] then partial[0] else if empty != [] then empty[0] else page.value.address
  }

  /** The partial list with that slab in front. */
  function ServingFrom(partial: seq<nat>, empty: seq<nat>, page: Option<Page>): seq<nat>
    requires partial != [] || empty != [] || page.Some?
  {
    if partial != [] then partial else [ServingSlab(partial, empty, page)]
  }

  lemma ServedBy(p: nat, s: nat, page: Option<Page>, per: nat, partial: seq<nat>, full: seq<nat>, empty: seq<nat>, slabs: Slabs, slabs1: Slabs,
                 partial': seq<nat>, full': seq<nat>, empty': seq<nat>, slabs': Slabs)
    requires (partial != [] || empty != [] || page.Some?) && s == ServingSlab(partial, empty, page) && s == SlabOf(p)
    requires empty' == if partial == [] && empty != [] then empty[1..] else empty
    requires if partial != [] || empty != [] then slabs1 == slabs else slabs1.Keys == slabs.Keys + {s}
    requires Popped(slabs1, slabs', s, p)
    requires var front := ServingFrom(partial, empty, page);
             if slabs'[s].inUse == per then partial' == Without(front, s) && full' == [s] + full else partial' == front && full' == full
    ensures Served(p, page, per, partial, full, empty, slabs, partial', full', empty', slabs')
  {
  }

  class SlabCache {
    const meta: Meta
    var partial: seq<nat>
    var full: seq<nat>
    var empty: seq<nat>
    var slabs: Slabs
    /** The bytes of the objects of all slabs. */
    var bytes: map<nat, Bytes>
    ghost var live: set<nat>

    constructor (meta: Meta)
      requires meta.Ok()
      ensures Valid() && live == {} && slabs == map[] && this.meta == meta
    {
      this.meta := meta;
      partial, full, empty, slabs, bytes := [], [], [], map[], map[];
      live := {};
      new;
      Fold();
    }

    ghost predicate ListsOk()
      reads this
      requires meta.Ok()
    {
      Sorted(meta.PerSlab(), partial, full, empty, slabs, {})
    }

    ghost predicate Valid()
      reads this
    {
      meta.Ok() && ListsOk() && ObjectsOk()
    }

    ghost predicate Loose(s: nat)
      reads this
    {
      s in partial && s !in full && s !in empty
    }

    ghost predicate ObjectsAt(k: int)
      reads this`slabs, this`bytes, this`live
      requires meta.Ok()
    {
      k == 0 ==> ObjectParts()
    }

    /** ObjectParts, closed to proofs that only pass it on. */
    ghost predicate ObjectsOk()
      reads this`slabs, this`bytes, this`live
      requires meta.Ok()
    {
      forall k :: ObjectsAt(k)
    }

    lemma Open()
      requires meta.Ok() && ObjectsOk()
      ensures ObjectParts()
    {
      assert ObjectsAt(0);
    }

    lemma Fold()
      requires meta.Ok() && ObjectParts()
      ensures ObjectsOk()
    {
      forall k ensures ObjectsAt(k) {
      }
    }

    /** A live object and its slab. */
    lemma LiveObject(p: nat)
      requires meta.Ok() && ObjectsOk() && p in live
      ensures SlabOf(p) in slabs && 0 < slabs[SlabOf(p)].inUse <= meta.PerSlab()
    {
      Open();
      GiveBack(meta, live, SlabOf(p), slabs[SlabOf(p)], p);
    }

    ghost predicate ObjectParts()
      reads this`slabs, this`bytes, this`live
      requires meta.Ok()
    {
      Objects(meta, slabs, live, bytes)
    }

    /** Live objects are aligned, lie in the page of their slab, and do not overlap. */
    lemma LiveApart(p: nat, q: nat)
      requires meta.Ok() && ObjectsOk() && p in live && q in live
      ensures p % meta.align == 0 && SlabOf(p) + HEADER <= p && p + meta.size <= SlabOf(p) + PAGE_SIZE
      ensures p < q ==> p + meta.size <= q
    {
      Open();
      var s, t := SlabOf(p), SlabOf(q);
      var i :| 0 <= i < meta.PerSlab() && p == meta.Object(s, i);
      var j :| 0 <= j < meta.PerSlab() && q == meta.Object(t, j);
      assert SlabOk(meta, live, s, slabs[s]) && SlabOk(meta, live, t, slabs[t]);
      ObjectFits(meta, s, i);
      ObjectFits(meta, t, j);
      if p < q && s == t {
        assert i < j by {
          if j < i {
            ObjectsApart(meta, s, j, i);
          }
        }
        ObjectsApart(meta, s, i, j);
      } else if p < q {
        PagesApart(s, t);
      }
    }

    /** slab_create: all objects of the page go on the free list.  A link is stored over what is there, and so is the
        filling behind the object. */
    method CreateSlab(page: Page) returns (x: SlabState)
      requires meta.Ok() && PageOk(meta, slabs, page)
      modifies this`bytes
      ensures x.inUse == 0 && |x.free| == meta.PerSlab() && NoRepeat(x.free)
      ensures forall p :: p in x.free <==> IsObject(meta, page.address, p)
      ensures forall j :: 0 <= j < |x.free| ==> x.free[j] == meta.Object(page.address, meta.PerSlab() - 1 - j)
      ensures forall p :: p in bytes <==> p in old(bytes) || p in x.free
      ensures forall p :: p in bytes ==> bytes[p] == if p in x.free then FREED else old(bytes)[p]
    {
      var free, s := [], page.address;
      var i := 0;
      while i < meta.PerSlab()
        invariant i <= meta.PerSlab() && |free| == i && forall j :: 0 <= j < i ==> free[j] == meta.Object(s, i - 1 - j)
        invariant forall p :: p in bytes <==> p in old(bytes) || p in free
        invariant forall p :: p in bytes ==> bytes[p] == if p in free then FREED else old(bytes)[p]
      {
        var node := s + meta.Area() + meta.Stride() * i;
        assert node == meta.Object(s, i) && IsObject(meta, s, node);
        free := [node] + free;
        bytes := bytes[node := page.bytes[node].(head := Links)];
        bytes := bytes[node := bytes[node].(filled := true)];
        i := i + 1;
      }
      AllObjects(meta, s, free);
      x := SlabState(free, 0);
    }

    /** mem_alloc chooses a slab: a partial one if there is one, then an empty one, then a new one. */
    method ChooseSlab(page: Option<Page>) returns (r: Option<nat>)
      requires Valid() && (page.Some? ==> PageOk(meta, slabs, page.value))
      modifies this`partial, this`empty, this`slabs, this`bytes
      ensures r.None? <==> old(partial) == [] && old(empty) == [] && page.None?
      ensures r.None? ==> Valid() && partial == old(partial) && empty == old(empty) && slabs == old(slabs) && bytes == old(bytes)
      ensures r.Some? ==> ObjectsOk() && Sorted(meta.PerSlab(), partial, full, empty, slabs, {r.value}) && Loose(r.value)
                          && r.value in slabs && slabs[r.value].inUse < meta.PerSlab()
      ensures r.Some? ==> r.value == ServingSlab(old(partial), old(empty), page) && partial == ServingFrom(old(partial), old(empty), page)
                          && empty == (if old(partial) == [] && old(empty) != [] then old(empty)[1..] else old(empty))
      ensures if old(partial) != [] || old(empty) != [] || page.None? then slabs == old(slabs)
              else slabs.Keys == old(slabs.Keys) + {page.value.address} && slabs == old(slabs)[page.value.address := slabs[page.value.address]]
      ensures forall p :: p in live ==> p in bytes && p in old(bytes) && bytes[p] == old(bytes)[p]
    {
      assert forall p :: p in live ==> p in bytes by { Open(); }
      if partial != [] {
        assert partial[0] in partial;
        return Some(partial[0]);
      }
      if empty != [] {
        var s := TakeEmpty();
        return Some(s);
      }
      if page.None? {
        return None;
      }
      AddSlab(page.value);
      partial := [page.value.address] + partial;
      r := Some(page.value.address);
    }

    /** The first empty slab becomes a partial one. */
    method TakeEmpty() returns (s: nat)
      requires Valid() && empty != []
      modifies this`partial, this`empty
      ensures ObjectsOk() && Sorted(meta.PerSlab(), partial, full, empty, slabs, {s}) && Loose(s) && s in slabs && slabs[s].inUse < meta.PerSlab()
      ensures s == old(empty)[0] && empty == old(empty)[1..] && partial == [s] + old(partial)
    {
      s := empty[0];
      assert s in empty && forall t :: t in empty <==> t == s || t in empty[1..];
      empty := empty[1..];
      partial := [s] + partial;
    }

    method AddSlab(page: Page)
      requires Valid() && PageOk(meta, slabs, page)
      modifies this`slabs, this`bytes
      ensures var s := page.address; ObjectsOk() && s in slabs && slabs[s].inUse == 0 && slabs == old(slabs)[s := slabs[s]]
      ensures forall p :: p in live ==> p in bytes && p in old(bytes) && bytes[p] == old(bytes)[p]
    {
      var s := page.address;
      NoneLive(s);
      ghost var before := bytes;
      assert Objects(meta, slabs, live, before) by { Open(); }
      var x := CreateSlab(page);
      NewSlabOk(meta, live, s, x);
      AddedObjects(meta, slabs, live, before, bytes, s, x);
      slabs := slabs[s := x];
      Fold();
    }

    lemma NoneLive(s: nat)
      requires Valid() && s !in slabs && s % PAGE_SIZE == 0
      ensures LiveIn(live, s) == {} && forall p :: p in live ==> !IsObject(meta, s, p)
    {
      Open();
      forall p | p in live
        ensures !IsObject(meta, s, p)
      {
        if IsObject(meta, s, p) {
          ObjectSlab(meta, s, p);
        }
      }
    }

    /** mem_alloc takes the first free object of the slab, clears its links and moves the slab if it is full now. */
    method TakeObject(s: nat) returns (p: nat)
      requires meta.Ok() && ObjectsOk() && Sorted(meta.PerSlab(), partial, full, empty, slabs, {s}) && Loose(s)
      requires s in slabs && slabs[s].inUse < meta.PerSlab()
      modifies this`partial, this`full, this`slabs, this`bytes, this`live
      ensures Valid() && p !in old(live) && live == old(live) + {p} && IsObject(meta, SlabOf(p), p)
      ensures p in bytes && bytes[p] == ZEROED
      ensures SlabOf(p) == s && Popped(old(slabs), slabs, s, p) && empty == old(empty)
      ensures if slabs[s].inUse == meta.PerSlab() then partial == Without(old(partial), s) && full == [s] + old(full)
              else partial == old(partial) && full == old(full)
      ensures forall q :: q in old(live) ==> q in bytes && q in old(bytes) && bytes[q] == old(bytes)[q]
    {
      p := PopObject(s);
      Filled(meta.PerSlab(), partial, full, empty, slabs, s);
      if slabs[s].inUse == meta.PerSlab() {
        partial := Without(partial, s);
        full := [s] + full;
      }
    }

    method PopObject(s: nat) returns (p: nat)
      requires meta.Ok() && ObjectsOk() && s in slabs && slabs[s].inUse < meta.PerSlab()
      modifies this`slabs, this`bytes, this`live
      ensures ObjectsOk() && p !in old(live) && live == old(live) + {p} && SlabOf(p) == s && IsObject(meta, s, p)
      ensures slabs.Keys == old(slabs.Keys) && Popped(old(slabs), slabs, s, p)
      ensures p in bytes && bytes[p] == ZEROED
      ensures forall q :: q in old(live) ==> q in bytes && q in old(bytes) && bytes[q] == old(bytes)[q]
    {
      Open();
      var x := slabs[s];
      p := x.free[0];
      TakeFrom(meta, live, s, x);
      forall t | t in slabs && t != s
        ensures SlabOk(meta, live + {p}, t, slabs[t]) && p !in slabs[t].free
      {
        OtherSlab(meta, live, p, t, slabs[t]);
      }
      assert forall q :: q in x.free <==> q == p || q in x.free[1..];
      assert forall i :: 0 < i < |x.free| ==> x.free[i] != p;
      bytes := bytes[p := bytes[p].(head := Zero)];
      slabs := slabs[s := SlabState(x.free[1..], x.inUse + 1)];
      live := live + {p};
      Fold();
    }

    /** mem_alloc; page is what phys_alloc would give, which is zeroed.  Only the links are cleared here: that the object
        is zero rests on what Free did to it. */
    method Alloc(page: Option<Page>) returns (r: Option<nat>)
      requires Valid() && (page.Some? ==> PageOk(meta, slabs, page.value))
      modifies this
      ensures Valid() && (r.None? <==> old(partial) == [] && old(empty) == [] && page.None?)
      ensures r.None? ==> live == old(live) && slabs == old(slabs)
      ensures r.Some? ==> r.value !in old(live) && live == old(live) + {r.value} && IsObject(meta, SlabOf(r.value), r.value)
      ensures r.Some? ==> r.value in bytes && bytes[r.value] == ZEROED
      ensures r.Some? ==> Served(r.value, page, meta.PerSlab(), old(partial), old(full), old(empty), old(slabs), partial, full, empty, slabs)
      ensures forall q :: q in old(live) ==> q in bytes && q in old(bytes) && bytes[q] == old(bytes)[q]
    {
      ghost var lists, slabs0 := (partial, full, empty), slabs;
      var s := ChooseSlab(page);
      if s.None? {
        return None;
      }
      ghost var slabs1 := slabs;
      var p := TakeObject(s.value);
      r := Some(p);
      ServedBy(p, s.value, page, meta.PerSlab(), lists.0, lists.1, lists.2, slabs0, slabs1, partial, full, empty, slabs);
    }

    /** The owner of an object stores into it. */
    method Store(p: nat, head: Part, rest: Part)
      requires Valid() && p in live
      modifies this`bytes
      ensures Valid() && p in old(bytes) && old(bytes)[p].filled && bytes == old(bytes)[p := Bytes(head, rest, true)]
    {
      Open();
      assert forall s :: s in slabs ==> p !in slabs[s].free;
      bytes := bytes[p := bytes[p].(head := head, rest := rest)];
      Fold();
    }

    /** mem_free: whatever its owner stored, the object is zero but for its links. */
    method Free(ptr: Option<nat>)
      requires Valid() && (ptr.Some? ==> ptr.value in live)
      modifies this
      ensures ptr.Some? ==> ptr.value in bytes && bytes[ptr.value] == FREED
      ensures Valid() && live == if ptr.Some? then old(live) - {ptr.value} else old(live)
      ensures slabs.Keys == old(slabs.Keys)
      // the object goes to the end of the free list, and its slab to the end of the list it belongs to now
      ensures ptr.None? ==> slabs == old(slabs) && partial == old(partial) && full == old(full) && empty == old(empty)
      ensures ptr.Some? ==>
                var p, s := ptr.value, SlabOf(ptr.value);
                && s in old(slabs) && s in slabs && old(slabs)[s].inUse > 0
                && slabs == old(slabs)[s := SlabState(old(slabs)[s].free + [p], old(slabs)[s].inUse - 1)]
                && Moved(s, old(slabs)[s].inUse == meta.PerSlab(), slabs[s].inUse == 0, old(partial), old(full), old(empty), partial, full, empty)
      ensures forall q :: q in live ==> q in bytes && q in old(bytes) && bytes[q] == old(bytes)[q]
    {
      assert forall q :: q in live ==> q in bytes by { Open(); }
      if ptr.None? {
        return;
      }
      var p := ptr.value;
      var s := SlabOf(p);
      LiveObject(p);
      ghost var before := slabs;
      var wasFull := slabs[s].inUse == meta.PerSlab();
      PushObject(p, s);
      MoveBack(s, wasFull, before);
    }

    /** The slab moves to the list it belongs to, now that it has an object back. */
    method MoveBack(s: nat, wasFull: bool, ghost before: Slabs)
      requires meta.Ok() && Sorted(meta.PerSlab(), partial, full, empty, before, {}) && s in before && s in slabs
      requires 0 < before[s].inUse <= meta.PerSlab() && slabs == before[s := slabs[s]] && slabs[s].inUse == before[s].inUse - 1
      requires wasFull == (before[s].inUse == meta.PerSlab())
      modifies this`partial, this`full, this`empty
      ensures ListsOk() && Moved(s, wasFull, slabs[s].inUse == 0, old(partial), old(full), old(empty), partial, full, empty)
    {
      Drained(meta.PerSlab(), partial, full, empty, before, s, slabs[s]);
      if slabs[s].inUse == 0 {
        if wasFull {
          full := Without(full, s);
        } else {
          partial := Without(partial, s);
        }
        empty := empty + [s];
      } else if wasFull {
        full := Without(full, s);
        partial := partial + [s];
      }
    }

    /** The object is zeroed and goes to the end of the free list. */
    method PushObject(p: nat, s: nat)
      requires meta.Ok() && ObjectsOk() && p in live && s == SlabOf(p) && s in slabs && slabs[s].inUse > 0
      modifies this`slabs, this`bytes, this`live
      ensures ObjectsOk() && live == old(live) - {p} && p in bytes && bytes[p] == FREED
      ensures slabs == old(slabs)[s := SlabState(old(slabs)[s].free + [p], old(slabs)[s].inUse - 1)]
      ensures forall q :: q in live ==> q in bytes && q in old(bytes) && bytes[q] == old(bytes)[q]
    {
      Open();
      var x := slabs[s];
      GiveBack(meta, live, s, x, p);
      forall t | t in slabs && t != s
        ensures SlabOk(meta, live - {p}, t, slabs[t])
      {
        OtherSlabBack(meta, live, p, t, slabs[t]);
      }
      bytes := bytes[p := bytes[p].(head := Zero, rest := Zero)];
      bytes := bytes[p := bytes[p].(head := Links)];
      slabs := slabs[s := SlabState(x.free + [p], x.inUse - 1)];
      live := live - {p};
      Fold();
    }
  }

  lemma NewSlabOk(m: Meta, live: set<nat>, s: nat, x: SlabState)
    requires m.Ok() && s % PAGE_SIZE == 0 && LiveIn(live, s) == {} && forall p :: p in live ==> !IsObject(m, s, p)
    requires x.inUse == 0 && |x.free| == m.PerSlab() && NoRepeat(x.free) && forall p :: p in x.free <==> IsObject(m, s, p)
    ensures SlabOk(m, live, s, x)
  {
  }

  lemma AllObjects(m: Meta, s: nat, free: seq<nat>)
    requires m.Ok() && |free| == m.PerSlab() && forall j :: 0 <= j < |free| ==> free[j] == m.Object(s, |free| - 1 - j)
    ensures NoRepeat(free) && forall p :: p in free <==> IsObject(m, s, p)
  {
    forall i, j | 0 <= i < j < |free|
      ensures free[i] != free[j]
    {
      ObjectsApart(m, s, |free| - 1 - j, |free| - 1 - i);
    }
    forall p | IsObject(m, s, p)
      ensures p in free
    {
      var i :| 0 <= i < m.PerSlab() && p == m.Object(s, i);
      assert free[|free| - 1 - i] == p;
    }
  }

  // ----- one object more or less -----

  lemma LiveInAdd(live: set<nat>, p: nat, s: nat)
    requires p !in live
    ensures |LiveIn(live + {p}, s)| == |LiveIn(live, s)| + if SlabOf(p) == s then 1 else 0
    ensures SlabOf(p) != s ==> LiveIn(live + {p}, s) == LiveIn(live, s)
  {
    if SlabOf(p) == s {
      assert LiveIn(live + {p}, s) == LiveIn(live, s) + {p};
    } else {
      assert LiveIn(live + {p}, s) == LiveIn(live, s);
    }
  }

  lemma ObjectSlab(m: Meta, s: nat, p: nat)
    requires m.Ok() && s % PAGE_SIZE == 0 && IsObject(m, s, p)
    ensures SlabOf(p) == s
  {
    var i :| 0 <= i < m.PerSlab() && p == m.Object(s, i);
    ObjectFits(m, s, i);
  }

  /** The first free object of slab s is handed out. */
  lemma TakeFrom(m: Meta, live: set<nat>, s: nat, x: SlabState)
    requires m.Ok() && SlabOk(m, live, s, x) && x.free != []
    ensures var p := x.free[0];
            SlabOf(p) == s && p !in live && IsObject(m, s, p) && SlabOk(m, live + {p}, s, SlabState(x.free[1..], x.inUse + 1))
  {
    var p := x.free[0];
    assert p in x.free;
    ObjectSlab(m, s, p);
    LiveInAdd(live, p, s);
    assert forall q :: q in x.free <==> q == p || q in x.free[1..];
  }

  lemma OtherSlab(m: Meta, live: set<nat>, p: nat, t: nat, y: SlabState)
    requires m.Ok() && SlabOk(m, live, t, y) && SlabOf(p) != t && p !in live
    ensures SlabOk(m, live + {p}, t, y)
  {
    LiveInAdd(live, p, t);
    forall q | IsObject(m, t, q)
      ensures q != p
    {
      ObjectSlab(m, t, q);
    }
  }

  lemma OtherSlabBack(m: Meta, live: set<nat>, p: nat, t: nat, y: SlabState)
    requires m.Ok() && SlabOk(m, live, t, y) && SlabOf(p) != t && p in live
    ensures SlabOk(m, live - {p}, t, y)
  {
    LiveInAdd(live - {p}, p, t);
    assert live - {p} + {p} == live;
    forall q | IsObject(m, t, q)
      ensures q != p
    {
      ObjectSlab(m, t, q);
    }
  }

  lemma GiveBack(m: Meta, live: set<nat>, s: nat, x: SlabState, p: nat)
    requires m.Ok() && SlabOk(m, live, s, x) && p in live && IsObject(m, s, p)
    ensures x.inUse > 0 && SlabOk(m, live - {p}, s, SlabState(x.free + [p], x.inUse - 1))
  {
    ObjectSlab(m, s, p);
    assert live - {p} + {p} == live;
    LiveInAdd(live - {p}, p, s);
    Elsewhere(x.free, p);
  }
}
