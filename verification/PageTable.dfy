/** The shape of the page tables (src/mem/virt.c): which slot a virtual page reaches. */
module PageTable {
  import opened Common

  /** PAGING_INDEX_BITS is 9. */
  const ENTRIES := 512

  /** An entry of a table; a table is named by its physical page. */
  datatype Slot = Slot(table: nat, index: nat)

  /** The interior entries that are present. */
  type Tables = map<Slot, nat>

  /** The virtual page number without its lowest i digits. */
  function High(v: nat, i: nat): nat {
    if i == 0 then v else High(v, i - 1) / ENTRIES
  }

  /** The index of the page in the table of level i. */
  function Index(v: nat, i: nat): nat {
    High(v, i) % ENTRIES
  }

  lemma Digits(v: nat, i: nat)
    ensures High(v, i) == High(v, i + 1) * ENTRIES + Index(v, i)
  {
  }

  // ----- what the indices are -----

  /** 512^i: 9 bits for each level. */
  function Power(i: nat): (p: nat)
    ensures p > 0
  {
    if i == 0 then 1 else 512 * Power(i - 1)
  }

  lemma DivideTwice(v: nat, a: nat, b: nat)
    requires a > 0 && b > 0
    ensures v / a / b == v / (a * b)
  {
    var q, r := v / a, v % a;
    var p, t := q / b, q % b;
    Below(a, b, t, r);
    Regroup(a, b, p, t, r);
    Quotient(v, a * b, p, a * t + r);
  }

  lemma Regroup(a: nat, b: nat, p: nat, t: nat, r: nat)
    ensures a * (b * p + t) + r == a * b * p + (a * t + r)
  {
    assert a * (b * p + t) == a * (b * p) + a * t;
  }

  lemma Below(a: nat, b: nat, t: nat, r: nat)
    requires t < b && r < a
    ensures 0 <= a * t + r < a * b
  {
    Scale(a, t + 1, b);
    assert a * (t + 1) == a * t + a;
  }

  lemma Quotient(v: nat, d: nat, p: nat, r: nat)
    requires v == d * p + r && r < d
    ensures v / d == p
  {
    var q, s := v / d, v % d;
    assert d * (q - p) == r - s;
    Multiples(d, q - p);
  }

  /** The index of a page in the table of level i: bits 9i to 9i + 8 of its number. */
  lemma {:induction false} IndexIs(v: nat, i: nat)
    ensures High(v, i) == v / Power(i) && Index(v, i) == v / Power(i) % 512
  {
    if i > 0 {
      IndexIs(v, i - 1);
      DivideTwice(v, Power(i - 1), 512);
    }
  }

  /** The entries of a table fill its page, and 4 or 5 levels cover the page numbers of 48 or 57 bits of address. */
  lemma Covered(v: nat)
    ensures ENTRIES * 8 == 4096
    ensures High(v, 4) == 0 <==> v < 0x10_0000_0000
    ensures High(v, 5) == 0 <==> v < 0x2000_0000_0000
  {
    IndexIs(v, 4);
    IndexIs(v, 5);
    Powers();
  }

  lemma Powers()
    ensures Power(1) == 512 && Power(2) == 0x4_0000 && Power(3) == 0x800_0000
    ensures Power(4) == 0x10_0000_0000 && Power(5) == 0x2000_0000_0000
  {
    assert Power(1) == 512 * Power(0);
    assert Power(2) == 512 * Power(1);
    assert Power(3) == 512 * Power(2);
    assert Power(4) == 512 * Power(3);
  }

  /** The table of level i on the way to page v, if the way is there. */
  function Reach(tables: Tables, root: nat, levels: nat, v: nat, i: nat): Option<nat>
    requires i < levels
    decreases levels - i
  {
    if i == levels - 1 then Some(root)
    else
      var up := Reach(tables, root, levels, v, i + 1);
      if up.Some? && Slot(up.value, Index(v, i + 1)) in tables then Some(tables[Slot(up.value, Index(v, i + 1))]) else None
  }

  /** The slot of the leaf entry of page v. */
  function Leaf(tables: Tables, root: nat, levels: nat, v: nat): Option<Slot>
    requires levels > 0
  {
    var t := Reach(tables, root, levels, v, 0);
    if t.Some? then Some(Slot(t.value, Index(v, 0))) else None
  }

  /** With 4 levels: the way through the tables, entry by entry. */
  lemma FourLevels(tables: Tables, root: nat, v: nat)
    ensures var a := Slot(root, v / 0x800_0000 % 512);
            if a !in tables then Leaf(tables, root, 4, v) == None else
            var b := Slot(tables[a], v / 0x4_0000 % 512);
            if b !in tables then Leaf(tables, root, 4, v) == None else
            var c := Slot(tables[b], v / 512 % 512);
            if c !in tables then Leaf(tables, root, 4, v) == None else Leaf(tables, root, 4, v) == Some(Slot(tables[c], v % 512))
  {
    IndexIs(v, 0);
    IndexIs(v, 1);
    IndexIs(v, 2);
    IndexIs(v, 3);
    Powers();
    assert Reach(tables, root, 4, v, 3) == Some(root);
    var a := Slot(root, Index(v, 3));
    assert Reach(tables, root, 4, v, 2) == if a in tables then Some(tables[a]) else None;
    if a in tables {
      var b := Slot(tables[a], Index(v, 2));
      assert Reach(tables, root, 4, v, 1) == if b in tables then Some(tables[b]) else None;
    }
  }

  /** Every table but the root is entered in exactly one place. */
  ghost predicate Tree(tables: Tables, root: nat) {
    && (forall a, b :: a in tables && b in tables && tables[a] == tables[b] ==> a == b)
    && (forall a :: a in tables ==> tables[a] != root)
  }

  lemma {:induction false} SameTable(tables: Tables, root: nat, levels: nat, v: nat, w: nat, i: nat)
    requires Tree(tables, root) && i < levels && High(v, levels) == High(w, levels)
    requires Reach(tables, root, levels, v, i).Some? && Reach(tables, root, levels, v, i) == Reach(tables, root, levels, w, i)
    ensures High(v, i + 1) == High(w, i + 1)
    decreases levels - i
  {
    if i < levels - 1 {
      SameTable(tables, root, levels, v, w, i + 1);
      Digits(v, i + 1);
      Digits(w, i + 1);
    }
  }

  /** Different pages of the address space have different leaf slots. */
  lemma LeavesDiffer(tables: Tables, root: nat, levels: nat, v: nat, w: nat)
    requires Tree(tables, root) && levels > 0 && High(v, levels) == 0 && High(w, levels) == 0
    requires Leaf(tables, root, levels, v).Some? && Leaf(tables, root, levels, v) == Leaf(tables, root, levels, w)
    ensures v == w
  {
    SameTable(tables, root, levels, v, w, 0);
    Digits(v, 0);
    Digits(w, 0);
  }

  ghost predicate Extends(a: Tables, b: Tables) {
    forall s :: s in a ==> s in b && b[s] == a[s]
  }

  /** What is reached stays reached when entries are added. */
  lemma {:induction false} ReachStays(a: Tables, b: Tables, root: nat, levels: nat, v: nat, i: nat)
    requires Extends(a, b) && i < levels && Reach(a, root, levels, v, i).Some?
    ensures Reach(b, root, levels, v, i) == Reach(a, root, levels, v, i)
    decreases levels - i
  {
    if i < levels - 1 {
      ReachStays(a, b, root, levels, v, i + 1);
    }
  }

  /** What is reached is one of the tables. */
  lemma ReachIsTable(tables: Tables, root: nat, levels: nat, v: nat, i: nat)
    requires i < levels && Reach(tables, root, levels, v, i).Some?
    ensures var t := Reach(tables, root, levels, v, i).value; t == root || t in tables.Values
  {
  }

  /** One page for each entry. */
  lemma {:induction false} OnePageEach(tables: Tables)
    requires forall a, b :: a in tables && b in tables && tables[a] == tables[b] ==> a == b
    ensures |tables.Values| == |tables|
    decreases |tables|
  {
    if tables.Keys != {} {
      var s :| s in tables;
      var rest := tables - {s};
      assert rest.Keys == tables.Keys - {s};
      OnePageEach(rest);
      assert tables.Values == rest.Values + {tables[s]} by {
        forall p | p in tables.Values
          ensures p in rest.Values + {tables[s]}
        {
          var q :| q in tables && tables[q] == p;
          assert q != s ==> q in rest && rest[q] == p;
        }
      }
      assert tables[s] !in rest.Values;
    }
  }
}
