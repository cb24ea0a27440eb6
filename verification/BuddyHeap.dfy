/** The lists, the bitmap and the memory of the buddy allocator (src/mem/phys.c). */
module BuddyHeap {
  import opened Common
  import opened BuddyBlocks
  import opened BuddyState
  import opened BuddySteps

  type Lists = seq<seq<nat>>

  /** The lists hold the heads of the free blocks, each once. */
  ghost predicate Listed(lists: Lists, free: set<Block>) {
    && |lists| == LEVELS
    && (forall k, i, j :: 0 <= k < LEVELS && 0 <= i < j < |lists[k]| ==> lists[k][i] != lists[k][j])
    && (forall k, i :: 0 <= k < LEVELS && 0 <= i < |lists[k]| ==>
          HeadOf(Block(k, Anc(lists[k][i], k))) == lists[k][i] && Block(k, Anc(lists[k][i], k)) in free)
    && (forall b :: b in free ==> b.k < LEVELS && HeadOf(b) in lists[b.k])
  }

  /** hlist_add */
  lemma ListAdd(lists: Lists, free: set<Block>, b: Block)
    requires Listed(lists, free) && b !in free && b.k < LEVELS
    ensures Listed(lists[b.k := [HeadOf(b)] + lists[b.k]], free + {b})
  {
    var l := [HeadOf(b)] + lists[b.k];
    HeadIn(b);
    assert HeadOf(b) !in lists[b.k];
    assert l[0] == HeadOf(b) && forall i :: 0 < i < |l| ==> l[i] == lists[b.k][i - 1];
    forall c | c in free && c.k == b.k
      ensures HeadOf(c) in l
    {
      var i :| 0 <= i < |lists[c.k]| && lists[c.k][i] == HeadOf(c);
      assert l[i + 1] == HeadOf(c);
    }
  }

  /** hlist_del */
  lemma ListDel(lists: Lists, free: set<Block>, b: Block, i: nat)
    requires Listed(lists, free) && b.k < LEVELS && i < |lists[b.k]| && lists[b.k][i] == HeadOf(b)
    ensures b in free && Listed(lists[b.k := lists[b.k][..i] + lists[b.k][i + 1..]], free - {b})
  {
    var old_, l := lists[b.k], lists[b.k][..i] + lists[b.k][i + 1..];
    HeadIn(b);
    assert forall j :: 0 <= j < |l| ==> l[j] == old_[if j < i then j else j + 1];
    forall c | c in free && c.k == b.k && c != b
      ensures HeadOf(c) in l
    {
      HeadIn(c);
      var j :| 0 <= j < |old_| && old_[j] == HeadOf(c);
      assert j != i;
      assert l[if j < i then j else j - 1] == HeadOf(c);
    }
  }

  class Allocator {
    var lists: Lists
    const bits: array<bool>
    const mem: array<Unit>
    ghost var st: State

    ghost predicate Agrees(hand: set<Block>)
      reads this, bits, mem
    {
      Listed(lists, st.free) && st.bits == bits[..] && st.mem == mem[..] && Sound(st, hand)
    }

    ghost predicate AgreesAt(k: int, hand: set<Block>)
      reads this, bits, mem
    {
      k == 0 ==> Agrees(hand)
    }

    /** The fields agree with the abstract state, in which the block in `hand` is being worked on.  Stated under
        a quantifier so that proofs which only pass it on do not look inside. */
    ghost predicate Holding(hand: set<Block>)
      reads this, bits, mem
    {
      forall k :: AgreesAt(k, hand)
    }

    lemma Open(hand: set<Block>)
      requires Holding(hand)
      ensures Agrees(hand)
    {
      assert AgreesAt(0, hand);
    }

    lemma IsSound()
      requires Holding({})
      ensures Sound(st, {}) && |lists| == LEVELS && |st.mem| == mem.Length
    {
      Open({});
      OpenSound(st, {});
    }

    lemma Fold(hand: set<Block>)
      requires Agrees(hand)
      ensures Holding(hand)
    {
      forall k ensures AgreesAt(k, hand) {
      }
    }

    constructor (tops: nat)
      ensures Holding({}) && st.free == st.live == {} && st.managed == {} && fresh(bits) && fresh(mem)
      ensures mem.Length == Head(LEVELS - 1, tops)
    {
      var n := Head(LEVELS - 1, tops);
      lists := seq(LEVELS, _ => []);
      bits := new bool[n](_ => false);
      mem := new Unit[n](_ => Data(0));
      new;
      st := State({}, {}, {}, bits[..], mem[..]);
      AncHead(LEVELS - 1, tops, LEVELS - 1);
      Fold({});
    }

    /** The search loop of phys_alloc_internal. */
    method Search(level: nat) returns (at: nat)
      requires |lists| == LEVELS && level <= LEVELS
      ensures level <= at <= LEVELS && (at < LEVELS ==> lists[at] != [])
      ensures forall k :: level <= k < at ==> lists[k] == []
    {
      at := level;
      while at < LEVELS && lists[at] == []
        invariant level <= at <= LEVELS && forall k :: level <= k < at ==> lists[k] == []
      {
        at := at + 1;
      }
    }

    /** Take the first block of a list out of it and clear its header. */
    method Take(at: nat) returns (page: nat, ghost b: Block)
      requires Holding({}) && at < |lists| && lists[at] != []
      modifies this, mem
      ensures old(st.free) >= {b} && b.k == at && page == HeadOf(b) == old(lists[at][0]) && Holding({b})
      ensures page < |old(st).mem| && page < mem.Length && st == old(st).(free := old(st).free - {b}, mem := old(st).mem[page := Zero])
      ensures old(mem[page]) == Header(at) && KeepsForeign(old(st), st.mem)
    {
      Open({});
      page := lists[at][0];
      b := Block(at, Anc(page, at));
      HeadIn(b);
      NotForeign(st, {}, b, page);
      ListDel(lists, st.free, b, 0);
      assert lists[at][..0] + lists[at][1..] == lists[at][1..];
      ghost var t := TakeStep(st, b);
      assert mem[page] == Header(at);
      lists := lists[at := lists[at][1..]];
      mem[page] := Zero;
      st := t;
      Fold({b});
    }

    /** One round of the splitting loop: the upper half goes on its list. */
    method Split(block: nat, at: nat, ghost c: Block)
      requires Holding({c}) && c.k == at + 1 && block == HeadOf(c)
      modifies this, bits, mem
      ensures c.k > 0 && Holding({Lower(c)}) && HeadOf(Lower(c)) == block
      ensures var u := HeadOf(Upper(c));
              && u < |old(st).mem| && u < |old(st).bits|
              && st == old(st).(free := old(st).free + {Upper(c)}, bits := old(st).bits[u := true], mem := old(st).mem[u := Header(at)])
      ensures KeepsForeign(old(st), st.mem)
    {
      Open({c});
      SplitFresh(st, c);
      ghost var t := SplitStep(st, c);
      var upper := block + Size(at);
      ListAdd(lists, st.free, Upper(c));
      mem[upper] := Header(at);
      lists := lists[at := [upper] + lists[at]];
      bits[upper] := true;
      st := t;
      Fold({Lower(c)});
    }

    /** The splitting loop of phys_alloc_internal. */
    method SplitDown(block: nat, level: nat, at: nat, ghost b: Block, ghost s0: State) returns (ghost c: Block)
      requires Holding({b}) && level <= at == b.k && block == HeadOf(b)
      requires st.live == s0.live && st.managed == s0.managed && KeepsForeign(s0, st.mem)
      modifies this, bits, mem
      ensures Holding({c}) && c.k == level && block == HeadOf(c) && In(block, b)
      ensures st.live == s0.live && st.managed == s0.managed && KeepsForeign(s0, st.mem)
    {
      HeadIn(b);
      c := b;
      var k := at;
      while k > level
        invariant level <= k <= at && c.k == k && block == HeadOf(c) && Holding({c})
        invariant st.live == s0.live && st.managed == s0.managed && KeepsForeign(s0, st.mem)
      {
        k := k - 1;
        Split(block, k, c);
        c := Lower(c);
      }
    }

    /** The end of phys_alloc_internal: the block is the caller's. */
    method Give(block: nat, ghost c: Block)
      requires Holding({c}) && block == HeadOf(c)
      modifies this, bits
      ensures Holding({}) && Zeroed(st, c) && c !in old(st).live && block < |old(st).bits|
      ensures st == old(st).(live := old(st).live + {c}, bits := old(st).bits[block := false])
    {
      Open({c});
      HandZeroed(st, c);
      ghost var t := GiveStep(st, c);
      bits[block] := false;
      st := t;
      Fold({});
    }

    /** phys_alloc_internal after the commit: take a block of level at and split it down to the level. */
    method Carve(level: nat, at: nat) returns (block: nat, ghost c: Block, ghost b: Block)
      requires Holding({}) && level <= at < |lists| && lists[at] != []
      modifies this, bits, mem
      ensures Holding({}) && c.k == level && block == HeadOf(c) == old(lists[at][0])
      ensures c !in old(st).live && st.live == old(st).live + {c} && st.managed == old(st).managed
      ensures Zeroed(st, c) && KeepsForeign(old(st), st.mem)
      ensures b in old(st).free && b.k == at && In(block, b)
    {
      ghost var s0 := st;
      block, b := Take(at);
      c := SplitDown(block, level, at, b, s0);
      Give(block, c);
    }

    /** One round of the merging loop: the free buddy joins the block in hand. */
    method Merge(neighbor: nat, level: nat, ghost b: Block)
      requires Holding({b}) && b.k == level < LEVELS - 1 && neighbor == HeadOf(Buddy(b)) && Buddy(b) in st.free
      modifies this, mem
      ensures Holding({Parent(b)}) && neighbor < |old(st).mem|
      ensures st == old(st).(free := old(st).free - {Buddy(b)}, mem := old(st).mem[neighbor := Zero]) && KeepsForeign(old(st), st.mem)
    {
      Open({b});
      HeadIn(Buddy(b));
      NotForeign(st, {b}, Buddy(b), neighbor);
      ghost var t := MergeStep(st, b);
      var i := Position(lists[level], neighbor);
      ListDel(lists, st.free, Buddy(b), i);
      lists := lists[level := lists[level][..i] + lists[level][i + 1..]];
      mem[neighbor] := Zero;
      st := t;
      Fold({Parent(b)});
    }

    /** The end of phys_free_internal: the block goes on its list. */
    method Put(ptr: nat, level: nat, ghost b: Block)
      requires Holding({b}) && b.k == level && ptr == HeadOf(b) && (level < LEVELS - 1 ==> Buddy(b) !in st.free)
      modifies this, bits, mem
      ensures Holding({}) && ptr < |old(st).mem| && ptr < |old(st).bits|
      ensures st == old(st).(free := old(st).free + {b}, bits := old(st).bits[ptr := true], mem := old(st).mem[ptr := Header(level)])
      ensures KeepsForeign(old(st), st.mem)
    {
      Open({b});
      HeadIn(b);
      NotForeign(st, {b}, b, ptr);
      ghost var t := PutStep(st, b);
      ListAdd(lists, st.free, b);
      mem[ptr] := Header(level);
      lists := lists[level := [ptr] + lists[level]];
      bits[ptr] := true;
      st := t;
      Fold({});
    }

    /** memset of an allocated block. */
    method Clear(ptr: nat, n: nat, ghost b: Block)
      requires Holding({}) && b in st.live && ptr == HeadOf(b) && n == Size(b.k)
      modifies this`st, mem
      ensures Holding({}) && Zeroed(st, b)
      ensures st == old(st).(mem := st.mem) && KeepsForeign(old(st).(live := old(st).live - {b}), st.mem)
    {
      ghost var s := st;
      Open({});
      LiveInRange(s, b);
      assert ptr + n <= mem.Length;
      for k := ptr to ptr + n
        invariant forall u: nat :: u < mem.Length ==> mem[u] == if ptr <= u < k then Zero else s.mem[u]
      {
        mem[k] := Zero;
      }
      forall u: nat
        ensures In(u, b) <==> ptr <= u < ptr + n
      {
        InRange(u, b.k, b.i);
      }
      NotIn(s, b);
      ghost var t := WriteStep(s, mem[..]);
      st := t;
      Fold({});
    }

    /** memset of memory that is not managed yet. */
    method ClearRange(lo: nat, hi: nat)
      requires Holding({}) && lo <= hi <= mem.Length && forall u :: lo <= u < hi ==> u !in st.managed
      modifies this`st, mem
      ensures Holding({}) && st == old(st).(mem := st.mem) && |st.mem| == |old(st).mem|
      ensures forall u: nat :: u < |st.mem| ==> st.mem[u] == if lo <= u < hi then Zero else old(st).mem[u]
    {
      ghost var s := st;
      Open({});
      for k := lo to hi
        invariant forall u: nat :: u < mem.Length ==> mem[u] == if lo <= u < k then Zero else s.mem[u]
      {
        mem[k] := Zero;
      }
      ghost var t := WriteStep(s, mem[..]);
      st := t;
      Fold({});
    }

    /** phys_free_internal for a block of new memory. */
    method AddBlock(ptr: nat, level: nat, ghost b: Block) returns (merged: nat)
      requires Holding({}) && b.k == level < LEVELS && ptr == HeadOf(b)
      requires Untouched(st, b)
      modifies this, bits, mem
      ensures Holding({}) && st.live == old(st).live && st.managed == old(st).managed + Units(b.k, b.i)
      ensures KeepsForeign(old(st).(managed := st.managed), st.mem)
    {
      Open({});
      ghost var t := ExtendStep(st, b);
      st := t;
      Fold({b});
      ghost var m;
      merged, m := MergeUp(ptr, level, b, t);
    }

    /** The owner of a block stores into it. */
    method Store(u: nat, x: Unit, ghost b: Block)
      requires Holding({}) && b in st.live && In(u, b)
      modifies this`st, mem
      ensures u < |old(st).mem| && Holding({}) && st == old(st).(mem := old(st).mem[u := x])
    {
      Open({});
      LiveInRange(st, b);
      InRange(u, b.k, b.i);
      NotIn(st, b);
      ghost var t := WriteStep(st, st.mem[u := x]);
      mem[u] := x;
      st := t;
      Fold({});
    }

    /** The start of phys_free_internal for an allocated block: the assertion holds, and the bit is set. */
    method Release(ptr: nat, ghost b: Block)
      requires Holding({}) && b in st.live && ptr == HeadOf(b) && Zeroed(st, b)
      modifies this`st, bits
      ensures ptr < |old(st).bits| && ptr < bits.Length && !old(bits[ptr]) && Holding({b})
      ensures st == old(st).(live := old(st).live - {b}, bits := old(st).bits[ptr := true])
    {
      Open({});
      ghost var t := ReleaseStep(st, b);
      assert !bits[ptr];
      bits[ptr] := true;
      st := t;
      Fold({b});
    }

    /** The merging loop of phys_free_internal and what follows it. */
    method MergeUp(start: nat, from: nat, ghost b: Block, ghost s0: State) returns (level: nat, ghost m: Block)
      requires Holding({b}) && b.k == from && start == HeadOf(b)
      requires st.live == s0.live && st.managed == s0.managed && KeepsForeign(s0, st.mem)
      modifies this, bits, mem
      ensures Holding({}) && m in st.free && m.k == level && In(start, m) && from <= level
      ensures st.live == s0.live && st.managed == s0.managed && KeepsForeign(s0, st.mem)
    {
      var ptr := start;
      level, m := from, b;
      HeadIn(b);
      while level < LEVELS - 1
        invariant Holding({m}) && m.k == level && ptr == HeadOf(m) && In(start, m) && from <= level
        invariant st.live == s0.live && st.managed == s0.managed && KeepsForeign(s0, st.mem)
      {
        var neighbor := XorBit(ptr, level);
        XorIsBuddy(m);
        assert MergeFacts(st, m) && bits[..] == st.bits && mem[..] == st.mem by {
          Open({m});
          MergeTest(st, m);
        }
        if !bits[neighbor] || mem[neighbor].level != level {
          break;
        }
        Merge(neighbor, level, m);
        ParentIs(m, start);
        BuddyOrder(m);
        if ptr > neighbor {
          ptr := neighbor;
        }
        level, m := level + 1, Parent(m);
      }
      Put(ptr, level, m);
    }
  }

  /** A unit of a block that is not allocated is the allocator's own. */
  lemma NotForeign(s: State, hand: set<Block>, b: Block, u: nat)
    requires Sound(s, hand) && b in s.free + hand && In(u, b)
    ensures u in s.managed && u < |s.mem| && !Foreign(s, u)
  {
    OpenSound(s, hand);
    var blocks := s.free + s.live + hand;
    assert b in blocks && forall a :: a in s.live ==> a in blocks && !In(u, a);
  }

  /** New memory, cleared. */
  ghost predicate Untouched(s: State, b: Block) {
    forall u :: u in Units(b.k, b.i) ==> u !in s.managed && u < |s.mem| && s.mem[u] == Zero
  }

  /** What MergeTest tells about the two arrays. */
  ghost predicate MergeFacts(s: State, b: Block) {
    var u := HeadOf(Buddy(b));
    && u < |s.mem| == |s.bits| && (s.bits[u] ==> s.mem[u].Header?)
    && (s.bits[u] && s.mem[u].level == b.k <==> Buddy(b) in s.free)
  }

  lemma LiveInRange(s: State, b: Block)
    requires Sound(s, {}) && b in s.live
    ensures HeadOf(b) + Size(b.k) <= |s.mem|
  {
    OpenSound(s, {});
    assert b in s.free + s.live + {};
    var u := HeadOf(b) + Size(b.k) - 1;
    InRange(u, b.k, b.i);
    assert u in s.managed;
  }

  lemma NotIn(s: State, b: Block)
    requires Sound(s, {}) && b in s.live
    ensures forall u: nat :: In(u, b) ==> u in s.managed && Foreign(s, u) && !Owned(s.live - {b}, u)
  {
    OpenSound(s, {});
    var blocks := s.free + s.live + {};
    assert b in blocks && forall a :: a in s.live ==> a in blocks;
  }

  lemma HandZeroed(s: State, c: Block)
    requires Sound(s, {c})
    ensures Zeroed(s, c) && HeadOf(c) < |s.mem|
  {
    OpenSound(s, {c});
    HeadIn(c);
    assert c in s.free + s.live + {c};
  }

  lemma SplitFresh(s: State, c: Block)
    requires Sound(s, {c}) && c.k > 0
    ensures Upper(c) !in s.free && c.k < LEVELS && !Foreign(s, HeadOf(Upper(c)))
  {
    OpenSound(s, {c});
    assert c in s.free + s.live + {c};
    SplitTiling(s.free + s.live + {c}, s.managed, c);
    HeadIn(Upper(c));
    Halves(c, HeadOf(Upper(c)));
    NotForeign(s, {c}, c, HeadOf(Upper(c)));
  }
}
