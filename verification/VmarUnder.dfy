/** Which vmar is nested in which (src/mem/vmar.c): the relation of the `parent` fields. */
module VmarUnder {
  import opened VmarNode

  type Parents = map<Vmar, Vmar>

  ghost predicate AreUps(up: Parents, all: set<Vmar>)
    reads all`parent
  {
    up.Keys == (set v | v in all && v.parent != null) && forall v :: v in up ==> up[v] == v.parent
  }

  lemma UpsExist(all: set<Vmar>)
    ensures exists up: Parents :: AreUps(up, all)
  {
    assert AreUps(map v | v in all && v.parent != null :: v.parent, all);
  }

  /** The region each linked vmar is a child of. */
  ghost function Ups(all: set<Vmar>): (up: Parents)
    reads all`parent
    ensures up.Keys == (set v | v in all && v.parent != null) && forall v :: v in up ==> up[v] == v.parent
  {
    UpsExist(all);
    var up: Parents :| AreUps(up, all);
    up
  }

  /** u is a child of a, a child of a child, and so on. */
  ghost predicate Under(up: Parents, depth: map<Vmar, nat>, a: Vmar, u: Vmar)
    decreases if u in depth then depth[u] else 0
  {
    && u in up && u in depth && up[u] in depth && depth[up[u]] < depth[u]
    && (up[u] == a || Under(up, depth, a, up[u]))
  }

  ghost predicate AtOrUnder(up: Parents, depth: map<Vmar, nat>, a: Vmar, u: Vmar) {
    u == a || Under(up, depth, a, u)
  }

  lemma {:induction false} UnderTrans(up: Parents, depth: map<Vmar, nat>, a: Vmar, b: Vmar, u: Vmar)
    requires Under(up, depth, a, b) && Under(up, depth, b, u)
    ensures Under(up, depth, a, u)
    decreases depth[u]
  {
    if up[u] != b {
      UnderTrans(up, depth, a, b, up[u]);
    }
  }

  lemma {:induction false} UnderDeeper(up: Parents, depth: map<Vmar, nat>, a: Vmar, u: Vmar)
    requires Under(up, depth, a, u)
    ensures a in depth && depth[a] < depth[u]
    decreases depth[u]
  {
    if up[u] != a {
      UnderDeeper(up, depth, a, up[u]);
    }
  }

  /** The child of a on the way to u. */
  lemma {:induction false} TopStep(up: Parents, depth: map<Vmar, nat>, a: Vmar, u: Vmar) returns (c: Vmar)
    requires Under(up, depth, a, u)
    ensures c in up && up[c] == a && AtOrUnder(up, depth, c, u)
    decreases depth[u]
  {
    if up[u] == a {
      return u;
    }
    c := TopStep(up, depth, a, up[u]);
  }

  // ----- taking vmars away -----

  /** The part of the map outside `gone`. */
  ghost function Minus(up: Parents, gone: set<Vmar>): Parents {
    up - gone
  }

  ghost function Below(up: Parents, depth: map<Vmar, nat>, v: Vmar): set<Vmar> {
    set u | u in up && Under(up, depth, v, u)
  }

  /** With a vmar, everything under it is gone. */
  ghost predicate Closed(up: Parents, gone: set<Vmar>) {
    forall u :: u in up && up[u] in gone ==> u in gone
  }

  lemma {:induction false} UnderMinus(up: Parents, gone: set<Vmar>, depth: map<Vmar, nat>, a: Vmar, u: Vmar)
    requires Under(Minus(up, gone), depth, a, u)
    ensures Under(up, depth, a, u)
    decreases depth[u]
  {
    var up1 := Minus(up, gone);
    if up1[u] != a {
      UnderMinus(up, gone, depth, a, up1[u]);
    }
  }

  /** Removing a child of v and all below it, after `gone`. */
  lemma MoreGone(up: Parents, depth: map<Vmar, nat>, v: Vmar, gone: set<Vmar>, child: Vmar, gone': set<Vmar>)
    requires Closed(up, gone) && gone <= Below(up, depth, v)
    requires var up1 := Minus(up, gone);
             child in up1 && up1[child] == v && Under(up, depth, v, child) && gone' == gone + {child} + Below(up1, depth, child)
    requires forall u :: u in up ==> u in depth && up[u] in depth && depth[up[u]] < depth[u]
    ensures Closed(up, gone') && gone' <= Below(up, depth, v)
  {
    var up1 := Minus(up, gone);
    forall u | u in Below(up1, depth, child)
      ensures u in Below(up, depth, v)
    {
      UnderMinus(up, gone, depth, child, u);
      UnderTrans(up, depth, v, child, u);
    }
    forall u | u in up && up[u] in gone'
      ensures u in gone'
    {
      if u !in gone {
        assert u in up1 && up1[u] == up[u];
      }
    }
  }

  /** When v has no child left, all that was below it is gone. */
  lemma {:induction false} AllGone(up: Parents, depth: map<Vmar, nat>, v: Vmar, gone: set<Vmar>, u: Vmar)
    requires Closed(up, gone) && forall c :: c in up && c !in gone ==> up[c] != v
    requires Under(up, depth, v, u)
    ensures u in gone
    decreases depth[u]
  {
    if up[u] != v {
      AllGone(up, depth, v, gone, up[u]);
    }
  }

  lemma MinusMinus(up: Parents, a: set<Vmar>, b: set<Vmar>)
    ensures Minus(Minus(up, a), b) == Minus(up, a + b)
  {
  }

  // ----- putting a vmar below another -----

  /** The depths of the vmars in s are larger by k. */
  ghost predicate Moved(depth: map<Vmar, nat>, d: map<Vmar, nat>, s: set<Vmar>, k: nat) {
    d.Keys == depth.Keys && forall v :: v in depth ==> d[v] == depth[v] + if v in s then k else 0
  }

  lemma Deepened(depth: map<Vmar, nat>, s: set<Vmar>, k: nat) returns (d: map<Vmar, nat>)
    ensures Moved(depth, d, s, k)
  {
    d := map v | v in depth :: depth[v] + if v in s then k else 0;
  }

  /** Every vmar lies deeper than the region it is a child of. */
  ghost predicate Ranked(up: Parents, depth: map<Vmar, nat>) {
    forall v :: v in up ==> v in depth && up[v] in depth && depth[up[v]] < depth[v]
  }

  /** Moving child, and what is under it, below parent keeps the vmars ranked. */
  lemma RankedWith(up: Parents, depth: map<Vmar, nat>, d: map<Vmar, nat>, child: Vmar, parent: Vmar)
    requires Ranked(up, depth) && child in depth && child !in up && parent in depth && !AtOrUnder(up, depth, child, parent)
    requires Moved(depth, d, {child} + Below(up, depth, child), depth[parent] + 1)
    ensures Ranked(up[child := parent], d)
  {
    var s := {child} + Below(up, depth, child);
    forall v | v in up
      ensures d[up[v]] < d[v]
    {
      assert v in s <==> up[v] in s by {
        assert Under(up, depth, child, v) <==> up[v] == child || Under(up, depth, child, up[v]);
      }
    }
  }

  /** What is under child lies deeper, in any ranking in which all the old links are still there. */
  lemma {:induction false} RankUnder(up: Parents, depth: map<Vmar, nat>, up': Parents, d: map<Vmar, nat>, child: Vmar, u: Vmar)
    requires Under(up, depth, child, u) && Ranked(up', d) && forall v :: v in up ==> v in up' && up'[v] == up[v]
    ensures child in d && u in d && d[child] < d[u]
    decreases depth[u]
  {
    if up[u] != child {
      RankUnder(up, depth, up', d, child, up[u]);
    }
  }

  /** Linking an unlinked child into a parent that is neither the child nor under it leaves a ranking; otherwise there
      is a cycle, and none is left. */
  lemma LinkRanked(up: Parents, depth: map<Vmar, nat>, child: Vmar, parent: Vmar, any: map<Vmar, nat>) returns (d: map<Vmar, nat>)
    requires Ranked(up, depth) && child in depth && child !in up && parent in depth
    ensures if AtOrUnder(up, depth, child, parent) then !Ranked(up[child := parent], any) else Ranked(up[child := parent], d)
  {
    var up' := up[child := parent];
    d := Deepened(depth, {child} + Below(up, depth, child), depth[parent] + 1);
    if !AtOrUnder(up, depth, child, parent) {
      RankedWith(up, depth, d, child, parent);
    } else if Ranked(up', any) {
      assert child in up' && any[parent] < any[child];
      if parent != child {
        RankUnder(up, depth, up', any, child, parent);
      }
      assert false;
    }
  }

  lemma {:induction false} NotUnder(up: Parents, depth: map<Vmar, nat>, a: Vmar, u: Vmar)
    requires (forall v :: v in up ==> up[v] != a) && Under(up, depth, a, u)
    ensures false
    decreases depth[u]
  {
    if up[u] != a {
      NotUnder(up, depth, a, up[u]);
    }
  }

  /** Nothing is under a vmar that is nobody's parent. */
  lemma NothingUnder(up: Parents, depth: map<Vmar, nat>, a: Vmar)
    requires forall v :: v in up ==> up[v] != a
    ensures forall u :: !Under(up, depth, a, u)
  {
    forall u
      ensures !Under(up, depth, a, u)
    {
      if Under(up, depth, a, u) {
        NotUnder(up, depth, a, u);
      }
    }
  }
}
