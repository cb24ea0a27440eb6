/** The address space as a machine on ranges (src/mem/vmar.c): what each call does, told without trees, links or
    gaps. */
module VmarMachine {
  import opened VmarNode
  import opened RbTree
  import opened RbLinked
  import opened VmarGaps
  import opened VmarUnder

  /** A call.  Vmars are named by the order in which they came to be, the root is 0; a call on one that did
      not come to be does nothing. */
  datatype Command =
    | Link(parent: nat, first: nat, pages: nat, kind: Kind, locked: bool)
    | Allocate(parent: nat, offset: nat, pageCount: nat, allocOk: bool)
    | Map(parent: nat, offset: nat, pageCount: nat, allocOk: bool, reserveOk: bool)
    | Unmap(target: nat)

  /** The vmars so far, the region each linked one is in, the unmapped ones, the regions, the special and the locked
      ones, and all ranges. */
  datatype Shot = Shot(vmars: seq<Vmar>, up: Parents, dead: set<Vmar>, regions: set<Vmar>, special: set<Vmar>, locked: set<Vmar>, sp: Ranges)

  ghost function Start(root: Vmar, first: nat, pages: nat): Shot {
    Shot([root], map[], {}, {root}, {}, {}, map[root := Span(first, first + pages)])
  }

  /** k pages from `page` are inside region p and touch nothing that is linked into it. */
  ghost predicate Vacant(s: Shot, p: Vmar, page: nat, k: nat) {
    && p in s.sp && s.sp[p].first <= page && page + k <= s.sp[p].end
    && forall v :: v in s.up && s.up[v] == p ==> v in s.sp && (page + k <= s.sp[v].first || s.sp[v].end <= page)
  }

  /** The page a call with this offset wants: the least vacant one, or the fixed one if it is vacant. */
  ghost predicate Wants(s: Shot, p: Vmar, offset: nat, k: nat, page: nat) {
    && Vacant(s, p, page, k)
    && if offset == 0xFFFF_FFFF_FFFF_FFFF then forall q: nat :: Vacant(s, p, q, k) ==> page <= q
       else offset % 4096 == 0 && page == s.sp[p].first + offset / 4096
  }

  /** A new vmar at the page, linked into p. */
  ghost predicate Grew(s: Shot, s': Shot, p: Vmar, page: nat, k: nat, kind: Kind, locked: bool) {
    && |s'.vmars| == |s.vmars| + 1
    && var child := s'.vmars[|s.vmars|];
    && child !in s.sp
    && s' == Shot(s.vmars + [child], s.up[child := p], s.dead,
                  if kind.Region? then s.regions + {child} else s.regions,
                  if kind.Special? then s.special + {child} else s.special,
                  if locked then s.locked + {child} else s.locked,
                  s.sp[child := Span(page, page + k)])
  }

  /** A placing call: it places a new vmar if it can, and changes nothing otherwise. */
  ghost predicate Placing(s: Shot, s': Shot, parent: nat, offset: nat, k: nat, memoryOk: bool, kind: Kind) {
    if parent < |s.vmars| && s.vmars[parent] in s.regions && s.vmars[parent] !in s.dead && k != 0 && memoryOk
       && exists page :: Wants(s, s.vmars[parent], offset, k, page)
    then exists page :: Wants(s, s.vmars[parent], offset, k, page) && Grew(s, s', s.vmars[parent], page, k, kind, false)
    else s' == s
  }

  /** u is v, or n or fewer steps up from u is v. */
  ghost predicate Within(up: Parents, v: Vmar, u: Vmar, n: nat) {
    u == v || (n > 0 && u in up && Within(up, v, up[u], n - 1))
  }

  /** v and all that is linked into it, directly or not. */
  ghost function Family(up: Parents, v: Vmar): set<Vmar> {
    set u | u in up && exists n: nat :: Within(up, v, u, n)
  }

  /** What a call does; stop if an assertion fails. */
  ghost predicate Does(c: Command, s: Shot, s': Shot, stop: bool) {
    match c
    case Link(parent, first, pages, kind, locked) =>
      if parent >= |s.vmars| then !stop && s' == s
      else if s.vmars[parent] in s.regions && Vacant(s, s.vmars[parent], first, pages)
      then !stop && Grew(s, s', s.vmars[parent], first, pages, kind, locked)
      else stop && s' == s
    case Allocate(parent, offset, k, allocOk) => !stop && Placing(s, s', parent, offset, k, allocOk, Region)
    case Map(parent, offset, k, allocOk, reserveOk) => !stop && Placing(s, s', parent, offset, k, allocOk && reserveOk, Mapping)
    case Unmap(target) =>
      if target >= |s.vmars| || s.vmars[target] in s.dead then !stop && s' == s
      else if s.vmars[target] !in s.up then stop && s' == s
      else
        var family, gone := Family(s.up, s.vmars[target]), s.up.Keys - s'.up.Keys;
        && s' == s.(up := Minus(s.up, gone), dead := s.dead + gone)
        // the assertions on what is unmapped: that it is not marked, not locked and not special
        && if family !! s.dead + s.locked + s.special then !stop && gone == family
           else stop && gone <= family - {s.vmars[target]}
  }

  ghost predicate FollowsAt(k: int, c: Command, s: Shot, s': Shot, stop: bool) {
    k == 0 ==> Does(c, s, s', stop)
  }

  /** Does, closed to proofs that only pass it on. */
  ghost predicate Follows(c: Command, s: Shot, s': Shot, stop: bool) {
    forall k :: FollowsAt(k, c, s, s', stop)
  }

  /** The calls made so far, one after another; if the last one stopped, there are no more. */
  ghost predicate IsRun(commands: seq<Command>, trace: seq<Shot>, stop: bool) {
    && 0 < |trace| <= |commands| + 1 && (stop ==> |trace| > 1)
    && forall i :: 0 <= i < |trace| - 1 ==> Follows(commands[i], trace[i], trace[i + 1], stop && i == |trace| - 2)
  }

  lemma RunOn(commands: seq<Command>, trace: seq<Shot>, s: Shot, stop: bool)
    requires IsRun(commands, trace, false) && |trace| <= |commands|
    requires Follows(commands[|trace| - 1], trace[|trace| - 1], s, stop)
    ensures IsRun(commands, trace + [s], stop)
  {
    var t := trace + [s];
    forall i | 0 <= i < |t| - 1
      ensures Follows(commands[i], t[i], t[i + 1], stop && i == |t| - 2)
    {
      assert i < |trace| - 1 ==> t[i + 1] == trace[i + 1] && Follows(commands[i], trace[i], trace[i + 1], false);
    }
  }

  ghost predicate TracksAt(k: int, commands: seq<Command>, trace: seq<Shot>, stop: bool, start: Shot, s: Shot) {
    k == 0 ==> IsRun(commands, trace, stop) && trace[0] == start && trace[|trace| - 1] == s
  }

  /** A run from start to s, closed to the loop that only passes it on. */
  ghost predicate Tracks(commands: seq<Command>, trace: seq<Shot>, stop: bool, start: Shot, s: Shot) {
    forall k :: TracksAt(k, commands, trace, stop, start, s)
  }

  lemma TrackOn(commands: seq<Command>, trace: seq<Shot>, stop: bool, start: Shot, s: Shot, s': Shot)
    requires Tracks(commands, trace, false, start, s) && 0 < |trace| <= |commands| && Follows(commands[|trace| - 1], s, s', stop)
    ensures Tracks(commands, trace + [s'], stop, start, s')
  {
    assert TracksAt(0, commands, trace, false, start, s);
    RunOn(commands, trace, s', stop);
  }
}
