/** The interleavings of the page accounting (src/mem/accounting.c): every load, compare-exchange, fetch-add and
    fetch-sub of every thread is one step.  A thread may only give back pages that it holds; it may hold them because
    another thread that took them handed them over. */
module Accounting {

  datatype Counter = Available | Reserved | Committed

  datatype Seen = Nothing | Value(n: int)

  /** Where a thread is in a call: trying to take n available pages for the counter `goal`, or on its way
      with n pages between two counters. */
  datatype Pc = Idle | Trying(n: nat, goal: Counter, seen: Seen) | Moving(n: nat, to: Counter)

  datatype Thread = Thread(pc: Pc, reserved: nat, committed: nat)

  datatype Sys = Sys(available: int, reserved: int, committed: int, total: int, threads: seq<Thread>)

  datatype Call =
    | Reserve(n: nat)
    | Unreserve(n: nat)
    | AddTotal(n: nat)
    | AddCommitted(n: nat)
    | Commit(n: nat)
    | CommitReserved(n: nat)
    | Uncommit(n: nat)
    | UncommitToReserved(n: nat)

  datatype Action =
    | Enter(call: Call)
    | Load
    | CompareExchange(spurious: bool)
    | GiveUp
    | FetchAdd
    | Handover(to: nat, reserved: nat, committed: nat)

  /** What the thread must hold to make the call. */
  predicate MayCall(t: Thread, c: Call) {
    match c
    case Unreserve(n) => n <= t.reserved
    case CommitReserved(n) => n <= t.reserved
    case Uncommit(n) => n <= t.committed
    case UncommitToReserved(n) => n <= t.committed
    case _ => true
  }

  predicate Enabled(s: Sys, i: nat, a: Action) {
    i < |s.threads| &&
    var t := s.threads[i];
    match a
    case Enter(c) => t.pc.Idle? && MayCall(t, c)
    case Load => t.pc.Trying? && t.pc.seen.Nothing?
    case CompareExchange(_) => t.pc.Trying? && t.pc.seen.Value? && t.pc.seen.n >= t.pc.n
    case GiveUp => t.pc.Trying? && t.pc.seen.Value? && t.pc.seen.n < t.pc.n
    case FetchAdd => t.pc.Moving?
    case Handover(to, reserved, committed) => to < |s.threads| && to != i && reserved <= t.reserved && committed <= t.committed
  }

  /** The first atomic operation of a call; for reserve and commit that is the load still to come. */
  function Entered(s: Sys, i: nat, c: Call): Sys
    requires i < |s.threads| && MayCall(s.threads[i], c)
  {
    var t := s.threads[i];
    match c
    case Reserve(n) => s.(threads := s.threads[i := t.(pc := Trying(n, Reserved, Nothing))])
    case Commit(n) => s.(threads := s.threads[i := t.(pc := Trying(n, Committed, Nothing))])
    case Unreserve(n) =>
      s.(reserved := s.reserved - n, threads := s.threads[i := Thread(Moving(n, Available), t.reserved - n, t.committed)])
    case CommitReserved(n) =>
      s.(reserved := s.reserved - n, threads := s.threads[i := Thread(Moving(n, Committed), t.reserved - n, t.committed)])
    case Uncommit(n) =>
      s.(committed := s.committed - n, threads := s.threads[i := Thread(Moving(n, Available), t.reserved, t.committed - n)])
    case UncommitToReserved(n) =>
      s.(committed := s.committed - n, threads := s.threads[i := Thread(Moving(n, Reserved), t.reserved, t.committed - n)])
    case AddTotal(n) => s.(total := s.total + n, threads := s.threads[i := t.(pc := Moving(n, Available))])
    case AddCommitted(n) => s.(total := s.total + n, threads := s.threads[i := t.(pc := Moving(n, Committed))])
  }

  function Next(s: Sys, i: nat, a: Action): Sys
    requires Enabled(s, i, a)
  {
    var t := s.threads[i];
    match a
    case Enter(c) => Entered(s, i, c)
    case Load => s.(threads := s.threads[i := t.(pc := t.pc.(seen := Value(s.available)))])
    case GiveUp => s.(threads := s.threads[i := t.(pc := Idle)])
    case CompareExchange(spurious) =>
      if s.available == t.pc.seen.n && !spurious
      then s.(available := s.available - t.pc.n, threads := s.threads[i := t.(pc := Moving(t.pc.n, t.pc.goal))])
      else s.(threads := s.threads[i := t.(pc := t.pc.(seen := Value(s.available)))])
    case Handover(to, reserved, committed) => s.(threads := Handed(s.threads, i, to, reserved, committed))
    case FetchAdd =>
      match t.pc.to
      case Available => s.(available := s.available + t.pc.n, threads := s.threads[i := t.(pc := Idle)])
      case Reserved =>
        s.(reserved := s.reserved + t.pc.n, threads := s.threads[i := Thread(Idle, t.reserved + t.pc.n, t.committed)])
      case Committed =>
        s.(committed := s.committed + t.pc.n, threads := s.threads[i := Thread(Idle, t.reserved, t.committed + t.pc.n)])
  }

  /** Pages that thread i holds are thread j's to give back; no counter changes. */
  function Handed(ts: seq<Thread>, i: nat, j: nat, reserved: nat, committed: nat): seq<Thread>
    requires i < |ts| && j < |ts| && i != j && reserved <= ts[i].reserved && committed <= ts[i].committed
  {
    var t, u := ts[i], ts[j];
    ts[i := t.(reserved := t.reserved - reserved, committed := t.committed - committed)]
      [j := u.(reserved := u.reserved + reserved, committed := u.committed + committed)]
  }

  // ----- the invariant -----

  function Sum(ts: seq<Thread>, f: Thread -> nat): nat {
    if ts == [] then 0 else Sum(ts[..|ts| - 1], f) + f(ts[|ts| - 1])
  }

  function InFlight(t: Thread): nat {
    if t.pc.Moving? then t.pc.n else 0
  }

  function HoldsReserved(t: Thread): nat {
    t.reserved
  }

  function HoldsCommitted(t: Thread): nat {
    t.committed
  }

  lemma {:induction false} SumUpdate(ts: seq<Thread>, f: Thread -> nat, i: nat, t: Thread)
    requires i < |ts|
    ensures Sum(ts[i := t], f) == Sum(ts, f) - f(ts[i]) + f(t) && f(ts[i]) <= Sum(ts, f)
  {
    var n := |ts| - 1;
    if i < n {
      SumUpdate(ts[..n], f, i, t);
      assert ts[i := t][..n] == ts[..n][i := t];
    } else {
      assert ts[i := t][..n] == ts[..n];
    }
  }

  /** Pages are only ever moved, and the counters are what the threads hold. */
  ghost predicate Inv(s: Sys) {
    && s.available >= 0
    && s.available + s.reserved + s.committed + Sum(s.threads, InFlight) == s.total
    && s.reserved == Sum(s.threads, HoldsReserved)
    && s.committed == Sum(s.threads, HoldsCommitted)
  }

  ghost predicate Initial(s: Sys) {
    && s.available == s.reserved == s.committed == s.total == 0
    && forall t :: t in s.threads ==> t == Thread(Idle, 0, 0)
  }

  lemma {:induction false} SumZero(ts: seq<Thread>, f: Thread -> nat)
    requires forall t :: t in ts ==> f(t) == 0
    ensures Sum(ts, f) == 0
  {
    if ts != [] {
      SumZero(ts[..|ts| - 1], f);
    }
  }

  lemma InitialInv(s: Sys)
    requires Initial(s)
    ensures Inv(s)
  {
    SumZero(s.threads, InFlight);
    SumZero(s.threads, HoldsReserved);
    SumZero(s.threads, HoldsCommitted);
  }

  lemma HandoverInv(s: Sys, i: nat, j: nat, reserved: nat, committed: nat)
    requires Inv(s) && Enabled(s, i, Handover(j, reserved, committed))
    ensures Inv(s.(threads := Handed(s.threads, i, j, reserved, committed)))
  {
    var ts := Handed(s.threads, i, j, reserved, committed);
    var mid := s.threads[i := ts[i]];
    SumUpdate(s.threads, InFlight, i, ts[i]);
    SumUpdate(s.threads, HoldsReserved, i, ts[i]);
    SumUpdate(s.threads, HoldsCommitted, i, ts[i]);
    SumUpdate(mid, InFlight, j, ts[j]);
    SumUpdate(mid, HoldsReserved, j, ts[j]);
    SumUpdate(mid, HoldsCommitted, j, ts[j]);
  }

  lemma StepInv(s: Sys, i: nat, a: Action)
    requires Inv(s) && Enabled(s, i, a)
    ensures Inv(Next(s, i, a))
  {
    if a.Handover? {
      HandoverInv(s, i, a.to, a.reserved, a.committed);
      return;
    }
    var s' := Next(s, i, a);
    var t' := s'.threads[i];
    assert s'.threads == s.threads[i := t'];
    SumUpdate(s.threads, InFlight, i, t');
    SumUpdate(s.threads, HoldsReserved, i, t');
    SumUpdate(s.threads, HoldsCommitted, i, t');
  }

  // ----- runs -----

  datatype Event = Event(thread: nat, action: Action)

  ghost predicate IsRun(states: seq<Sys>, events: seq<Event>) {
    && |states| == |events| + 1 && Initial(states[0])
    && forall k :: 0 <= k < |events| ==>
         Enabled(states[k], events[k].thread, events[k].action)
         && states[k + 1] == Next(states[k], events[k].thread, events[k].action)
  }

  lemma {:induction false} RunInv(states: seq<Sys>, events: seq<Event>, k: nat)
    requires IsRun(states, events) && k < |states|
    ensures Inv(states[k])
  {
    if k == 0 {
      InitialInv(states[0]);
    } else {
      RunInv(states, events, k - 1);
      StepInv(states[k - 1], events[k - 1].thread, events[k - 1].action);
    }
  }

  /** Under every interleaving the counters are never negative and never exceed the total, and they add up to it
      when no call is under way. */
  lemma RunBalanced(states: seq<Sys>, events: seq<Event>, k: nat)
    requires IsRun(states, events) && k < |states|
    ensures var s := states[k];
            && s.available >= 0 && s.reserved >= 0 && s.committed >= 0
            && s.available + s.reserved + s.committed <= s.total
            && ((forall t :: t in s.threads ==> t.pc.Idle?) ==> s.available + s.reserved + s.committed == s.total)
  {
    RunInv(states, events, k);
    var s := states[k];
    if forall t :: t in s.threads ==> t.pc.Idle? {
      SumZero(s.threads, InFlight);
    }
  }

  /** checked_atomic_sub never fails its assertion: the old value covers what is subtracted. */
  lemma NoUnderflow(s: Sys, i: nat, c: Call)
    requires Inv(s) && Enabled(s, i, Enter(c))
    ensures c.Unreserve? || c.CommitReserved? ==> s.reserved >= c.n
    ensures c.Uncommit? || c.UncommitToReserved? ==> s.committed >= c.n
  {
    SumUpdate(s.threads, HoldsReserved, i, s.threads[i]);
    SumUpdate(s.threads, HoldsCommitted, i, s.threads[i]);
  }

  // ----- the compare-exchange loop is atomic -----

  /** Thread i is in a call that takes n pages. */
  ghost predicate TryingFor(s: Sys, i: nat, n: nat) {
    i < |s.threads| && s.threads[i].pc.Trying? && s.threads[i].pc.n == n
  }

  /** A value that thread i has seen was the number of available pages at a moment of this run, after its
      call began. */
  lemma {:induction false} SeenWasTrue(states: seq<Sys>, events: seq<Event>, k: nat, i: nat) returns (j: nat)
    requires IsRun(states, events) && k < |states| && i < |states[k].threads|
    requires states[k].threads[i].pc.Trying? && states[k].threads[i].pc.seen.Value?
    ensures j <= k && i < |states[j].threads| && states[j].available == states[k].threads[i].pc.seen.n
    ensures forall m :: j <= m <= k ==> TryingFor(states[m], i, states[k].threads[i].pc.n)
  {
    assert k > 0 by { assert states[k].threads[i] in states[k].threads; }
    var e, s := events[k - 1], states[k - 1];
    if e.thread == i && (e.action.Load? || e.action.CompareExchange?) {
      j := k - 1;
    } else {
      assert s.threads[i].pc == states[k].threads[i].pc;
      j := SeenWasTrue(states, events, k - 1, i);
    }
  }

  /** A call that is refused was right to be: at some moment of the call there were fewer pages available. */
  lemma RefusedRightly(states: seq<Sys>, events: seq<Event>, k: nat) returns (j: nat)
    requires IsRun(states, events) && k < |events| && events[k].action.GiveUp?
    ensures var i, n := events[k].thread, states[k].threads[events[k].thread].pc.n;
            j <= k && states[j].available < n && forall m :: j <= m <= k ==> TryingFor(states[m], i, n)
  {
    j := SeenWasTrue(states, events, k, events[k].thread);
  }

  /** mem_acct_take_available gives what it would give at once, at one moment of the call: whether there were enough
      pages then.  If there were, they are gone at that moment and on their way; if not, nothing has changed. */
  lemma TakenAtOnce(states: seq<Sys>, events: seq<Event>, k: nat) returns (j: nat)
    requires IsRun(states, events) && k < |events|
    requires var i := events[k].thread; states[k].threads[i].pc.Trying? && !states[k + 1].threads[i].pc.Trying?
    ensures var i, n := events[k].thread, states[k].threads[events[k].thread].pc.n;
            var pc, goal := states[k + 1].threads[i].pc, states[k].threads[i].pc.goal;
            && j <= k && (forall m :: j <= m <= k ==> TryingFor(states[m], i, n))
            && pc == (if states[j].available >= n then Moving(n, goal) else Idle)
            && states[k + 1].available == states[k].available - (if pc.Idle? then 0 else n)
            && (pc.Moving? ==> j == k)
  {
    if events[k].action.GiveUp? {
      j := RefusedRightly(states, events, k);
    } else {
      j := k;
    }
  }

  // ----- what a call does to the counters -----

  datatype Which = TheAvailable | TheReserved | TheCommitted | TheTotal

  function Amount(s: Sys, k: Which): int {
    match k
    case TheAvailable => s.available
    case TheReserved => s.reserved
    case TheCommitted => s.committed
    case TheTotal => s.total
  }

  /** What the steps of thread i alone added to counter k between two moments of a run. */
  function Own(states: seq<Sys>, events: seq<Event>, i: nat, k: Which, e: nat, f: nat): int
    requires |states| == |events| + 1 && e <= f <= |events|
  {
    if e == f then 0
    else Own(states, events, i, k, e, f - 1) + if events[f - 1].thread == i then Amount(states[f], k) - Amount(states[f - 1], k) else 0
  }

  function Added(n: int, k: Which, to: Which): int {
    if k == to then n else 0
  }

  /** What each call is for. */
  function Effect(c: Call, k: Which): int {
    match c
    case Reserve(n) => Added(n, k, TheReserved) - Added(n, k, TheAvailable)
    case Unreserve(n) => Added(n, k, TheAvailable) - Added(n, k, TheReserved)
    case AddTotal(n) => Added(n, k, TheAvailable) + Added(n, k, TheTotal)
    case AddCommitted(n) => Added(n, k, TheCommitted) + Added(n, k, TheTotal)
    case Commit(n) => Added(n, k, TheCommitted) - Added(n, k, TheAvailable)
    case CommitReserved(n) => Added(n, k, TheCommitted) - Added(n, k, TheReserved)
    case Uncommit(n) => Added(n, k, TheAvailable) - Added(n, k, TheCommitted)
    case UncommitToReserved(n) => Added(n, k, TheReserved) - Added(n, k, TheCommitted)
  }

  function To(to: Counter): Which {
    match to
    case Available => TheAvailable
    case Reserved => TheReserved
    case Committed => TheCommitted
  }

  /** A call under way: what it has added so far, and what is still to come. */
  predicate SoFar(c: Call, pc: Pc, k: Which, d: int) {
    match pc
    case Idle => false
    case Trying(n, goal, _) => (c.Reserve? || c.Commit?) && d == 0 && Added(n, k, To(goal)) - Added(n, k, TheAvailable) == Effect(c, k)
    case Moving(n, to) => d + Added(n, k, To(to)) == Effect(c, k)
  }

  /** Thread i makes the call at e and is in it until before f. */
  ghost predicate InCall(states: seq<Sys>, events: seq<Event>, i: nat, e: nat, f: nat, c: Call) {
    && IsRun(states, events) && e < f <= |events| && events[e] == Event(i, Enter(c))
    && forall m :: e < m < f ==> i < |states[m].threads| && !states[m].threads[i].pc.Idle?
  }

  lemma EnterSoFar(s: Sys, i: nat, c: Call, k: Which)
    requires Enabled(s, i, Enter(c))
    ensures var s' := Next(s, i, Enter(c)); SoFar(c, s'.threads[i].pc, k, Amount(s', k) - Amount(s, k))
  {
  }

  /** One step of the thread in its call. */
  lemma StepSoFar(s: Sys, i: nat, a: Action, c: Call, k: Which, d: int)
    requires Enabled(s, i, a) && SoFar(c, s.threads[i].pc, k, d)
    ensures var s' := Next(s, i, a);
            var pc, d' := s'.threads[i].pc, d + Amount(s', k) - Amount(s, k);
            if pc.Idle? then d' == (if a.GiveUp? then 0 else Effect(c, k)) && (a.GiveUp? ==> c.Reserve? || c.Commit?)
            else SoFar(c, pc, k, d')
  {
  }

  lemma OtherSoFar(s: Sys, j: nat, a: Action, i: nat)
    requires Enabled(s, j, a) && j != i && i < |s.threads|
    ensures Next(s, j, a).threads[i].pc == s.threads[i].pc
  {
  }

  lemma OwnLast(states: seq<Sys>, events: seq<Event>, i: nat, k: Which, e: nat, f: nat)
    requires IsRun(states, events) && e < f <= |events|
    ensures var v, s, s' := events[f - 1], states[f - 1], states[f];
            && Own(states, events, i, k, e, f) == Own(states, events, i, k, e, f - 1) + (if v.thread == i then Amount(s', k) - Amount(s, k) else 0)
            && Enabled(s, v.thread, v.action) && s' == Next(s, v.thread, v.action)
  {
  }

  lemma {:induction false} CallSoFar(states: seq<Sys>, events: seq<Event>, i: nat, e: nat, f: nat, c: Call, k: Which)
    requires InCall(states, events, i, e, f, c) && i < |states[f].threads| && !states[f].threads[i].pc.Idle?
    ensures SoFar(c, states[f].threads[i].pc, k, Own(states, events, i, k, e, f))
  {
    var s, v, d := states[f - 1], events[f - 1], Own(states, events, i, k, e, f - 1);
    OwnLast(states, events, i, k, e, f);
    if f == e + 1 {
      EnterSoFar(s, i, c, k);
    } else {
      CallSoFar(states, events, i, e, f - 1, c, k);
      if v.thread == i {
        StepSoFar(s, i, v.action, c, k, d);
      } else {
        OtherSoFar(s, v.thread, v.action, i);
      }
    }
  }

  /** Whatever the other threads do in the meantime: a call moves its pages between the counters it is for, and a call
      that is refused moves none.  Only the calls that take available pages are ever refused. */
  lemma CallDoes(states: seq<Sys>, events: seq<Event>, i: nat, e: nat, f: nat, c: Call, k: Which)
    requires InCall(states, events, i, e, f, c) && i < |states[f].threads| && states[f].threads[i].pc.Idle?
    ensures Own(states, events, i, k, e, f) == if events[f - 1].action.GiveUp? then 0 else Effect(c, k)
    ensures events[f - 1].action.GiveUp? ==> c.Reserve? || c.Commit?
  {
    var s, v := states[f - 1], events[f - 1];
    OwnLast(states, events, i, k, e, f);
    if f == e + 1 {
      EnterSoFar(s, i, c, k);
    } else {
      CallSoFar(states, events, i, e, f - 1, c, k);
      if v.thread == i {
        StepSoFar(s, i, v.action, c, k, Own(states, events, i, k, e, f - 1));
      } else {
        OtherSoFar(s, v.thread, v.action, i);
      }
    }
  }

  /** A call without any other thread in between: it is over after at most four steps, all of which can be made; it is
      refused exactly if it takes more pages than are available, and otherwise has its effect. */
  lemma RunAlone(s: Sys, i: nat, c: Call) returns (steps: seq<Action>, states: seq<Sys>)
    requires Enabled(s, i, Enter(c))
    ensures 1 < |steps| <= 4 && |states| == |steps| + 1 && states[0] == s && steps[0] == Enter(c)
    ensures forall m :: 0 <= m < |steps| ==> Enabled(states[m], i, steps[m]) && states[m + 1] == Next(states[m], i, steps[m])
    ensures var s' := states[|steps|];
            && i < |s'.threads| && s'.threads[i].pc.Idle?
            && forall k :: Amount(s', k) == Amount(s, k) + if (c.Reserve? || c.Commit?) && c.n > s.available then 0 else Effect(c, k)
  {
    var s1 := Next(s, i, Enter(c));
    if c.Reserve? || c.Commit? {
      var s2 := Next(s1, i, Load);
      if c.n > s.available {
        steps, states := [Enter(c), Load, GiveUp], [s, s1, s2, Next(s2, i, GiveUp)];
      } else {
        var s3 := Next(s2, i, CompareExchange(false));
        steps, states := [Enter(c), Load, CompareExchange(false), FetchAdd], [s, s1, s2, s3, Next(s3, i, FetchAdd)];
      }
    } else {
      steps, states := [Enter(c), FetchAdd], [s, s1, Next(s1, i, FetchAdd)];
    }
  }
}
