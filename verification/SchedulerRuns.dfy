/** What holds over every run of the scheduler (src/thread/sched.c, src/thread/thread.c). */
module SchedulerRuns {
  import opened Common
  import opened Scheduler

  /** Idle threads made ready by sched_init, one for every CPU, and nothing else. */
  ghost predicate Initial(s: Sys) {
    && |s.states| == |s.drops| == |s.cpus|
    && forall c :: 0 <= c < |s.cpus| ==>
         s.cpus[c].pc.Boot? && s.cpus[c].idle == c && s.cpus[c].queue == [] && s.cpus[c].action.NoAction?
         && s.states[c] == READY && s.drops[c] == 0
  }

  lemma InitialInv(s: Sys)
    requires Initial(s)
    ensures Inv(s)
  {
    forall t: nat | t < |s.states|
      ensures IsIdle(s, t) && s.states[t] == READY && s.drops[t] == 0
    {
      assert s.cpus[t].idle == t;
    }
    forall c | 0 <= c < |s.cpus|
      ensures CpuOk(s.cpus[c], s.states) && forall t: nat :: !On(s.cpus[c], t)
    {
      assert s.cpus[c].pc.Boot?;
    }
  }

  /** Every step keeps the invariant, and no assertion of the code fails. */
  lemma StepInv(s: Sys, c: nat, a: Action)
    requires Inv(s) && Enabled(s, c, a)
    ensures Inv(Next(s, c, a)) && Asserted(s, c, a)
  {
    var k := s.cpus[c];
    match a
    case Bootstrap => BootstrapInv(s, c);
    case Create => CreateInv(s);
    case Start(t) => OweInv(s, Next(s, c, a), c, t);
    case Unpark(t) =>
      if s.states[t] == PARKED {
        OweInv(s, Next(s, c, a), c, t);
      } else {
        var d :| 0 <= d < |s.cpus| && Pending(s.cpus[d]) && s.cpus[d].last == t;
        UnparkLeavingInv(s, c, t, d);
      }
    case Park => StateOnly(s, Next(s, c, a), c, k.current, PARKING);
    case AbortPark => StateOnly(s, Next(s, c, a), c, k.current, RUNNING);
    case Exit => ExitInv(s, c);
    case Enter => EnterInv(s, c);
    case LoadState => LoadStateInv(s, c);
    case StoreReady => StoreReadyInv(s, c);
    case QueuePut => QueuePutInv(s, c);
    case Select => SelectInv(s, c);
    case SwitchTo => SwitchToInv(s, c);
    case AfterSchedule => AfterScheduleInv(s, c);
  }

  datatype Event = Event(cpu: nat, action: Action)

  ghost predicate IsRun(run: seq<Sys>, events: seq<Event>) {
    && |run| == |events| + 1 && Initial(run[0])
    && forall i :: 0 <= i < |events| ==>
         Enabled(run[i], events[i].cpu, events[i].action) && run[i + 1] == Next(run[i], events[i].cpu, events[i].action)
  }

  lemma {:induction false} RunInv(run: seq<Sys>, events: seq<Event>, i: nat)
    requires IsRun(run, events) && i < |run|
    ensures Inv(run[i]) && (i < |events| ==> Asserted(run[i], events[i].cpu, events[i].action))
  {
    if i == 0 {
      InitialInv(run[0]);
    } else {
      RunInv(run, events, i - 1);
      StepInv(run[i - 1], events[i - 1].cpu, events[i - 1].action);
    }
    if i < |events| {
      StepInv(run[i], events[i].cpu, events[i].action);
    }
  }

  // ----- what the invariant means -----

  ghost predicate Holds(s: Sys, c: int, p: Place, t: nat) {
    0 <= c < |s.cpus| && At(s.cpus[c], p, t)
  }

  /** No thread is at two places of the system. */
  lemma Unique(s: Sys, c: int, p: Place, d: int, q: Place, t: nat)
    requires Inv(s) && Holds(s, c, p, t) && Holds(s, d, q, t)
    ensures c == d && p == q
  {
    assert On(s.cpus[c], t) && On(s.cpus[d], t);
    OneOwner(s, c, t);
    OnePlace(s.cpus[c], s.states, p, q, t);
  }

  lemma Located(s: Sys, t: nat) returns (c: nat, p: Place)
    requires Inv(s) && Somewhere(s, t)
    ensures Holds(s, c, p, t) && t < |s.states| && Fits(s.cpus[c], p, s.states[t])
  {
    var d :| 0 <= d < |s.cpus| && On(s.cpus[d], t);
    c := d;
    assert CpuOk(s.cpus[c], s.states);
    p := if At(s.cpus[c], Running, t) then Running else if At(s.cpus[c], Chosen, t) then Chosen
         else if At(s.cpus[c], Queued, t) then Queued else if At(s.cpus[c], Owed, t) then Owed else Leaving;
    OnePlace(s.cpus[c], s.states, p, p, t);
  }

  /** A running thread is the current thread of exactly one CPU. */
  lemma RunningOnce(s: Sys, t: nat) returns (c: nat)
    requires Inv(s) && t < |s.states| && s.states[t] == RUNNING
    ensures c < |s.cpus| && s.cpus[c].current == t
    ensures forall d :: Holds(s, d, Running, t) <==> d == c
  {
    var p;
    c, p := Located(s, t);
    forall d | Holds(s, d, Running, t)
      ensures d == c
    {
      Unique(s, c, p, d, Running, t);
    }
  }

  /** A ready thread, other than an idle one, is once in one run queue, or chosen by one CPU, or one CPU still
      has to put it there: the enqueue is owed, or will be once scheduler_finish_park sees it ready. */
  lemma ReadyOnce(s: Sys, t: nat) returns (c: nat, p: Place)
    requires Inv(s) && t < |s.states| && s.states[t] == READY && !IsIdle(s, t)
    ensures Holds(s, c, p, t) && !p.Running? && (p.Leaving? ==> s.cpus[c].action.ParkLast?) && NoRepeat(s.cpus[c].queue)
    ensures forall d, q :: Holds(s, d, q, t) <==> d == c && q == p
  {
    c, p := Located(s, t);
    forall d, q | Holds(s, d, q, t)
      ensures d == c && q == p
    {
      Unique(s, c, p, d, q, t);
    }
    assert CpuOk(s.cpus[c], s.states);
  }

  /** The scheduler's reference to a dead thread is dropped at most once, and only when its CPU already runs
      another thread. */
  lemma DroppedOnce(s: Sys, c: nat, a: Action, t: nat)
    requires Inv(s) && Enabled(s, c, a) && t < |s.states|
    ensures var s' := Next(s, c, a);
            && |s'.drops| >= |s.drops| == |s.states| && s'.drops[t] <= 1
            && (s'.drops[t] != s.drops[t] ==>
                  s.states[t] == DEAD && s.drops[t] == 0 && s.cpus[c].last == t && s.cpus[c].current != t
                  && s.cpus[c].current < |s.states| && s.states[s.cpus[c].current] == RUNNING)
  {
    StepInv(s, c, a);
    assert CpuOk(s.cpus[c], s.states);
  }

  // ----- the race between finish_park and unpark -----

  /** Thread t is ready and in the run queue of CPU c, once. */
  ghost predicate QueuedAt(s: Sys, c: int, t: nat) {
    && t < |s.states| && s.states[t] == READY && Holds(s, c, Queued, t) && NoRepeat(s.cpus[c].queue)
    && forall d, q :: Holds(s, d, q, t) <==> d == c && q == Queued
  }

  lemma QueuedOnce(s: Sys, c: int, t: nat)
    requires Inv(s) && Holds(s, c, Queued, t)
    ensures QueuedAt(s, c, t)
  {
    assert CpuOk(s.cpus[c], s.states);
    forall d, q | Holds(s, d, q, t)
      ensures d == c && q == Queued
    {
      Unique(s, c, Queued, d, q, t);
    }
  }

  ghost predicate InvAt(k: int, s: Sys) {
    k == 0 ==> Inv(s)
  }

  /** Inv, closed to proofs that only pass it on. */
  ghost predicate Good(s: Sys) {
    forall k :: InvAt(k, s)
  }

  lemma InvIsGood(s: Sys)
    ensures Inv(s) <==> Good(s)
  {
    if Good(s) {
      assert InvAt(0, s);
    }
  }

  lemma StepGood(s: Sys, c: nat, a: Action)
    requires Good(s) && Enabled(s, c, a)
    ensures Good(Next(s, c, a))
  {
    InvIsGood(s);
    StepInv(s, c, a);
    InvIsGood(Next(s, c, a));
  }

  lemma GoodQueued(s: Sys, c: int, t: nat)
    requires Good(s) && Holds(s, c, Queued, t)
    ensures QueuedAt(s, c, t)
  {
    InvIsGood(s);
    QueuedOnce(s, c, t);
  }

  /** CPU c has seen t parking and has yet to finish that, while another CPU runs code that can unpark it. */
  ghost predicate Racing(s: Sys, c: nat, d: nat, t: nat) {
    && c < |s.cpus| && d < |s.cpus| && c != d && t < |s.states| && s.states[t] == PARKING
    && Pending(s.cpus[c]) && s.cpus[c].action.ParkLast? && s.cpus[c].last == t && s.cpus[d].pc.User?
  }

  /** t was unparked in the window of finish_park. */
  ghost predicate Caught(s: Sys, c: nat, t: nat) {
    && c < |s.cpus| && t < |s.states| && s.states[t] == READY
    && Pending(s.cpus[c]) && s.cpus[c].action.ParkLast? && s.cpus[c].last == t
  }

  /** Whatever anyone does, t stays so until CPU c comes to finish_park. */
  lemma CaughtStays(s: Sys, c: nat, t: nat, d: nat, a: Action)
    requires Inv(s) && Caught(s, c, t) && Enabled(s, d, a) && !(d == c && a.AfterSchedule?)
    ensures Caught(Next(s, d, a), c, t)
  {
    assert At(s.cpus[c], Leaving, t) && CpuOk(s.cpus[c], s.states) && CpuOk(s.cpus[d], s.states);
    if d != c {
      assert !On(s.cpus[d], t) by {
        if On(s.cpus[d], t) {
          OneOwner(s, c, t);
        }
      }
    }
  }

  lemma {:induction false} CaughtUntil(run: seq<Sys>, events: seq<Event>, c: nat, t: nat, i: nat, k: nat)
    requires IsRun(run, events) && i <= k < |run| && Caught(run[i], c, t)
    requires forall j :: i <= j < k ==> !(events[j].cpu == c && events[j].action.AfterSchedule?)
    ensures Caught(run[k], c, t)
  {
    if i < k {
      CaughtUntil(run, events, c, t, i, k - 1);
      RunInv(run, events, k - 1);
      CaughtStays(run[k - 1], c, t, events[k - 1].cpu, events[k - 1].action);
    }
  }

  /** From i on until before k, CPU c makes no step. */
  ghost predicate Rests(events: seq<Event>, c: nat, i: nat, k: nat)
    requires k <= |events|
  {
    forall j :: i <= j < k ==> events[j].cpu != c
  }

  /** What a CPU is about to do it is still about to do after steps of others. */
  lemma {:induction false} CpuStays(run: seq<Sys>, events: seq<Event>, c: nat, i: nat, k: nat)
    requires IsRun(run, events) && i <= k < |run| && Rests(events, c, i, k) && c < |run[i].cpus|
    ensures c < |run[k].cpus| && run[k].cpus[c] == run[i].cpus[c]
  {
    if i < k {
      CpuStays(run, events, c, i, k - 1);
    }
  }

  /** CPU c has made t ready and puts it on its queue with its next step. */
  lemma PutNext(run: seq<Sys>, events: seq<Event>, c: nat, t: nat, goal: Then, i: nat, m: nat)
    requires IsRun(run, events) && i <= m < |events| && c < |run[i].cpus| && run[i].cpus[c].pc == Putting(t, goal)
    requires events[m].cpu == c && Rests(events, c, i, m)
    ensures events[m].action.QueuePut? && QueuedAt(run[m + 1], c, t)
  {
    CpuStays(run, events, c, i, m);
    assert Enabled(run[m], c, events[m].action);
    assert run[m + 1].cpus[c].queue[0] == t;
    RunInv(run, events, m + 1);
    QueuedOnce(run[m + 1], c, t);
  }

  /** If the unpark comes first, at any moment after CPU c has seen t parking, and whatever the other CPUs do: when c
      comes to finish_park it finds t ready, and the next step of c queues it, once. */
  lemma UnparkFirst(run: seq<Sys>, events: seq<Event>, c: nat, t: nat, i: nat, k: nat, m: nat)
    requires IsRun(run, events) && i < k < m < |events| && Racing(run[i], c, events[i].cpu, t) && events[i].action == Unpark(t)
    requires events[k] == Event(c, AfterSchedule) && forall j :: i < j < k ==> events[j] != Event(c, AfterSchedule)
    requires events[m].cpu == c && Rests(events, c, k + 1, m)
    ensures Caught(run[i + 1], c, t) && run[k + 1].cpus[c].pc == Putting(t, ThenFinish)
    ensures events[m].action.QueuePut? && QueuedAt(run[m + 1], c, t)
  {
    assert run[i + 1].states[t] == READY && run[i + 1].cpus == run[i].cpus;
    CaughtUntil(run, events, c, t, i + 1, k);
    assert run[k + 1].cpus[c].pc == Putting(t, ThenFinish);
    PutNext(run, events, c, t, ThenFinish, k + 1, m);
  }

  /** If the park is finished first, the unpark finds t parked and queues it, once. */
  lemma ParkFirst(s: Sys, c: nat, d: nat, t: nat) returns (s1: Sys, s2: Sys, s3: Sys)
    requires Good(s) && Racing(s, c, d, t) && s.cpus[c].pc.After?
    ensures Enabled(s, c, AfterSchedule) && s1 == Next(s, c, AfterSchedule)
    ensures Enabled(s1, d, Unpark(t)) && s2 == Next(s1, d, Unpark(t))
    ensures Enabled(s2, d, QueuePut) && s3 == Next(s2, d, QueuePut) && QueuedAt(s3, d, t)
  {
    s1 := Next(s, c, AfterSchedule);
    assert s1.states[t] == PARKED && s1.cpus[d] == s.cpus[d];
    StepGood(s, c, AfterSchedule);
    s2 := Next(s1, d, Unpark(t));
    assert s2.cpus[d].pc == Putting(t, ThenUser);
    StepGood(s1, d, Unpark(t));
    s3 := Next(s2, d, QueuePut);
    assert s3.cpus[d].queue[0] == t;
    StepGood(s2, d, QueuePut);
    GoodQueued(s3, d, t);
  }

  /** An unpark before the CPU has seen the thread parking would reach the assertion in scheduler_schedule: the
      condition on unpark in Enabled is needed. */
  lemma EarlyUnparkFails(s: Sys, c: nat, d: nat)
    requires Inv(s) && c < |s.cpus| && d < |s.cpus| && s.cpus[c].pc.Loading? && s.states[s.cpus[c].current] == PARKING
    ensures var s1 := Next(s, d, Unpark(s.cpus[c].current));
            Enabled(s1, c, LoadState) && !Asserted(s1, c, LoadState) && !Enabled(s, d, Unpark(s.cpus[c].current))
  {
    var t := s.cpus[c].current;
    assert CpuOk(s.cpus[c], s.states) && At(s.cpus[c], Running, t);
    forall e | 0 <= e < |s.cpus| && Pending(s.cpus[e]) && s.cpus[e].last == t
      ensures false
    {
      Unique(s, c, Running, e, Leaving, t);
    }
  }

  /** thread_yield up to the run queue. */
  function PutBack(s: Sys, c: nat): Sys
    requires c < |s.cpus|
  {
    Next(Next(Next(Next(s, c, Enter), c, LoadState), c, StoreReady), c, QueuePut)
  }

  /** The rest of thread_yield. */
  function RunNext(s: Sys, c: nat): Sys
    requires c < |s.cpus|
  {
    Next(Next(Next(s, c, Select), c, SwitchTo), c, AfterSchedule)
  }

  lemma PutBackIs(s: Sys, c: nat)
    requires c < |s.cpus| && s.cpus[c].current < |s.states|
    requires s.states[s.cpus[c].current] == RUNNING && s.cpus[c].current != s.cpus[c].idle
    ensures var k, t := s.cpus[c], s.cpus[c].current;
            PutBack(s, c) == With(s, t, READY, c, k.(pc := Selecting, last := t, queue := [t] + k.queue))
  {
    var k, t := s.cpus[c], s.cpus[c].current;
    var s2 := Next(Next(s, c, Enter), c, LoadState);
    assert s2 == s.(cpus := s.cpus[c := k.(pc := Storing)]);
    var s3 := Next(s2, c, StoreReady);
    assert s3 == With(s, t, READY, c, k.(pc := Putting(t, ThenSelect), last := t));
  }

  lemma RunNextIs(s: Sys, c: nat)
    requires c < |s.cpus| && s.cpus[c].queue != [] && s.cpus[c].queue[0] < |s.states| && s.cpus[c].action.NoAction?
    ensures var k := s.cpus[c];
            RunNext(s, c) == With(s, k.queue[0], RUNNING, c, k.(pc := User, current := k.queue[0], queue := k.queue[1..]))
  {
    var k := s.cpus[c];
    var s1 := Next(s, c, Select);
    assert s1 == s.(cpus := s.cpus[c := k.(pc := Switching(k.queue[0]), queue := k.queue[1..])]);
    var s2 := Next(s1, c, SwitchTo);
    assert s2 == With(s, k.queue[0], RUNNING, c, k.(pc := After, current := k.queue[0], queue := k.queue[1..]));
  }

  /** The run queue is last in, first out: a thread that yields is the one that runs next, whatever else waits. */
  lemma YieldRunsItself(s: Sys, c: nat)
    requires Inv(s) && c < |s.cpus| && s.cpus[c].pc.User? && s.cpus[c].current != s.cpus[c].idle
    requires s.cpus[c].current < |s.states| && s.states[s.cpus[c].current] == RUNNING
    ensures |PutBack(s, c).cpus| == |s.cpus|
    ensures var k := s.cpus[c]; RunNext(PutBack(s, c), c) == s.(cpus := s.cpus[c := k.(last := k.current)])
  {
    var k := s.cpus[c];
    assert k.action.NoAction? by { assert CpuOk(k, s.states); }
    PutBackIs(s, c);
    RunNextIs(PutBack(s, c), c);
    assert ([k.current] + k.queue)[1..] == k.queue;
    assert s.states[k.current := READY][k.current := RUNNING] == s.states;
  }
}
