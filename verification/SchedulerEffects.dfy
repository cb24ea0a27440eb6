/** What the operations on threads achieve, in every run and whatever the other CPUs do (src/thread/thread.c,
    src/thread/sched.c, src/thread/runq.c). */
module SchedulerEffects {
  import opened Scheduler
  import opened SchedulerRuns

  // ----- onto the run queue -----

  /** thread_start: an idle thread becomes ready, and the next step of the CPU queues it, once. */
  lemma StartQueues(run: seq<Sys>, events: seq<Event>, c: nat, t: nat, i: nat, m: nat)
    requires IsRun(run, events) && i < m < |events| && events[i] == Event(c, Start(t))
    requires events[m].cpu == c && Rests(events, c, i + 1, m)
    ensures t < |run[i].states| && run[i].states[t] == IDLE && run[i + 1].states == run[i].states[t := READY]
    ensures events[m].action.QueuePut? && QueuedAt(run[m + 1], c, t)
  {
    assert run[i + 1].cpus[c].pc == Putting(t, ThenUser);
    PutNext(run, events, c, t, ThenUser, i + 1, m);
  }

  /** An unpark of a parked thread: the same. */
  lemma UnparkQueues(run: seq<Sys>, events: seq<Event>, c: nat, t: nat, i: nat, m: nat)
    requires IsRun(run, events) && i < m < |events| && events[i] == Event(c, Unpark(t))
    requires t < |run[i].states| && run[i].states[t] == PARKED && events[m].cpu == c && Rests(events, c, i + 1, m)
    ensures run[i + 1].states == run[i].states[t := READY]
    ensures events[m].action.QueuePut? && QueuedAt(run[m + 1], c, t)
  {
    assert run[i + 1].cpus[c].pc == Putting(t, ThenUser);
    PutNext(run, events, c, t, ThenUser, i + 1, m);
  }

  // ----- off the run queue -----

  /** What the CPU runs next: the head of its queue, or its idle thread if the queue is empty. */
  function Chosen(k: Cpu): nat {
    if k.queue == [] then k.idle else k.queue[0]
  }

  lemma PicksHead(run: seq<Sys>, events: seq<Event>, c: nat, i: nat, m: nat)
    requires IsRun(run, events) && i < m < |events| && events[i] == Event(c, Select) && c < |run[i].cpus|
    requires events[m].cpu == c && Rests(events, c, i + 1, m)
    ensures var k, k', t := run[i].cpus[c], run[m + 1].cpus[c], Chosen(run[i].cpus[c]);
            && events[m].action.SwitchTo? && k'.current == t && k'.queue == (if k.queue == [] then [] else k.queue[1..])
            && t < |run[m + 1].states| && run[m + 1].states[t] == RUNNING
  {
    var t := Chosen(run[i].cpus[c]);
    assert run[i + 1].cpus[c].pc == Switching(t);
    CpuStays(run, events, c, i + 1, m);
    RunInv(run, events, m);
    assert Enabled(run[m], c, events[m].action) && Asserted(run[m], c, events[m].action);
  }

  // ----- thread_exit -----

  /** A dead thread stays dead. */
  lemma DeadStep(s: Sys, c: nat, a: Action, t: nat)
    requires Inv(s) && Enabled(s, c, a) && t < |s.states| && s.states[t] == DEAD
    ensures t < |Next(s, c, a).states| && Next(s, c, a).states[t] == DEAD
  {
    assert CpuOk(s.cpus[c], s.states);
  }

  /** It never runs again: at most the CPU where it exited is still about to leave it. */
  lemma DeadNeverRuns(s: Sys, t: nat, d: nat)
    requires Inv(s) && t < |s.states| && s.states[t] == DEAD && d < |s.cpus| && At(s.cpus[d], Running, t)
    ensures s.cpus[d].pc.Loading?
  {
    assert CpuOk(s.cpus[d], s.states);
  }

  lemma {:induction false} DeadForever(run: seq<Sys>, events: seq<Event>, t: nat, i: nat, j: nat)
    requires IsRun(run, events) && i <= j < |run| && t < |run[i].states| && run[i].states[t] == DEAD
    ensures t < |run[j].states| && run[j].states[t] == DEAD
  {
    if i < j {
      DeadForever(run, events, t, i, j - 1);
      RunInv(run, events, j - 1);
      DeadStep(run[j - 1], events[j - 1].cpu, events[j - 1].action, t);
    }
  }

  /** t has exited on CPU c, which still has to drop it. */
  ghost predicate Dying(s: Sys, c: nat, t: nat) {
    && c < |s.cpus| && t < |s.states| && s.states[t] == DEAD
    && ((s.cpus[c].pc.Loading? && s.cpus[c].current == t) || (Pending(s.cpus[c]) && s.cpus[c].action.PutLast? && s.cpus[c].last == t))
  }

  lemma DyingStep(s: Sys, c: nat, t: nat, d: nat, a: Action)
    requires Inv(s) && Dying(s, c, t) && Enabled(s, d, a) && !(d == c && a.AfterSchedule?)
    ensures Dying(Next(s, d, a), c, t)
  {
    DeadStep(s, d, a, t);
    if d == c {
      DyingTurn(s, c, t, a);
    } else {
      assert Next(s, d, a).cpus[c] == s.cpus[c];
    }
  }

  lemma DyingTurn(s: Sys, c: nat, t: nat, a: Action)
    requires Inv(s) && Dying(s, c, t) && Enabled(s, c, a) && !a.AfterSchedule?
    ensures var k := Next(s, c, a).cpus[c]; (k.pc.Loading? && k.current == t) || (Pending(k) && k.action.PutLast? && k.last == t)
  {
  }

  lemma {:induction false} DyingUntil(run: seq<Sys>, events: seq<Event>, c: nat, t: nat, i: nat, k: nat)
    requires IsRun(run, events) && i <= k < |run| && Dying(run[i], c, t)
    requires forall j :: i <= j < k ==> events[j] != Event(c, AfterSchedule)
    ensures Dying(run[k], c, t)
  {
    if i < k {
      DyingUntil(run, events, c, t, i, k - 1);
      RunInv(run, events, k - 1);
      DyingStep(run[k - 1], c, t, events[k - 1].cpu, events[k - 1].action);
    }
  }

  /** thread_exit: the thread is dead at once and for ever, and when its CPU next comes to scheduler_after_schedule, its
      reference is dropped, for the first time. */
  lemma ExitDies(run: seq<Sys>, events: seq<Event>, c: nat, i: nat, k: nat)
    requires IsRun(run, events) && i < k < |events| && events[i] == Event(c, Exit) && c < |run[i].cpus|
    requires events[k] == Event(c, AfterSchedule) && forall j :: i < j < k ==> events[j] != Event(c, AfterSchedule)
    ensures var t := run[i].cpus[c].current;
            && t < |run[i].states| == |run[i + 1].states| && run[i + 1].states == run[i].states[t := DEAD]
            && t < |run[k].drops| && t < |run[k + 1].drops| && run[k].drops[t] == 0 && run[k + 1].drops[t] == 1
  {
    var t := run[i].cpus[c].current;
    assert Dying(run[i + 1], c, t);
    DyingUntil(run, events, c, t, i + 1, k);
    RunInv(run, events, k);
    assert At(run[k].cpus[c], Leaving, t) && Somewhere(run[k], t);
  }

  // ----- parking -----

  /** t is on its way to be parked by CPU c. */
  ghost predicate GoingToPark(s: Sys, c: nat, t: nat) {
    && c < |s.cpus| && t < |s.states| && s.states[t] == PARKING
    && ((Runs(s.cpus[c]) && !s.cpus[c].pc.After? && s.cpus[c].current == t)
        || (Pending(s.cpus[c]) && s.cpus[c].action.ParkLast? && s.cpus[c].last == t))
  }

  lemma GoingStep(s: Sys, c: nat, t: nat, d: nat, a: Action)
    requires Inv(s) && GoingToPark(s, c, t) && Enabled(s, d, a) && !(d == c && (a.AfterSchedule? || a.AbortPark?)) && a != Unpark(t)
    ensures GoingToPark(Next(s, d, a), c, t)
  {
    assert CpuOk(s.cpus[c], s.states) && CpuOk(s.cpus[d], s.states);
    assert On(s.cpus[c], t) by {
      assert At(s.cpus[c], Running, t) || At(s.cpus[c], Leaving, t);
    }
    if d != c {
      OneOwner(s, c, t);
    }
  }

  /** The events from i until before k leave t alone. */
  ghost predicate Undisturbed(events: seq<Event>, c: nat, t: nat, i: nat, k: nat)
    requires k <= |events|
  {
    forall j :: i <= j < k ==> events[j].action != Unpark(t) && events[j] != Event(c, AbortPark) && events[j] != Event(c, AfterSchedule)
  }

  lemma {:induction false} GoingUntil(run: seq<Sys>, events: seq<Event>, c: nat, t: nat, i: nat, k: nat)
    requires IsRun(run, events) && i <= k < |run| && GoingToPark(run[i], c, t) && Undisturbed(events, c, t, i, k)
    ensures GoingToPark(run[k], c, t)
  {
    if i < k {
      GoingUntil(run, events, c, t, i, k - 1);
      RunInv(run, events, k - 1);
      GoingStep(run[k - 1], c, t, events[k - 1].cpu, events[k - 1].action);
    }
  }

  /** Parking: unless it is aborted or the thread is unparked before, the thread is parked when its CPU next comes to
      scheduler_after_schedule. */
  lemma ParkParks(run: seq<Sys>, events: seq<Event>, c: nat, i: nat, k: nat)
    requires IsRun(run, events) && i < k < |events| && events[i] == Event(c, Park) && c < |run[i].cpus|
    requires events[k] == Event(c, AfterSchedule) && Undisturbed(events, c, run[i].cpus[c].current, i + 1, k)
    ensures var t := run[i].cpus[c].current;
            && t < |run[i].states| && run[i + 1].states == run[i].states[t := PARKING]
            && t < |run[k + 1].states| && run[k + 1].states[t] == PARKED
  {
    var t := run[i].cpus[c].current;
    GoingUntil(run, events, c, t, i + 1, k);
  }

  /** A parked thread stays parked until it is unparked. */
  lemma {:induction false} ParkedUntil(run: seq<Sys>, events: seq<Event>, t: nat, i: nat, k: nat)
    requires IsRun(run, events) && i <= k < |run| && t < |run[i].states| && run[i].states[t] == PARKED
    requires forall j :: i <= j < k ==> events[j].action != Unpark(t)
    ensures t < |run[k].states| && run[k].states[t] == PARKED
  {
    if i < k {
      ParkedUntil(run, events, t, i, k - 1);
      RunInv(run, events, k - 1);
      ParkedStep(run[k - 1], events[k - 1].cpu, events[k - 1].action, t);
    }
  }

  lemma ParkedStep(s: Sys, c: nat, a: Action, t: nat)
    requires Inv(s) && Enabled(s, c, a) && t < |s.states| && s.states[t] == PARKED && a != Unpark(t)
    ensures t < |Next(s, c, a).states| && Next(s, c, a).states[t] == PARKED
  {
    assert CpuOk(s.cpus[c], s.states);
  }

  /** Aborting takes back the start of a park. */
  lemma ParkAborted(s: Sys, c: nat)
    requires Enabled(s, c, Park)
    ensures Enabled(Next(s, c, Park), c, AbortPark) && Next(Next(s, c, Park), c, AbortPark) == s
  {
    var s1 := Next(s, c, Park);
    assert s1.cpus == s.cpus;
    assert s.states[s.cpus[c].current := PARKING][s.cpus[c].current := RUNNING] == s.states;
  }

  // ----- creating, starting up, and the end of scheduling -----

  /** A created thread is idle and can be started. */
  lemma CreatedStarts(s: Sys, c: nat)
    requires Inv(s) && Enabled(s, c, Create)
    ensures var s' := Next(s, c, Create);
            && s'.states == s.states + [IDLE] && s'.cpus == s.cpus && Enabled(s', c, Start(|s.states|)) && !Somewhere(s', |s.states|)
  {
    var t := |s.states|;
    forall d | 0 <= d < |s.cpus|
      ensures !On(s.cpus[d], t)
    {
      assert CpuOk(s.cpus[d], s.states);
    }
  }

  /** A CPU starts with its idle thread. */
  lemma BootRuns(s: Sys, c: nat)
    requires Inv(s) && Enabled(s, c, Bootstrap)
    ensures var s1 := Next(s, c, Bootstrap);
            && Enabled(s1, c, AfterSchedule)
            && var k := Next(s1, c, AfterSchedule).cpus[c];
               k.pc.User? && k.current == k.idle == s.cpus[c].idle && k.idle < |s1.states| && s1.states[k.idle] == RUNNING
  {
    assert CpuOk(s.cpus[c], s.states);
  }

  /** An idle thread that looks for work is ready, but on no queue. */
  lemma IdleGivesWay(s: Sys, c: nat)
    requires Inv(s) && c < |s.cpus| && s.cpus[c].pc.User? && s.cpus[c].current == s.cpus[c].idle
    ensures var s' := Next(Next(Next(s, c, Enter), c, LoadState), c, StoreReady);
            var k := s.cpus[c];
            && k.idle < |s.states| && s'.states == s.states[k.idle := READY] && s'.cpus == s.cpus[c := k.(pc := Selecting, last := k.idle)]
  {
    var k := s.cpus[c];
    assert CpuOk(k, s.states);
    var s2 := Next(Next(s, c, Enter), c, LoadState);
    assert s2 == s.(cpus := s.cpus[c := k.(pc := Storing)]);
  }

  /** How many steps a CPU has still to make in the scheduler. */
  function Left(pc: Pc): nat {
    match pc
    case Boot => 0
    case User => 0
    case Loading => 7
    case Storing => 6
    case Putting(_, goal) => (match goal case ThenSelect => 5 case ThenFinish => 1 case ThenUser => 1)
    case Selecting => 4
    case Switching(_) => 3
    case After => 2
  }

  /** The step that the CPU makes next in the scheduler. */
  function SchedulerStep(pc: Pc): Action {
    match pc
    case Loading => LoadState
    case Storing => StoreReady
    case Putting(_, _) => QueuePut
    case Selecting => Select
    case Switching(_) => SwitchTo
    case After => AfterSchedule
    case _ => Enter
  }

  /** Scheduling ends: in the scheduler a CPU has exactly one step to make, and after at most seven it is back in a
      thread. */
  lemma ScheduleEnds(s: Sys, c: nat, a: Action)
    requires Inv(s) && Enabled(s, c, a) && !s.cpus[c].pc.User? && !s.cpus[c].pc.Boot?
    ensures a == SchedulerStep(s.cpus[c].pc) && Left(Next(s, c, a).cpus[c].pc) < Left(s.cpus[c].pc) <= 7
  {
    assert CpuOk(s.cpus[c], s.states);
  }

  lemma ScheduleGoesOn(s: Sys, c: nat)
    requires c < |s.cpus| && !s.cpus[c].pc.User? && !s.cpus[c].pc.Boot?
    ensures Enabled(s, c, SchedulerStep(s.cpus[c].pc)) && (Left(s.cpus[c].pc) > 0)
  {
  }

  /** A thread that yields, parks or exits enters the scheduler, as the thread that it is. */
  lemma EntersScheduler(s: Sys, c: nat, a: Action)
    requires Inv(s) && Enabled(s, c, a) && (a.Enter? || a.Exit?)
    ensures var k, k' := s.cpus[c], Next(s, c, a).cpus[c];
            k'.pc.Loading? && k'.current == k.current && k'.queue == k.queue && (a.Enter? ==> Next(s, c, a).states == s.states)
  {
  }

  /** thread_yield up to the run queue: its steps can be made, one after another.  What they come to is PutBackIs. */
  lemma YieldEnters(s: Sys, c: nat)
    requires c < |s.cpus| && s.cpus[c].pc.User? && s.cpus[c].current != s.cpus[c].idle
    requires s.cpus[c].current < |s.states| && s.states[s.cpus[c].current] == RUNNING
    ensures Enabled(s, c, Enter)
    ensures var s1 := Next(s, c, Enter); |s1.cpus| == |s.cpus| && Enabled(s1, c, LoadState)
    ensures var s2 := Next(Next(s, c, Enter), c, LoadState); |s2.cpus| == |s.cpus| && Enabled(s2, c, StoreReady)
    ensures var s3 := Next(Next(Next(s, c, Enter), c, LoadState), c, StoreReady); |s3.cpus| == |s.cpus| && Enabled(s3, c, QueuePut)
  {
    var k, t := s.cpus[c], s.cpus[c].current;
    var s2 := Next(Next(s, c, Enter), c, LoadState);
    assert s2 == s.(cpus := s.cpus[c := k.(pc := Storing)]);
    assert Next(s2, c, StoreReady) == With(s, t, READY, c, k.(pc := Putting(t, ThenSelect), last := t));
  }

  /** The rest of it.  What the steps come to is RunNextIs. */
  lemma YieldLeaves(s: Sys, c: nat)
    requires c < |s.cpus| && s.cpus[c].pc.Selecting?
    ensures Enabled(s, c, Select)
    ensures var s1 := Next(s, c, Select); |s1.cpus| == |s.cpus| && Enabled(s1, c, SwitchTo)
    ensures var s2 := Next(Next(s, c, Select), c, SwitchTo); |s2.cpus| == |s.cpus| && Enabled(s2, c, AfterSchedule)
  {
  }
}
