/** The scheduler as a state machine over any number of CPUs (src/thread/sched.c, src/thread/thread.c,
    src/thread/runq.c).  Every access to a thread's state and every run-queue operation is one step. */
module Scheduler {
  import opened Common

  /** thread_state_t */
  datatype State = IDLE | DEAD | READY | RUNNING | PARKING | PARKED

  /** last_thread_action_t */
  datatype LastAction = NoAction | ParkLast | PutLast

  /** What a CPU does after it put a thread on its run queue. */
  datatype Then = ThenSelect | ThenFinish | ThenUser

  /** Where a CPU is. */
  datatype Pc =
    | Boot                            // before thread_bootstrap
    | User                            // in the code of the current thread
    | Loading                         // at the start of scheduler_schedule
    | Storing                         // saw RUNNING, about to store READY
    | Putting(thread: nat, and: Then) // about to put a thread on the run queue
    | Selecting                       // about to take a thread off the run queue
    | Switching(next: nat)            // took it, about to run it
    | After                           // at scheduler_after_schedule

  datatype Cpu = Cpu(pc: Pc, current: nat, last: nat, action: LastAction, queue: seq<nat>, idle: nat)

  /** states and drops are per thread; drops counts how often the scheduler dropped its reference. */
  datatype Sys = Sys(states: seq<State>, drops: seq<nat>, cpus: seq<Cpu>)

  datatype Action =
    | Bootstrap
    | Create                 // thread_create
    | Start(t: nat)          // thread_start, the exchange
    | Unpark(t: nat)         // scheduler_try_unpark of another thread
    | Park                   // RUNNING -> PARKING by the thread itself
    | AbortPark              // PARKING -> RUNNING by the thread itself
    | Exit                   // thread_exit
    | Enter                  // thread_yield, the idle loop, or a parking thread
    | LoadState
    | StoreReady
    | QueuePut
    | Select
    | SwitchTo
    | AfterSchedule

  predicate IsIdle(s: Sys, t: nat) {
    exists c :: 0 <= c < |s.cpus| && s.cpus[c].idle == t
  }

  predicate Pending(k: Cpu) {
    !k.action.NoAction? && (k.pc.Selecting? || k.pc.Switching? || k.pc.After?)
  }

  /** The thread whose code the CPU is in. */
  predicate Runs(k: Cpu) {
    k.pc.User? || k.pc.Loading? || k.pc.Storing? || k.pc.After? || (k.pc.Putting? && !k.pc.and.ThenSelect?)
  }

  /** The assertions of the code hold when the step is made. */
  predicate Asserted(s: Sys, c: nat, a: Action)
    requires c < |s.cpus|
  {
    var k := s.cpus[c];
    match a
    case LoadState => k.current < |s.states| && s.states[k.current] in {DEAD, PARKING, RUNNING}
    case SwitchTo => k.pc.Switching? ==> k.pc.next < |s.states| && s.states[k.pc.next] == READY
    case Exit => k.current < |s.states| && s.states[k.current] == RUNNING
    case _ => true
  }

  /** What a CPU may do next.  A thread is started once, and unparked only when it is parked or its
      CPU has seen it parking. */
  ghost predicate Enabled(s: Sys, c: nat, a: Action) {
    c < |s.cpus| &&
    var k := s.cpus[c];
    match a
    case Bootstrap => k.pc.Boot?
    case Create => k.pc.User?
    case Start(t) => k.pc.User? && t < |s.states| && s.states[t] == IDLE
    case Unpark(t) =>
      && k.pc.User? && t < |s.states|
      && (s.states[t] == PARKED || (s.states[t] == PARKING && exists d :: 0 <= d < |s.cpus| && Pending(s.cpus[d]) && s.cpus[d].last == t))
    case Park => k.pc.User? && k.current < |s.states| && s.states[k.current] == RUNNING && !IsIdle(s, k.current)
    case AbortPark => k.pc.User? && k.current < |s.states| && s.states[k.current] == PARKING
    case Exit => k.pc.User? && k.current < |s.states| && s.states[k.current] == RUNNING && !IsIdle(s, k.current)
    case Enter => k.pc.User?
    case LoadState => k.pc.Loading?
    case StoreReady => k.pc.Storing?
    case QueuePut => k.pc.Putting?
    case Select => k.pc.Selecting?
    case SwitchTo => k.pc.Switching?
    case AfterSchedule => k.pc.After?
  }

  /** Thread t is in state x, CPU c is k. */
  function With(s: Sys, t: nat, x: State, c: nat, k: Cpu): Sys
    requires c < |s.cpus|
  {
    s.(states := if t < |s.states| then s.states[t := x] else s.states, cpus := s.cpus[c := k])
  }

  function Next(s: Sys, c: nat, a: Action): Sys
    requires c < |s.cpus|
  {
    var k := s.cpus[c];
    var seen := if k.current < |s.states| then s.states[k.current] else IDLE;
    match a
    case Bootstrap => With(s, k.idle, RUNNING, c, k.(current := k.idle, pc := After))
    case Create => s.(states := s.states + [IDLE], drops := s.drops + [0])
    case Start(t) => With(s, t, READY, c, k.(pc := Putting(t, ThenUser)))
    case Unpark(t) =>
      if t < |s.states| && s.states[t] == PARKED then With(s, t, READY, c, k.(pc := Putting(t, ThenUser)))
      else With(s, t, READY, c, k)
    case Park => With(s, k.current, PARKING, c, k)
    case AbortPark => With(s, k.current, RUNNING, c, k)
    case Exit => With(s, k.current, DEAD, c, k.(pc := Loading))
    case Enter => s.(cpus := s.cpus[c := k.(pc := Loading)])
    case LoadState =>
      s.(cpus := s.cpus[c :=
           match seen
           case DEAD => k.(pc := Selecting, action := PutLast, last := k.current)
           case PARKING => k.(pc := Selecting, action := ParkLast, last := k.current)
           case _ => k.(pc := Storing)])
    case StoreReady =>
      With(s, k.current, READY, c,
           if k.current == k.idle then k.(pc := Selecting, last := k.current)
           else k.(pc := Putting(k.current, ThenSelect), last := k.current))
    case QueuePut =>
      if k.pc.Putting? then
        var k' := k.(queue := [k.pc.thread] + k.queue);
        s.(cpus := s.cpus[c :=
             match k.pc.and
             case ThenSelect => k'.(pc := Selecting)
             case ThenFinish => k'.(pc := User, action := NoAction)
             case ThenUser => k'.(pc := User)])
      else s
    case Select =>
      s.(cpus := s.cpus[c := if k.queue == [] then k.(pc := Switching(k.idle)) else k.(pc := Switching(k.queue[0]), queue := k.queue[1..])])
    case SwitchTo =>
      if k.pc.Switching? then With(s, k.pc.next, RUNNING, c, k.(current := k.pc.next, pc := After)) else s
    case AfterSchedule =>
      var done := k.(pc := User, action := NoAction);
      if k.action.NoAction? || k.last >= |s.states| then s.(cpus := s.cpus[c := done])
      else if k.action.PutLast? then
        s.(cpus := s.cpus[c := done], drops := if k.last < |s.drops| then s.drops[k.last := s.drops[k.last] + 1] else s.drops)
      else if s.states[k.last] == PARKING then With(s, k.last, PARKED, c, done)
      else if s.states[k.last] == READY then s.(cpus := s.cpus[c := k.(pc := Putting(k.last, ThenFinish))])
      else s.(cpus := s.cpus[c := done])
  }

  // ----- the invariant -----

  datatype Place = Running | Chosen | Queued | Owed | Leaving

  /** Thread t is at place p of the CPU. */
  predicate At(k: Cpu, p: Place, t: nat) {
    match p
    case Running => Runs(k) && k.current == t
    case Chosen => k.pc.Switching? && k.pc.next == t
    case Queued => t in k.queue
    case Owed => k.pc.Putting? && k.pc.thread == t
    case Leaving => Pending(k) && k.last == t
  }

  predicate On(k: Cpu, t: nat) {
    At(k, Running, t) || At(k, Chosen, t) || At(k, Queued, t) || At(k, Owed, t) || At(k, Leaving, t)
  }

  ghost predicate Somewhere(s: Sys, t: nat) {
    exists c :: 0 <= c < |s.cpus| && On(s.cpus[c], t)
  }

  /** The state of a thread at a place. */
  predicate Fits(k: Cpu, p: Place, x: State) {
    match p
    case Running =>
      || x == RUNNING || (x == DEAD && k.pc.Loading?)
      || (x == PARKING && (k.pc.User? || k.pc.Loading? || (k.pc.Putting? && k.pc.and.ThenUser?)))
    case Chosen => x == READY
    case Queued => x == READY
    case Owed => x == READY
    case Leaving => if k.action.PutLast? then x == DEAD else x == PARKING || x == READY
  }

  /** A CPU by itself: its threads are at one place each, in a state that fits. */
  ghost predicate CpuOk(k: Cpu, states: seq<State>) {
    && k.idle < |states| && states[k.idle] in {READY, RUNNING} && NoRepeat(k.queue)
    && (k.action.NoAction? || Pending(k) || (k.pc.Putting? && k.pc.and.ThenFinish?))
    && (forall t :: t in k.queue ==> t < |states| && states[t] == READY && t != k.idle)
    && (Runs(k) ==> k.current < |states| && Fits(k, Running, states[k.current]) && k.current !in k.queue)
    && (k.pc.Switching? ==> k.pc.next < |states| && states[k.pc.next] == READY && k.pc.next !in k.queue)
    && (k.pc.Putting? ==>
          && k.pc.thread < |states| && states[k.pc.thread] == READY && k.pc.thread !in k.queue && k.pc.thread != k.idle
          && (Runs(k) ==> k.pc.thread != k.current))
    && (Pending(k) ==>
          && k.last < |states| && Fits(k, Leaving, states[k.last]) && k.last !in k.queue && k.last != k.idle
          && (Runs(k) ==> k.last != k.current) && (k.pc.Switching? ==> k.last != k.pc.next))
  }

  /** So every thread is at no more than one place of the CPU. */
  lemma OnePlace(k: Cpu, states: seq<State>, p: Place, q: Place, t: nat)
    requires CpuOk(k, states) && At(k, p, t) && At(k, q, t)
    ensures p == q && t < |states| && Fits(k, p, states[t])
  {
  }

  /** Two CPUs have no thread in common, not even their idle threads. */
  ghost predicate Separate(k: Cpu, l: Cpu) {
    && k.idle != l.idle && !On(k, l.idle) && !On(l, k.idle)
    && forall t: nat :: !(On(k, t) && On(l, t))
  }

  /** Threads that must be somewhere. */
  ghost predicate Needs(s: Sys, t: nat)
    requires t < |s.states|
  {
    s.states[t] in {RUNNING, PARKING} || (s.states[t] == READY && !IsIdle(s, t))
  }

  ghost predicate Inv(s: Sys) {
    && |s.drops| == |s.states|
    && (forall c :: 0 <= c < |s.cpus| ==> CpuOk(s.cpus[c], s.states))
    && (forall c, d :: 0 <= c < d < |s.cpus| ==> Separate(s.cpus[c], s.cpus[d]))
    && (forall t: nat :: t < |s.states| && Needs(s, t) ==> Somewhere(s, t))
    && (forall t: nat :: t < |s.states| ==> s.drops[t] == if s.states[t] == DEAD && !Somewhere(s, t) then 1 else 0)
  }

  // ----- one step of one CPU -----

  /** The rest of the system, seen from a step of CPU c that changes at most the state of thread t0. */
  ghost predicate Local(s: Sys, s': Sys, c: nat, t0: nat) {
    && c < |s.cpus| == |s'.cpus| && s'.cpus == s.cpus[c := s'.cpus[c]] && s'.cpus[c].idle == s.cpus[c].idle
    && |s'.states| == |s.states| == |s'.drops| == |s.drops|
    && (forall t: nat :: t < |s.states| && t != t0 ==> s'.states[t] == s.states[t] && s'.drops[t] == s.drops[t])
  }

  /** A thread is only taken over by CPU c if it was its own or nobody's. */
  ghost predicate NoTheft(s: Sys, s': Sys, c: nat)
    requires c < |s.cpus| == |s'.cpus|
  {
    && (forall t: nat :: On(s'.cpus[c], t) && !On(s.cpus[c], t) ==> !Somewhere(s, t))
    && (forall t: nat :: On(s'.cpus[c], t) && IsIdle(s, t) ==> t == s.cpus[c].idle)
  }

  lemma LocalSeparate(s: Sys, s': Sys, c: nat, t0: nat)
    requires Inv(s) && Local(s, s', c, t0) && NoTheft(s, s', c)
    ensures forall i, j :: 0 <= i < j < |s'.cpus| ==> Separate(s'.cpus[i], s'.cpus[j])
  {
    forall i, j | 0 <= i < j < |s'.cpus|
      ensures Separate(s'.cpus[i], s'.cpus[j])
    {
      assert Separate(s.cpus[i], s.cpus[j]);
      if i == c {
        assert IsIdle(s, s.cpus[j].idle);
      } else if j == c {
        assert IsIdle(s, s.cpus[i].idle);
      }
    }
  }

  /** Other CPUs do not notice, unless the thread that changes is theirs. */
  lemma LocalCpus(s: Sys, s': Sys, c: nat, t0: nat)
    requires Inv(s) && Local(s, s', c, t0) && CpuOk(s'.cpus[c], s'.states)
    requires forall d :: 0 <= d < |s.cpus| && d != c && (On(s.cpus[d], t0) || s.cpus[d].idle == t0) ==> CpuOk(s.cpus[d], s'.states)
    ensures forall d :: 0 <= d < |s'.cpus| ==> CpuOk(s'.cpus[d], s'.states)
  {
    forall d | 0 <= d < |s'.cpus|
      ensures CpuOk(s'.cpus[d], s'.states)
    {
      assert CpuOk(s.cpus[d], s.states);
      if d != c && !On(s.cpus[d], t0) && s.cpus[d].idle != t0 {
        assert forall t :: t in s.cpus[d].queue ==> t != t0;
      }
    }
  }

  lemma IdleSame(s: Sys, s': Sys, c: nat, t0: nat)
    requires Local(s, s', c, t0)
    ensures forall t: nat :: IsIdle(s', t) <==> IsIdle(s, t)
  {
    forall t: nat
      ensures IsIdle(s', t) <==> IsIdle(s, t)
    {
      if IsIdle(s, t) {
        var d :| 0 <= d < |s.cpus| && s.cpus[d].idle == t;
        assert s'.cpus[d].idle == t;
      }
      if IsIdle(s', t) {
        var d :| 0 <= d < |s'.cpus| && s'.cpus[d].idle == t;
        assert s.cpus[d].idle == t;
      }
    }
  }

  lemma SomewhereSame(s: Sys, s': Sys, c: nat, t0: nat, t: nat)
    requires Local(s, s', c, t0) && (On(s'.cpus[c], t) <==> On(s.cpus[c], t))
    ensures Somewhere(s', t) <==> Somewhere(s, t)
  {
    if Somewhere(s, t) {
      var d :| 0 <= d < |s.cpus| && On(s.cpus[d], t);
      assert On(s'.cpus[d], t);
    }
    if Somewhere(s', t) {
      var d :| 0 <= d < |s'.cpus| && On(s'.cpus[d], t);
      assert On(s.cpus[d], t);
    }
  }

  /** Apart from t0, the threads of CPU c are those it had before. */
  ghost predicate SameThreads(k: Cpu, k': Cpu, t0: nat) {
    forall t: nat :: t != t0 ==> (On(k', t) <==> On(k, t))
  }

  lemma LocalInv(s: Sys, s': Sys, c: nat, t0: nat)
    requires Inv(s) && Local(s, s', c, t0) && CpuOk(s'.cpus[c], s'.states) && SameThreads(s.cpus[c], s'.cpus[c], t0) && NoTheft(s, s', c)
    requires forall d :: 0 <= d < |s.cpus| && d != c && (On(s.cpus[d], t0) || s.cpus[d].idle == t0) ==> CpuOk(s.cpus[d], s'.states)
    requires t0 < |s.states| ==> (Needs(s', t0) ==> Somewhere(s', t0))
                                  && s'.drops[t0] == if s'.states[t0] == DEAD && !Somewhere(s', t0) then 1 else 0
    ensures Inv(s')
  {
    LocalSeparate(s, s', c, t0);
    LocalCpus(s, s', c, t0);
    IdleSame(s, s', c, t0);
    forall t: nat | t < |s'.states|
      ensures Needs(s', t) ==> Somewhere(s', t)
      ensures s'.drops[t] == if s'.states[t] == DEAD && !Somewhere(s', t) then 1 else 0
    {
      if t != t0 {
        SomewhereSame(s, s', c, t0, t);
      }
    }
  }

  // ----- the steps -----

  lemma StateOf(s: Sys, t: nat)
    requires Inv(s) && t < |s.states| && s.states[t] in {IDLE, PARKED}
    ensures !Somewhere(s, t) && !IsIdle(s, t)
  {
    forall c | 0 <= c < |s.cpus|
      ensures !On(s.cpus[c], t) && s.cpus[c].idle != t
    {
      assert CpuOk(s.cpus[c], s.states);
    }
  }

  /** A thread that nobody has becomes ready, and CPU c owes it to its run queue. */
  lemma OweInv(s: Sys, s': Sys, c: nat, t: nat)
    requires Inv(s) && c < |s.cpus| && s.cpus[c].pc.User? && t < |s.states| && s.states[t] in {IDLE, PARKED}
    requires s' == With(s, t, READY, c, s.cpus[c].(pc := Putting(t, ThenUser)))
    ensures Inv(s')
  {
    StateOf(s, t);
    var k := s.cpus[c];
    assert CpuOk(k, s.states) && At(s'.cpus[c], Owed, t);
    assert !On(k, t);
    LocalInv(s, s', c, t);
  }

  lemma StateOnly(s: Sys, s': Sys, c: nat, t: nat, x: State)
    requires Inv(s) && c < |s.cpus| && s.cpus[c].pc.User? && t == s.cpus[c].current
    requires t < |s.states| && s.states[t] in {RUNNING, PARKING} && x in {RUNNING, PARKING} && (x == PARKING ==> !IsIdle(s, t))
    requires s' == With(s, t, x, c, s.cpus[c])
    ensures Inv(s')
  {
    var k := s.cpus[c];
    assert CpuOk(k, s.states) && At(k, Running, t);
    OneOwner(s, c, t);
    assert k.idle != t || x == RUNNING;
    LocalInv(s, s', c, t);
  }

  /** A thread that is on CPU c is on no other, and idle on no other. */
  lemma OneOwner(s: Sys, c: nat, t: nat)
    requires Inv(s) && c < |s.cpus| && On(s.cpus[c], t)
    ensures forall d :: 0 <= d < |s.cpus| && d != c ==> !On(s.cpus[d], t) && s.cpus[d].idle != t
  {
    forall d | 0 <= d < |s.cpus| && d != c
      ensures !On(s.cpus[d], t) && s.cpus[d].idle != t
    {
      assert Separate(if c < d then s.cpus[c] else s.cpus[d], if c < d then s.cpus[d] else s.cpus[c]);
    }
  }

  lemma CreateInv(s: Sys)
    requires Inv(s)
    ensures Inv(s.(states := s.states + [IDLE], drops := s.drops + [0]))
  {
    var s' := s.(states := s.states + [IDLE], drops := s.drops + [0]);
    assert forall t: nat :: t < |s.states| ==> s'.states[t] == s.states[t];
    forall c | 0 <= c < |s.cpus|
      ensures CpuOk(s'.cpus[c], s'.states)
    {
      assert CpuOk(s.cpus[c], s.states);
    }
    forall t: nat
      ensures Somewhere(s', t) <==> Somewhere(s, t)
      ensures IsIdle(s', t) <==> IsIdle(s, t)
    {
    }
  }

  lemma UnparkLeavingInv(s: Sys, c: nat, t: nat, d: nat)
    requires Inv(s) && c < |s.cpus| && t < |s.states| && s.states[t] == PARKING && s.cpus[c].pc.User?
    requires d < |s.cpus| && Pending(s.cpus[d]) && s.cpus[d].last == t
    ensures Inv(With(s, t, READY, c, s.cpus[c]))
  {
    var s', k := With(s, t, READY, c, s.cpus[c]), s.cpus[d];
    assert CpuOk(k, s.states) && At(k, Leaving, t) && On(k, t);
    assert CpuOk(s.cpus[c], s.states);
    OneOwner(s, d, t);
    assert s'.cpus == s.cpus;
    assert On(s'.cpus[d], t);
    LocalInv(s, s', d, t);
  }

  lemma ExitInv(s: Sys, c: nat)
    requires Inv(s) && Enabled(s, c, Exit)
    ensures Inv(Next(s, c, Exit))
  {
    var s', k := Next(s, c, Exit), s.cpus[c];
    assert CpuOk(k, s.states) && At(k, Running, k.current) && k.current != k.idle;
    assert At(s'.cpus[c], Running, k.current);
    OneOwner(s, c, k.current);
    LocalInv(s, s', c, k.current);
  }

  lemma EnterInv(s: Sys, c: nat)
    requires Inv(s) && Enabled(s, c, Enter)
    ensures Inv(Next(s, c, Enter))
  {
    var k := s.cpus[c];
    assert CpuOk(k, s.states) && At(k, Running, k.current);
    EnterCpu(k, s.states);
    SameCpuInv(s, Next(s, c, Enter), c, k.current);
  }

  lemma EnterCpu(k: Cpu, states: seq<State>)
    requires CpuOk(k, states) && k.pc.User?
    ensures var k' := k.(pc := Loading); CpuOk(k', states) && forall t: nat :: On(k', t) <==> On(k, t)
  {
  }

  lemma BootstrapInv(s: Sys, c: nat)
    requires Inv(s) && Enabled(s, c, Bootstrap)
    ensures Inv(Next(s, c, Bootstrap))
  {
    var s', k := Next(s, c, Bootstrap), s.cpus[c];
    assert CpuOk(k, s.states) && At(s'.cpus[c], Running, k.idle);
    IdleOwner(s, c);
    LocalInv(s, s', c, k.idle);
  }

  /** Only CPU c can have its idle thread. */
  lemma IdleOwner(s: Sys, c: nat)
    requires Inv(s) && c < |s.cpus|
    ensures forall d :: 0 <= d < |s.cpus| && d != c ==> !On(s.cpus[d], s.cpus[c].idle) && s.cpus[d].idle != s.cpus[c].idle
    ensures Somewhere(s, s.cpus[c].idle) <==> On(s.cpus[c], s.cpus[c].idle)
  {
    forall d | 0 <= d < |s.cpus| && d != c
      ensures !On(s.cpus[d], s.cpus[c].idle) && s.cpus[d].idle != s.cpus[c].idle
    {
      assert Separate(if c < d then s.cpus[c] else s.cpus[d], if c < d then s.cpus[d] else s.cpus[c]);
    }
  }

  lemma LoadStateInv(s: Sys, c: nat)
    requires Inv(s) && Enabled(s, c, LoadState)
    ensures Inv(Next(s, c, LoadState)) && Asserted(s, c, LoadState)
  {
    var s', k := Next(s, c, LoadState), s.cpus[c];
    assert CpuOk(k, s.states) && At(k, Running, k.current);
    LoadCpu(k, s.states);
    assert s' == s.(cpus := s.cpus[c := Loaded(k, s.states[k.current])]);
    SameCpuInv(s, s', c, k.current);
  }

  /** The CPU after it has loaded the state x of its thread. */
  function Loaded(k: Cpu, x: State): Cpu {
    match x
    case DEAD => k.(pc := Selecting, action := PutLast, last := k.current)
    case PARKING => k.(pc := Selecting, action := ParkLast, last := k.current)
    case _ => k.(pc := Storing)
  }

  lemma LoadCpu(k: Cpu, states: seq<State>)
    requires CpuOk(k, states) && k.pc.Loading?
    ensures k.current < |states| && states[k.current] in {DEAD, PARKING, RUNNING}
    ensures var k' := Loaded(k, states[k.current]); CpuOk(k', states) && forall t: nat :: On(k', t) <==> On(k, t)
  {
    assert states[k.current] == RUNNING || k.current != k.idle;
  }

  lemma StoreReadyInv(s: Sys, c: nat)
    requires Inv(s) && Enabled(s, c, StoreReady)
    ensures Inv(Next(s, c, StoreReady))
  {
    var s', k := Next(s, c, StoreReady), s.cpus[c];
    assert CpuOk(k, s.states) && At(k, Running, k.current);
    assert k.current != k.idle ==> At(s'.cpus[c], Owed, k.current);
    assert IsIdle(s', k.idle) by { assert s'.cpus[c].idle == k.idle; }
    OneOwner(s, c, k.current);
    LocalInv(s, s', c, k.current);
  }

  lemma QueuePutCpu(k: Cpu, k': Cpu, states: seq<State>)
    requires CpuOk(k, states) && k.pc.Putting? && k'.queue == [k.pc.thread] + k.queue && k'.idle == k.idle && k'.current == k.current
    requires k'.pc == if k.pc.and.ThenSelect? then Selecting else User
    requires k'.action == NoAction
    ensures CpuOk(k', states) && forall t: nat :: On(k', t) <==> On(k, t)
  {
    assert forall t :: t in k'.queue <==> t == k.pc.thread || t in k.queue;
    assert NoRepeat(k'.queue) by {
      assert forall i :: 0 < i < |k'.queue| ==> k'.queue[i] == k.queue[i - 1] && k.queue[i - 1] in k.queue;
    }
  }

  lemma QueuePutInv(s: Sys, c: nat)
    requires Inv(s) && Enabled(s, c, QueuePut)
    ensures Inv(Next(s, c, QueuePut))
  {
    var s', k := Next(s, c, QueuePut), s.cpus[c];
    assert CpuOk(k, s.states) && On(k, k.pc.thread);
    QueuePutCpu(k, s'.cpus[c], s.states);
    SameCpuInv(s, s', c, k.pc.thread);
  }

  /** A step inside one CPU that changes no thread's state. */
  lemma SameCpuInv(s: Sys, s': Sys, c: nat, t: nat)
    requires Inv(s) && c < |s.cpus| && s' == s.(cpus := s'.cpus) && |s'.cpus| == |s.cpus| && s'.cpus == s.cpus[c := s'.cpus[c]]
    requires s'.cpus[c].idle == s.cpus[c].idle && CpuOk(s'.cpus[c], s.states) && On(s.cpus[c], t)
    requires forall u: nat :: On(s'.cpus[c], u) <==> On(s.cpus[c], u)
    ensures Inv(s')
  {
    OneOwner(s, c, t);
    SomewhereSame(s, s', c, t, t);
    forall u: nat | On(s'.cpus[c], u) && IsIdle(s, u)
      ensures u == s.cpus[c].idle
    {
      OneOwner(s, c, u);
    }
    IdleSame(s, s', c, t);
    LocalInv(s, s', c, t);
  }

  lemma SelectCpu(k: Cpu, k': Cpu, states: seq<State>)
    requires CpuOk(k, states) && k.pc.Selecting? && k.queue != [] && k' == k.(pc := Switching(k.queue[0]), queue := k.queue[1..])
    ensures CpuOk(k', states) && forall t: nat :: On(k', t) <==> On(k, t)
  {
    assert k.queue[0] in k.queue && forall t :: t in k.queue <==> t == k.queue[0] || t in k.queue[1..];
    assert forall i :: 0 <= i < |k'.queue| ==> k'.queue[i] == k.queue[i + 1] && k.queue[i + 1] != k.queue[0];
  }

  lemma SelectInv(s: Sys, c: nat)
    requires Inv(s) && Enabled(s, c, Select)
    ensures Inv(Next(s, c, Select))
  {
    var s', k := Next(s, c, Select), s.cpus[c];
    assert CpuOk(k, s.states);
    if k.queue == [] {
      IdleOwner(s, c);
      assert At(s'.cpus[c], Chosen, k.idle);
      LocalInv(s, s', c, k.idle);
    } else {
      assert At(k, Queued, k.queue[0]);
      SelectCpu(k, s'.cpus[c], s.states);
      SameCpuInv(s, s', c, k.queue[0]);
    }
  }

  lemma SwitchToInv(s: Sys, c: nat)
    requires Inv(s) && Enabled(s, c, SwitchTo)
    ensures Inv(Next(s, c, SwitchTo)) && Asserted(s, c, SwitchTo)
  {
    var s', k := Next(s, c, SwitchTo), s.cpus[c];
    var t := k.pc.next;
    assert CpuOk(k, s.states) && At(k, Chosen, t) && At(s'.cpus[c], Running, t);
    OneOwner(s, c, t);
    LocalInv(s, s', c, t);
  }

  /** What is left to a CPU after a switch when nothing has to be done, or the last thread is ready again. */
  lemma AfterCpu(k: Cpu, states: seq<State>)
    requires CpuOk(k, states) && k.pc.After?
    ensures k.action.NoAction? ==>
              var k' := k.(pc := User, action := NoAction); CpuOk(k', states) && forall t: nat :: On(k', t) <==> On(k, t)
    ensures k.action.ParkLast? && states[k.last] == READY ==>
              var k' := k.(pc := Putting(k.last, ThenFinish)); CpuOk(k', states) && forall t: nat :: On(k', t) <==> On(k, t)
  {
  }

  /** And when the last thread is gone. */
  lemma GoneCpu(k: Cpu, states: seq<State>, states': seq<State>)
    requires CpuOk(k, states) && k.pc.After? && !k.action.NoAction?
    requires |states'| == |states| && forall t: nat :: t < |states| && t != k.last ==> states'[t] == states[t]
    ensures var k' := k.(pc := User, action := NoAction);
            CpuOk(k', states') && !On(k', k.last) && forall t: nat :: t != k.last ==> (On(k', t) <==> On(k, t))
  {
    assert forall t :: t in k.queue ==> t != k.last;
  }

  lemma AfterScheduleInv(s: Sys, c: nat)
    requires Inv(s) && Enabled(s, c, AfterSchedule)
    ensures Inv(Next(s, c, AfterSchedule))
  {
    var s', k := Next(s, c, AfterSchedule), s.cpus[c];
    assert CpuOk(k, s.states) && At(k, Running, k.current);
    AfterCpu(k, s.states);
    if k.action.NoAction? {
      SameCpuInv(s, s', c, k.current);
    } else if k.action.ParkLast? && s.states[k.last] == READY {
      assert At(k, Leaving, k.last);
      SameCpuInv(s, s', c, k.last);
    } else {
      GoneInv(s, s', c);
    }
  }

  /** The last thread is parked for good, or its reference is dropped. */
  lemma GoneInv(s: Sys, s': Sys, c: nat)
    requires Inv(s) && c < |s.cpus| && s.cpus[c].pc.After? && !s.cpus[c].action.NoAction? && s.cpus[c].last < |s.states| == |s.drops|
    requires var k := s.cpus[c];
             var done := k.(pc := User, action := NoAction);
             || (k.action.PutLast? && s' == s.(cpus := s.cpus[c := done], drops := s.drops[k.last := s.drops[k.last] + 1]))
             || (k.action.ParkLast? && s.states[k.last] == PARKING && s' == With(s, k.last, PARKED, c, done))
    ensures Inv(s') && s.drops[s.cpus[c].last] == 0
  {
    var k := s.cpus[c];
    assert CpuOk(k, s.states) && At(k, Leaving, k.last) && On(k, k.last);
    GoneCpu(k, s.states, s'.states);
    OneOwner(s, c, k.last);
    assert forall d :: 0 <= d < |s.cpus| ==> !On(s'.cpus[d], k.last);
    LocalInv(s, s', c, k.last);
  }
}
