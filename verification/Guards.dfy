// The static-initialisation guards (cxx_guards.cpp) as a transition system over
// any number of tasks and guards, after the scheduler has started.
//
// One mutex protects the guard bytes and the waiting count; one counting
// semaphore, shared by all guards, wakes the waiters.

module Guards {
  import opened Machine

  type Task = nat
  type Guard = nat

  /// Capacity of the counting semaphore (INT_MAX).
  const SEM_MAX: nat := 0x7FFF_FFFF

  /// Where a task is in the guard functions.
  datatype PC =
    | Idle                               // outside the guard functions
    | AcqLock(g: Guard)                  // acquire: about to take the mutex
    | AcqTest(g: Guard)                  // acquire: about to test `pending`
    | WaitUnlock(g: Guard)               // wait: about to give the mutex
    | WaitToken(g: Guard)                // wait: about to take the semaphore
    | WaitLock(g: Guard)                 // wait: about to take the mutex again
    | WaitTest(g: Guard)                 // wait: about to test `pending` again
    | AcqDecide(g: Guard)                // acquire: about to test `ready`
    | AcqReturn(g: Guard, first: bool)   // acquire: about to give the mutex and return
    | EndLock(g: Guard, abort: bool)     // release/abort: about to take the mutex
    | EndClear(g: Guard, abort: bool)    // release/abort: about to clear `pending`
    | EndSignal(left: nat)               // release/abort: signals still to give

  datatype State = State(
    mutex: Option<Task>,
    sem: nat,
    waiting: int,
    ready: set<Guard>,
    pending: set<Guard>,
    busy: set<(Task, Guard)>,  // acquire chose this task and it has not ended the guard yet
    pc: map<Task, PC>)

  /// A step: a task calls a guard function, or continues the one it is in.
  datatype Step = Acquire(t: Task, g: Guard) | Release(t: Task, g: Guard) | Abort(t: Task, g: Guard) | Go(t: Task)

  predicate Holds(p: PC) {
    p.AcqTest? || p.WaitUnlock? || p.WaitTest? || p.AcqDecide? || p.AcqReturn? || p.EndClear? || p.EndSignal?
  }

  predicate InWait(p: PC) {
    p.WaitUnlock? || p.WaitToken? || p.WaitLock? || p.WaitTest?
  }

  /// Waiting without having taken a token.
  predicate Thirsty(p: PC) {
    p.WaitUnlock? || p.WaitToken?
  }

  predicate Enabled(s: State, step: Step) {
    && step.t in s.pc
    && match step
       case Acquire(t, g) => s.pc[t].Idle?
       case Release(t, g) => s.pc[t].Idle? && (t, g) in s.busy
       case Abort(t, g) => s.pc[t].Idle? && (t, g) in s.busy
       case Go(t) =>
         match s.pc[t]
         case Idle => false
         case AcqLock(_) => s.mutex.None?
         case WaitLock(_) => s.mutex.None?
         case EndLock(_, _) => s.mutex.None?
         case WaitToken(_) => s.sem > 0
         case _ => true
  }

  /// What the code asserts before the step.
  predicate Asserts(s: State, step: Step)
    requires Enabled(s, step)
  {
    step.Go? && s.pc[step.t].EndClear? ==>
      var p := s.pc[step.t];
      p.g in s.pending && (p.abort ==> p.g !in s.ready)
  }

  function Apply(s: State, step: Step): State
    requires Enabled(s, step)
  {
    var t := step.t;
    match step
    case Acquire(_, g) => s.(pc := s.pc[t := AcqLock(g)])
    case Release(_, g) => s.(pc := s.pc[t := EndLock(g, false)])
    case Abort(_, g) => s.(pc := s.pc[t := EndLock(g, true)])
    case Go(_) =>
      match s.pc[t]
      case AcqLock(g) => s.(mutex := Some(t), pc := s.pc[t := AcqTest(g)])
      case AcqTest(g) =>
        if g in s.pending then s.(waiting := s.waiting + 1, pc := s.pc[t := WaitUnlock(g)])
        else s.(pc := s.pc[t := AcqDecide(g)])
      case WaitUnlock(g) => s.(mutex := None, pc := s.pc[t := WaitToken(g)])
      case WaitToken(g) => s.(sem := s.sem - 1, pc := s.pc[t := WaitLock(g)])
      case WaitLock(g) => s.(mutex := Some(t), pc := s.pc[t := WaitTest(g)])
      case WaitTest(g) =>
        if g in s.pending then s.(pc := s.pc[t := WaitUnlock(g)])
        else s.(waiting := s.waiting - 1, pc := s.pc[t := AcqDecide(g)])
      case AcqDecide(g) =>
        if g in s.ready then s.(pc := s.pc[t := AcqReturn(g, false)])
        else s.(pending := s.pending + {g}, busy := s.busy + {(t, g)}, pc := s.pc[t := AcqReturn(g, true)])
      case AcqReturn(g, _) => s.(mutex := None, pc := s.pc[t := Idle])
      case EndLock(g, abort) => s.(mutex := Some(t), pc := s.pc[t := EndClear(g, abort)])
      case EndClear(g, abort) =>
        s.(pending := s.pending - {g},
           ready := if abort then s.ready else s.ready + {g},
           busy := s.busy - {(t, g)},
           pc := s.pc[t := EndSignal(if s.waiting > 0 then s.waiting else 0)])
      case EndSignal(left) =>
        if left == 0 then s.(mutex := None, pc := s.pc[t := Idle])
        else s.(sem := Min(s.sem + 1, SEM_MAX), pc := s.pc[t := EndSignal(left - 1)])
  }

  ghost predicate Initial(s: State) {
    && s.mutex.None? && s.sem == 0 && s.waiting == 0
    && s.ready == {} && s.pending == {} && s.busy == {}
    && (forall t <- s.pc :: s.pc[t].Idle?)
    && |s.pc.Keys| <= SEM_MAX
  }

  /// `steps` can be taken one after the other from `s`.
  ghost predicate Runs(s: State, steps: seq<Step>)
    decreases |steps|
  {
    steps == [] || (Enabled(s, steps[0]) && Runs(Apply(s, steps[0]), steps[1..]))
  }

  function After(s: State, steps: seq<Step>): State
    requires Runs(s, steps)
    decreases |steps|
  {
    if steps == [] then s else After(Apply(s, steps[0]), steps[1..])
  }

  // ---- The invariant ----

  ghost function Waiters(pc: map<Task, PC>): set<Task> {
    set t | t in pc && InWait(pc[t])
  }

  ghost function ThirstyTasks(pc: map<Task, PC>): set<Task> {
    set t | t in pc && Thirsty(pc[t])
  }

  ghost predicate MutexInv(s: State) {
    && (forall t <- s.pc :: Holds(s.pc[t]) <==> s.mutex == Some(t))
    && (s.mutex.Some? ==> s.mutex.value in s.pc)
  }

  /// `pending` says exactly that one task is initialising the guard.
  ghost predicate GuardInv(s: State) {
    && (forall b <- s.busy :: b.0 in s.pc && b.1 in s.pending)
    && (forall g <- s.pending :: g !in s.ready && exists b <- s.busy :: b.1 == g)
    && (forall b, c :: b in s.busy && c in s.busy && b.1 == c.1 ==> b == c)
  }

  ghost predicate LocalInv(s: State, t: Task)
    requires t in s.pc
  {
    match s.pc[t]
    case WaitUnlock(g) => g in s.pending
    case AcqDecide(g) => g !in s.pending
    case AcqReturn(g, first) => first ==> (t, g) in s.busy
    case EndLock(g, _) => (t, g) in s.busy
    case EndClear(g, _) => (t, g) in s.busy
    case _ => true
  }

  /// Some task is giving the signals of a release or an abort.
  predicate Signalling(s: State) {
    s.mutex.Some? && s.mutex.value in s.pc && s.pc[s.mutex.value].EndSignal?
  }

  /// Signals the task holding the mutex has still to give.
  function Owed(s: State): nat {
    if Signalling(s) then s.pc[s.mutex.value].left else 0
  }

  ghost predicate CountInv(s: State) {
    && s.waiting == |Waiters(s.pc)|
    && s.sem <= SEM_MAX && |s.pc.Keys| <= SEM_MAX
    && (s.pending == {} || Signalling(s) ==> s.sem + Owed(s) >= |ThirstyTasks(s.pc)|)
  }

  ghost predicate Inv(s: State) {
    MutexInv(s) && GuardInv(s) && (forall t <- s.pc :: LocalInv(s, t)) && CountInv(s)
  }

  lemma InitialInv(s: State)
    requires Initial(s)
    ensures Inv(s)
  {
    assert Waiters(s.pc) == {} && ThirstyTasks(s.pc) == {};
  }

  lemma StepMutex(s: State, step: Step)
    requires Inv(s) && Enabled(s, step)
    ensures MutexInv(Apply(s, step))
  {
  }

  lemma StepGuards(s: State, step: Step)
    requires Inv(s) && Enabled(s, step)
    ensures GuardInv(Apply(s, step))
  {
    var s' := Apply(s, step);
    assert LocalInv(s, step.t);
  }

  lemma StepLocal(s: State, step: Step, u: Task)
    requires Inv(s) && Enabled(s, step) && u in s.pc
    ensures LocalInv(Apply(s, step), u)
  {
    assert LocalInv(s, u) && LocalInv(s, step.t);
  }

  lemma SubsetSize(a: set<Task>, b: set<Task>)
    requires a <= b
    ensures |a| <= |b|
  {
    assert b == a + (b - a);
  }

  /// Moving one task changes the counts by what that task contributes.
  lemma WaitersAfter(pc: map<Task, PC>, t: Task, p: PC)
    requires t in pc
    ensures |Waiters(pc[t := p])| == |Waiters(pc)| + (if InWait(p) then 1 else 0) - (if InWait(pc[t]) then 1 else 0)
  {
    var w, w' := Waiters(pc), Waiters(pc[t := p]);
    SizeWith(w, t);
    assert t in w <==> InWait(pc[t]);
    if InWait(p) {
      assert w' == w + {t};
    } else {
      assert w' == w - {t};
    }
  }

  lemma ThirstyAfter(pc: map<Task, PC>, t: Task, p: PC)
    requires t in pc
    ensures |ThirstyTasks(pc[t := p])| ==
      |ThirstyTasks(pc)| + (if Thirsty(p) then 1 else 0) - (if Thirsty(pc[t]) then 1 else 0)
  {
    var w, w' := ThirstyTasks(pc), ThirstyTasks(pc[t := p]);
    SizeWith(w, t);
    assert t in w <==> Thirsty(pc[t]);
    if Thirsty(p) {
      assert w' == w + {t};
    } else {
      assert w' == w - {t};
    }
  }

  lemma ThirstyBounds(pc: map<Task, PC>)
    ensures |ThirstyTasks(pc)| <= |Waiters(pc)| && |ThirstyTasks(pc)| <= |pc.Keys|
  {
    SubsetSize(ThirstyTasks(pc), Waiters(pc));
    SubsetSize(ThirstyTasks(pc), pc.Keys);
  }

  /// How the counts of a state relate to those before the step.
  lemma CountsAfter(s: State, step: Step)
    requires Inv(s) && Enabled(s, step)
    ensures var s' := Apply(s, step);
      && step.t in s'.pc && s'.pc.Keys == s.pc.Keys
      && |ThirstyTasks(s'.pc)| <= |Waiters(s'.pc)| && |ThirstyTasks(s'.pc)| <= |s'.pc.Keys|
    ensures var p, p', s' := s.pc[step.t], Apply(s, step).pc[step.t], Apply(s, step);
      && |Waiters(s'.pc)| == |Waiters(s.pc)| + (if InWait(p') then 1 else 0) - (if InWait(p) then 1 else 0)
      && |ThirstyTasks(s'.pc)| ==
           |ThirstyTasks(s.pc)| + (if Thirsty(p') then 1 else 0) - (if Thirsty(p) then 1 else 0)
  {
    hide Waiters, ThirstyTasks, InWait, Thirsty, Inv;
    var s' := Apply(s, step);
    assert s'.pc.Keys == s.pc.Keys && s'.pc == s.pc[step.t := s'.pc[step.t]];
    WaitersAfter(s.pc, step.t, s'.pc[step.t]);
    ThirstyAfter(s.pc, step.t, s'.pc[step.t]);
    ThirstyBounds(s'.pc);
  }

  lemma StepCounts(s: State, step: Step)
    requires Inv(s) && Enabled(s, step)
    ensures CountInv(Apply(s, step))
  {
    hide Waiters, ThirstyTasks, GuardInv;
    assert LocalInv(s, step.t);
    CountsAfter(s, step);
    hide LocalInv;
  }

  lemma StepInv(s: State, step: Step)
    requires Inv(s) && Enabled(s, step)
    ensures Inv(Apply(s, step))
    ensures Asserts(s, step)
  {
    StepMutex(s, step);
    StepGuards(s, step);
    StepCounts(s, step);
    assert LocalInv(s, step.t);
    forall u | u in Apply(s, step).pc ensures LocalInv(Apply(s, step), u) {
      StepLocal(s, step, u);
    }
  }

  lemma {:induction false} RunInv(s: State, steps: seq<Step>)
    requires Inv(s) && Runs(s, steps)
    ensures Inv(After(s, steps))
    decreases |steps|
  {
    if steps != [] {
      StepInv(s, steps[0]);
      RunInv(Apply(s, steps[0]), steps[1..]);
    }
  }

  // ---- What holds in every run of any number of tasks and guards ----

  /// At most one task initialises a guard, no guard is both ready and pending, the
  /// mutex has at most one holder, the waiting count is the number of tasks in the
  /// wait section, and no assertion of the code fails.
  lemma Safety(s: State, steps: seq<Step>, next: Step)
    requires Initial(s) && Runs(s, steps)
    ensures var e := After(s, steps);
      && (forall t, u, g :: (t, g) in e.busy && (u, g) in e.busy ==> t == u)
      && e.ready !! e.pending
      && (forall g :: g in e.pending <==> exists b <- e.busy :: b.1 == g)
      && (forall t, u :: t in e.pc && u in e.pc && Holds(e.pc[t]) && Holds(e.pc[u]) ==> t == u)
      && e.waiting == |Waiters(e.pc)|
      && (Enabled(e, next) ==> Asserts(e, next))
  {
    InitialInv(s);
    RunInv(s, steps);
    if Enabled(After(s, steps), next) {
      StepInv(After(s, steps), next);
    }
  }

  /// Once a guard is ready it stays ready, and no acquire tells a task to
  /// initialise it again.
  lemma {:induction false} ReadyIsFinal(s: State, steps: seq<Step>, g: Guard)
    requires Inv(s) && Runs(s, steps) && g in s.ready
    ensures var e := After(s, steps);
      && g in e.ready
      && (forall t <- e.pc :: e.pc[t] != AcqReturn(g, true))
      && (forall b <- e.busy :: b.1 != g)
    decreases |steps|
  {
    if steps == [] {
      forall t | t in s.pc ensures s.pc[t] != AcqReturn(g, true) {
        assert LocalInv(s, t);
      }
    } else {
      StepInv(s, steps[0]);
      ReadyIsFinal(Apply(s, steps[0]), steps[1..], g);
    }
  }

  /// A task leaving acquire is told 1 exactly if it is the one to initialise the guard,
  /// and is told 0 only if the guard is ready.
  ghost predicate Answered(s: State) {
    forall t <- s.pc :: s.pc[t].AcqReturn? ==>
      var g := s.pc[t].g;
      (s.pc[t].first <==> (t, g) in s.busy) && (!s.pc[t].first ==> g in s.ready)
  }

  lemma StepAnswered(s: State, step: Step)
    requires Inv(s) && Answered(s) && Enabled(s, step)
    ensures Answered(Apply(s, step))
  {
    assert LocalInv(s, step.t);
    hide CountInv;
  }

  lemma {:induction false} RunAnswered(s: State, steps: seq<Step>)
    requires Inv(s) && Answered(s) && Runs(s, steps)
    ensures Answered(After(s, steps))
    decreases |steps|
  {
    if steps != [] {
      StepInv(s, steps[0]);
      StepAnswered(s, steps[0]);
      RunAnswered(Apply(s, steps[0]), steps[1..]);
    }
  }

  /// In every run acquire answers 1 to the task that has to initialise the guard, to
  /// no other, and answers 0 only for a guard that is ready.
  lemma Answers(s: State, steps: seq<Step>, t: Task)
    requires Initial(s) && Runs(s, steps)
    ensures var e := After(s, steps);
      t in e.pc && e.pc[t].AcqReturn? ==>
        var g := e.pc[t].g;
        && (e.pc[t].first <==> (t, g) in e.busy)
        && (e.pc[t].first ==> g in e.pending && forall u :: (u, g) in e.busy ==> u == t)
        && (!e.pc[t].first ==> g in e.ready)
  {
    InitialInv(s);
    RunInv(s, steps);
    RunAnswered(s, steps);
  }

  /// Nobody is about to make the guard ready.
  ghost predicate NoReleaseUnderWay(s: State, g: Guard) {
    g !in s.ready && forall t <- s.pc :: s.pc[t] != EndLock(g, false) && s.pc[t] != EndClear(g, false)
  }

  /// A guard becomes ready only if some task releases it.
  lemma {:induction false} OnlyReleaseMakesReady(s: State, steps: seq<Step>, g: Guard)
    requires Runs(s, steps) && NoReleaseUnderWay(s, g)
    requires forall step <- steps :: !(step.Release? && step.g == g)
    ensures g !in After(s, steps).ready
    decreases |steps|
  {
    if steps != [] {
      assert steps[0] in steps;
      assert forall step <- steps[1..] :: step in steps;
      OnlyReleaseMakesReady(Apply(s, steps[0]), steps[1..], g);
    }
  }

  /// The semaphore holds a token for every waiter that has not taken one whenever no
  /// guard is being initialised and no signalling is under way; and, with any number
  /// of guards, each time a release or an abort is about to give the mutex back.
  lemma NoLostWakeup(s: State, steps: seq<Step>)
    requires Initial(s) && Runs(s, steps)
    ensures var e := After(s, steps);
      && (e.pending == {} && (forall t <- e.pc :: !e.pc[t].EndSignal?) ==> e.sem >= |ThirstyTasks(e.pc)|)
      && (forall t <- e.pc :: e.pc[t] == EndSignal(0) ==> e.sem >= |ThirstyTasks(e.pc)|)
      && (forall t <- e.pc :: e.pc[t].EndSignal? ==> e.sem + e.pc[t].left >= |ThirstyTasks(e.pc)|)
  {
    InitialInv(s);
    RunInv(s, steps);
  }

  /// With one guard in use this says: whenever that guard is not pending.
  lemma NoLostWakeupOneGuard(s: State, steps: seq<Step>, g: Guard)
    requires Initial(s) && Runs(s, steps)
    requires forall step <- steps :: !step.Go? ==> step.g == g
    ensures var e := After(s, steps);
      g !in e.pending && (forall t <- e.pc :: !e.pc[t].EndSignal?) ==> e.sem >= |ThirstyTasks(e.pc)|
  {
    NoLostWakeup(s, steps);
    InitialInv(s);
    OnlyGuard(s, steps, g);
  }

  ghost predicate Uses(s: State, g: Guard) {
    && s.pending <= {g}
    && forall t <- s.pc ::
         match s.pc[t]
         case Idle => true
         case EndSignal(_) => true
         case p => p.g == g
  }

  lemma {:induction false} OnlyGuard(s: State, steps: seq<Step>, g: Guard)
    requires Runs(s, steps) && Uses(s, g)
    requires forall step <- steps :: !step.Go? ==> step.g == g
    ensures After(s, steps).pending <= {g}
    decreases |steps|
  {
    if steps != [] {
      assert steps[0] in steps;
      assert forall step <- steps[1..] :: step in steps;
      OnlyGuard(Apply(s, steps[0]), steps[1..], g);
    }
  }

  /// When every task that is inside a guard function is blocked, some guard is
  /// being initialised by a task that still has to end it.
  lemma Progress(s: State, steps: seq<Step>)
    requires Initial(s) && Runs(s, steps)
    requires exists t <- After(s, steps).pc :: !After(s, steps).pc[t].Idle?
    ensures var e := After(s, steps);
      (exists t <- e.pc :: Enabled(e, Go(t))) || e.busy != {}
  {
    InitialInv(s);
    RunInv(s, steps);
    var e := After(s, steps);
    if e.busy == {} {
      var t :| t in e.pc && !e.pc[t].Idle?;
      if e.mutex.Some? {
        assert Enabled(e, Go(e.mutex.value));
      } else if e.pc[t].WaitToken? {
        assert e.pending == {};
        assert t in ThirstyTasks(e.pc);
        assert Enabled(e, Go(t));
      } else {
        assert Enabled(e, Go(t));
      }
    }
  }

  /// No task acquires a guard that it is initialising itself.
  ghost predicate NoReentry(s: State, steps: seq<Step>)
    requires Runs(s, steps)
    decreases |steps|
  {
    steps != [] ==>
      && (steps[0].Acquire? ==> (steps[0].t, steps[0].g) !in s.busy)
      && NoReentry(Apply(s, steps[0]), steps[1..])
  }

  /// A task that initialises the guard is outside the guard functions, is leaving
  /// acquire, or is ending the initialisation.
  ghost predicate Outside(s: State, g: Guard) {
    forall t <- s.pc :: (t, g) in s.busy ==>
      s.pc[t].Idle? || s.pc[t].AcqReturn? || s.pc[t].EndLock? || s.pc[t].EndClear?
  }

  lemma {:induction false} StaysOutside(s: State, steps: seq<Step>, g: Guard)
    requires Inv(s) && Uses(s, g) && Outside(s, g) && Runs(s, steps) && NoReentry(s, steps)
    requires forall step <- steps :: !step.Go? ==> step.g == g
    ensures Outside(After(s, steps), g)
    decreases |steps|
  {
    if steps != [] {
      assert steps[0] in steps;
      assert forall step <- steps[1..] :: step in steps;
      StepInv(s, steps[0]);
      StepOutside(s, steps[0], g);
      StaysOutside(Apply(s, steps[0]), steps[1..], g);
    }
  }

  lemma StepOutside(s: State, step: Step, g: Guard)
    requires Inv(s) && Uses(s, g) && Outside(s, g) && Enabled(s, step)
    requires !step.Go? ==> step.g == g
    requires step.Acquire? ==> (step.t, step.g) !in s.busy
    ensures Uses(Apply(s, step), g) && Outside(Apply(s, step), g)
  {
    hide CountInv, GuardInv;
    assert LocalInv(s, step.t);
  }

  /// With one guard, which no task acquires while it initialises it: whenever every
  /// task inside a guard function is blocked, there is a task that initialises the
  /// guard, and it is outside the guard functions.
  lemma NoDeadlockOneGuard(s: State, steps: seq<Step>, g: Guard) returns (t: Task)
    requires Initial(s) && Runs(s, steps) && NoReentry(s, steps)
    requires forall step <- steps :: !step.Go? ==> step.g == g
    requires exists u <- After(s, steps).pc :: !After(s, steps).pc[u].Idle?
    requires forall u <- After(s, steps).pc :: !Enabled(After(s, steps), Go(u))
    ensures var e := After(s, steps);
      (t, g) in e.busy && t in e.pc && e.pc[t].Idle?
  {
    InitialInv(s);
    RunInv(s, steps);
    Progress(s, steps);
    OnlyGuard(s, steps, g);
    StaysOutside(s, steps, g);
    hide Runs, NoReentry, Initial, CountInv;
    var e := After(s, steps);
    var b :| b in e.busy;
    t := b.0;
    BlockedInitialiser(e, t);
  }

  lemma BlockedInitialiser(e: State, t: Task)
    requires MutexInv(e) && t in e.pc && forall u <- e.pc :: !Enabled(e, Go(u))
    requires e.pc[t].Idle? || e.pc[t].AcqReturn? || e.pc[t].EndLock? || e.pc[t].EndClear?
    ensures e.pc[t].Idle?
  {
    assert e.mutex.Some? ==> !Enabled(e, Go(e.mutex.value));
    assert !Enabled(e, Go(t));
  }

  // ---- With several guards a token can go to the wrong waiter ----

  /// The run only uses guards of `gs`.
  ghost predicate Only(steps: seq<Step>, gs: set<Guard>) {
    forall step <- steps :: !step.Go? ==> step.g in gs
  }

  /// A task waits for a guard that nobody initialises, nobody is signalling, and
  /// there is no token for it.
  ghost predicate Starves(s: State, t: Task) {
    && t in s.pc && s.pc[t].WaitToken? && s.pc[t].g !in s.pending
    && (forall u <- s.pc :: !s.pc[u].EndSignal?)
    && s.sem == 0
  }

  lemma {:induction false} RunsOn(s: State, x: seq<Step>, y: seq<Step>)
    requires Runs(s, x) && Runs(After(s, x), y)
    ensures Runs(s, x + y) && After(s, x + y) == After(After(s, x), y)
    decreases |x|
  {
    if x == [] {
      assert x + y == y;
    } else {
      RunsOn(Apply(s, x[0]), x[1..], y);
      assert (x + y)[1..] == x[1..] + y && (x + y)[0] == x[0];
    }
  }

  lemma RunsOne(s: State, step: Step)
    requires Enabled(s, step)
    ensures Runs(s, [step]) && After(s, [step]) == Apply(s, step)
  {
    assert Runs(Apply(s, step), []);
  }

  /// A first step and a run from its result are a run.
  lemma StepAndRun(s: State, step: Step, rest: seq<Step>, gs: set<Guard>)
    requires Enabled(s, step) && (!step.Go? ==> step.g in gs)
    requires Runs(Apply(s, step), rest) && Only(rest, gs)
    ensures Runs(s, [step] + rest) && After(s, [step] + rest) == After(Apply(s, step), rest)
    ensures Only([step] + rest, gs)
  {
    RunsOne(s, step);
    RunsOn(s, [step], rest);
  }

  /// A task goes on from a state in which it is not idle.
  lemma Moves(s: State, t: Task, n: nat, gs: set<Guard>) returns (steps: seq<Step>)
    requires CanMove(s, t, n)
    ensures Runs(s, steps) && After(s, steps) == Moved(s, t, n) && Only(steps, gs)
    decreases n
  {
    steps := [];
    if n > 0 {
      var rest := Moves(Apply(s, Go(t)), t, n - 1, gs);
      StepAndRun(s, Go(t), rest, gs);
      steps := [Go(t)] + rest;
    }
  }

  predicate CanMove(s: State, t: Task, n: nat)
    decreases n
  {
    n == 0 || (Enabled(s, Go(t)) && CanMove(Apply(s, Go(t)), t, n - 1))
  }

  function Moved(s: State, t: Task, n: nat): State
    requires CanMove(s, t, n)
    decreases n
  {
    if n == 0 then s else Moved(Apply(s, Go(t)), t, n - 1)
  }

  lemma FourMoves(s: State, t: Task)
    requires Enabled(s, Go(t)) && Enabled(Apply(s, Go(t)), Go(t))
    requires Enabled(Apply(Apply(s, Go(t)), Go(t)), Go(t))
    requires Enabled(Apply(Apply(Apply(s, Go(t)), Go(t)), Go(t)), Go(t))
    ensures CanMove(s, t, 4)
    ensures Moved(s, t, 4) == Apply(Apply(Apply(Apply(s, Go(t)), Go(t)), Go(t)), Go(t))
  {
    ThreeMoves(Apply(s, Go(t)), t);
  }

  lemma ThreeMoves(s: State, t: Task)
    requires Enabled(s, Go(t)) && Enabled(Apply(s, Go(t)), Go(t))
    requires Enabled(Apply(Apply(s, Go(t)), Go(t)), Go(t))
    ensures CanMove(s, t, 3)
    ensures Moved(s, t, 3) == Apply(Apply(Apply(s, Go(t)), Go(t)), Go(t))
  {
    hide Enabled, Apply;
    var s2 := Apply(Apply(s, Go(t)), Go(t));
    assert CanMove(s2, t, 1) && Moved(s2, t, 1) == Apply(s2, Go(t));
    assert CanMove(Apply(s, Go(t)), t, 2);
  }

  /// A call and the `n` steps of its task after it.
  lemma Calls(s: State, call: Step, n: nat, gs: set<Guard>) returns (steps: seq<Step>)
    requires !call.Go? && Enabled(s, call) && call.g in gs && CanMove(Apply(s, call), call.t, n)
    ensures Runs(s, steps) && After(s, steps) == Moved(Apply(s, call), call.t, n) && Only(steps, gs)
  {
    var rest := Moves(Apply(s, call), call.t, n, gs);
    StepAndRun(s, call, rest, gs);
    steps := [call] + rest;
  }

  ghost predicate Free(s: State, t: Task) {
    s.mutex.None? && t in s.pc && s.pc[t].Idle?
  }

  /// A task acquires a guard that nobody uses.
  lemma Initialises(s: State, t: Task, g: Guard, gs: set<Guard>) returns (steps: seq<Step>)
    requires Free(s, t) && g in gs && g !in s.pending && g !in s.ready
    ensures Runs(s, steps) && Only(steps, gs)
    ensures After(s, steps) == s.(pending := s.pending + {g}, busy := s.busy + {(t, g)})
  {
    FourMoves(Apply(s, Acquire(t, g)), t);
    steps := Calls(s, Acquire(t, g), 4, gs);
    assert After(s, steps).pc == s.pc;
  }

  /// A task starts to wait for a guard.
  lemma StartsToWait(s: State, t: Task, g: Guard, gs: set<Guard>) returns (steps: seq<Step>)
    requires Free(s, t) && g in gs && g in s.pending
    ensures Runs(s, steps) && Only(steps, gs)
    ensures After(s, steps) == s.(waiting := s.waiting + 1, pc := s.pc[t := WaitToken(g)])
  {
    ThreeMoves(Apply(s, Acquire(t, g)), t);
    steps := Calls(s, Acquire(t, g), 3, gs);
    assert After(s, steps).pc == s.pc[t := WaitToken(g)];
  }

  /// Giving the signals, and then the mutex.
  lemma {:induction false} Signals(s: State, t: Task, gs: set<Guard>) returns (steps: seq<Step>)
    requires t in s.pc && s.pc[t].EndSignal? && s.mutex == Some(t) && s.sem + s.pc[t].left <= SEM_MAX
    ensures Runs(s, steps) && Only(steps, gs)
    ensures After(s, steps) == s.(sem := s.sem + s.pc[t].left, mutex := None, pc := s.pc[t := Idle])
    decreases s.pc[t].left
  {
    var next := Apply(s, Go(t));
    var rest := [];
    if s.pc[t].left > 0 {
      rest := Signals(next, t, gs);
      assert next.pc[t := Idle] == s.pc[t := Idle];
    } else {
      assert next == s.(mutex := None, pc := s.pc[t := Idle]);
      assert Runs(next, []);
    }
    StepAndRun(s, Go(t), rest, gs);
    steps := [Go(t)] + rest;
  }

  /// A call of release or abort by the initialising task, run alone: the guard is no
  /// longer pending, it is ready exactly after a release (or if it was before), and
  /// there is one token more for every waiter.
  lemma Ends(s: State, t: Task, g: Guard, abort: bool, gs: set<Guard>) returns (steps: seq<Step>)
    requires Free(s, t) && g in gs && (t, g) in s.busy && s.waiting >= 0 && s.sem + s.waiting <= SEM_MAX
    ensures Runs(s, steps) && Only(steps, gs)
    ensures steps != [] && steps[0] == if abort then Abort(t, g) else Release(t, g)
    ensures After(s, steps) == s.(
      pending := s.pending - {g}, ready := if abort then s.ready else s.ready + {g},
      busy := s.busy - {(t, g)}, sem := s.sem + s.waiting)
  {
    var call := if abort then Abort(t, g) else Release(t, g);
    var s1 := Apply(s, call);
    var s2 := Apply(s1, Go(t));
    var s3 := Apply(s2, Go(t));
    var rest := Signals(s3, t, gs);
    assert s3.pc[t := Idle] == s.pc;
    StepAndRun(s2, Go(t), rest, gs);
    StepAndRun(s1, Go(t), [Go(t)] + rest, gs);
    StepAndRun(s, call, [Go(t)] + ([Go(t)] + rest), gs);
    steps := [call] + ([Go(t)] + ([Go(t)] + rest));
  }

  /// A waiting task takes a token, finds its guard pending and waits again.
  lemma TakesToken(s: State, t: Task, g: Guard, gs: set<Guard>) returns (steps: seq<Step>)
    requires s.mutex.None? && t in s.pc && s.pc[t] == WaitToken(g) && g in s.pending && s.sem > 0
    ensures Runs(s, steps) && Only(steps, gs)
    ensures After(s, steps) == s.(sem := s.sem - 1)
  {
    FourMoves(s, t);
    steps := Moves(s, t, 4, gs);
    assert After(s, steps).pc == s.pc;
  }

  /// With any two guards and any two tasks a token can go to the wrong waiter: a task
  /// that initialises `h` waits for `g`; the task that initialised `g` releases it,
  /// waits for `h` and takes the only token.  Guard `g` is ready, yet both tasks are
  /// blocked for good.
  lemma TwoGuardsCanStarve(s: State, a: Task, b: Task, g: Guard, h: Guard) returns (steps: seq<Step>)
    requires Initial(s) && a in s.pc && b in s.pc && a != b && g != h
    ensures Runs(s, steps) && Only(steps, {g, h})
    ensures var e := After(s, steps);
      && g in e.ready && Starves(e, b) && e.pc[b] == WaitToken(g)
      && e.pc == s.pc[a := WaitToken(h)][b := WaitToken(g)]
      && (forall t <- e.pc :: !Enabled(e, Go(t)))
  {
    var gs := {g, h};
    var x := Initialises(s, b, h, gs);
    var s1 := After(s, x);
    var y := Initialises(s1, a, g, gs);
    var s2 := After(s1, y);
    RunsOn(s, x, y);
    var z := StartsToWait(s2, b, g, gs);
    var s3 := After(s2, z);
    RunsOn(s, x + y, z);
    var u := Ends(s3, a, g, false, gs);
    var s4 := After(s3, u);
    RunsOn(s, x + y + z, u);
    var v := StartsToWait(s4, a, h, gs);
    var s5 := After(s4, v);
    RunsOn(s, x + y + z + u, v);
    var w := TakesToken(s5, a, h, gs);
    RunsOn(s, x + y + z + u + v, w);
    steps := x + y + z + u + v + w;
  }

  /// No run that uses only the guards of `gs` makes a task starve.
  ghost predicate NeverStarves(s: State, gs: set<Guard>) {
    forall steps, t :: Runs(s, steps) && Only(steps, gs) ==> !Starves(After(s, steps), t)
  }

  /// With at least two tasks: exactly when at most one guard is in use, every waiter
  /// of a guard that is not pending finds a token.
  lemma StarvesExactlyWithTwoGuards(s: State, gs: set<Guard>)
    requires Initial(s) && exists a, b :: a in s.pc && b in s.pc && a != b
    ensures NeverStarves(s, gs) <==> forall g, h :: g in gs && h in gs ==> g == h
  {
    if g, h :| g in gs && h in gs && g != h {
      var a, b :| a in s.pc && b in s.pc && a != b;
      var steps := TwoGuardsCanStarve(s, a, b, g, h);
      assert Only(steps, gs);
      assert Starves(After(s, steps), b);
    } else {
      forall steps, t | Runs(s, steps) && Only(steps, gs)
        ensures !Starves(After(s, steps), t)
      {
        var e := After(s, steps);
        if Starves(e, t) {
          WaitsForUsed(s, steps, gs);
          var g := e.pc[t].g;
          assert ThereFor(e.pc[t], gs);
          assert t in ThirstyTasks(e.pc);
          NoLostWakeupOneGuard(s, steps, g);
        }
      }
    }
  }

  /// A task inside a guard function is there for a guard in use.
  ghost predicate ThereFor(p: PC, gs: set<Guard>) {
    p.Idle? || p.EndSignal? || p.g in gs
  }

  lemma {:induction false} WaitsForUsed(s: State, steps: seq<Step>, gs: set<Guard>)
    requires Runs(s, steps) && Only(steps, gs)
    requires forall u <- s.pc :: ThereFor(s.pc[u], gs)
    ensures forall u <- After(s, steps).pc :: ThereFor(After(s, steps).pc[u], gs)
    decreases |steps|
  {
    if steps != [] {
      assert steps[0] in steps;
      assert forall step <- steps[1..] :: step in steps;
      WaitsForUsed(Apply(s, steps[0]), steps[1..], gs);
    }
  }
}
