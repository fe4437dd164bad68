/** The hand-off of tasks between the main thread and the workers, as a state machine.

    Every worker has three locks, treated as binary semaphores: `set` guards its task slot, `exec` lets it run, `fin`
    tells that it has finished.  A step is one lock, unlock, store, check or execution; the workers and the main
    thread interleave freely. */
module Runtime {

  datatype Option<T> = None | Some(value: T)

  /** Where a worker is in its thread function. */
  datatype WorkerPc =
    | Unborn       // not yet created
    | LockFin      // task_finished_mutex.lock()
    | LockExec     // first task_execute_mutex.lock()
    | CountDown    // counter--
    | Await        // task_execute_mutex.lock(), before the loop and at the end of its body
    | Check        // while (keep_running)
    | Execute      // tasks[i].execute()
    | FreeFin      // task_finished_mutex.unlock()
    | FreeSet      // task_set_mutex.unlock()
    | Gone         // thread has ended

  /** `done` records the submissions whose task this worker has executed. */
  datatype Worker = Worker(
    pc: WorkerPc, setLocked: bool, execLocked: bool, finLocked: bool, task: Option<nat>, done: seq<nat>)

  datatype MainPc =
    | Spawn(i: nat)    // create locks and thread i
    | AwaitAll         // while (counter) usleep
    | Idle             // no submission in progress
    | LockSet(i: nat)  // task_set_mutex[i].lock()
    | Store(i: nat)    // tasks[i] = new task
    | Release(i: nat)  // task_execute_mutex[i].unlock()
    | Collect(i: nat)  // task_finished_mutex[i].lock()
    | Wake(i: nat)     // destructor: task_execute_mutex[i].unlock()
    | Join(i: nat)     // destructor: threads[i].join()
    | Stopped

  /** `job` counts the finished submissions. */
  datatype State = State(main: MainPc, counter: nat, running: bool, job: nat, workers: seq<Worker>)

  const NOBODY := Worker(Unborn, false, false, false, None, [])

  function Initial(n: nat): (s: State) {
    State(Spawn(0), n, true, 0, seq(n, i => NOBODY))
  }

  // ------------------------------------------------------------------- steps

  /** A lock that is taken blocks. */
  predicate WorkerCan(w: Worker) {
    match w.pc
    case Unborn => false
    case LockFin => !w.finLocked
    case LockExec => !w.execLocked
    case Await => !w.execLocked
    case Execute => w.task.Some?
    case Gone => false
    case _ => true
  }

  function WorkerDo(w: Worker, running: bool): (r: Worker)
    requires WorkerCan(w)
  {
    match w.pc
    case LockFin => w.(pc := LockExec, finLocked := true)
    case LockExec => w.(pc := CountDown, execLocked := true)
    case CountDown => w.(pc := Await)
    case Await => w.(pc := Check, execLocked := true)
    case Check => w.(pc := if running then Execute else Gone)
    case Execute => w.(pc := FreeFin, done := w.done + [w.task.value])
    case FreeFin => w.(pc := FreeSet, finLocked := false)
    case FreeSet => w.(pc := Await, setLocked := false)
  }

  /** The main thread's step; in `Idle` it waits for the caller. */
  predicate MainCan(s: State) {
    match s.main
    case Spawn(_) => true
    case AwaitAll => s.counter == 0
    case Idle => false
    case LockSet(i) => i < |s.workers| && !s.workers[i].setLocked
    case Collect(i) => i < |s.workers| && !s.workers[i].finLocked
    case Join(i) => i < |s.workers| && s.workers[i].pc == Gone
    case Store(i) => i < |s.workers|
    case Release(i) => i < |s.workers|
    case Wake(i) => true
    case Stopped => false
  }

  function MainDo(s: State): (r: State)
    requires MainCan(s)
  {
    var n := |s.workers|;
    match s.main
    case Spawn(i) =>
      if i < n then s.(main := Spawn(i + 1), workers := s.workers[i := NOBODY.(pc := LockFin)])
        else s.(main := AwaitAll)
    case AwaitAll => s.(main := Idle)
    case LockSet(i) => s.(main := Store(i), workers := s.workers[i := s.workers[i].(setLocked := true)])
    case Store(i) => s.(main := Release(i), workers := s.workers[i := s.workers[i].(task := Some(s.job))])
    case Release(i) =>
      s.(main := if i + 1 < n then LockSet(i + 1) else Collect(0),
         workers := s.workers[i := s.workers[i].(execLocked := false)])
    case Collect(i) =>
      var t := s.(workers := s.workers[i := s.workers[i].(finLocked := true)]);
      if i + 1 < n then t.(main := Collect(i + 1)) else t.(main := Idle, job := s.job + 1)
    case Wake(i) =>
      if i < n then s.(main := Join(i), workers := s.workers[i := s.workers[i].(execLocked := false)])
      else s.(main := Stopped)
    case Join(i) => s.(main := Wake(i + 1))
  }

  /** A caller of the idle runtime submits a vector, or destroys the runtime. */
  function Submit(s: State): (r: State)
    requires s.main == Idle
  {
    s.(main := if |s.workers| > 0 then LockSet(0) else Idle)
  }

  function Destroy(s: State): (r: State)
    requires s.main == Idle
  {
    s.(main := Wake(0), running := false)
  }

  datatype Step = ByWorker(i: nat) | ByMain | NewSubmission | Destruction

  predicate Can(s: State, step: Step) {
    match step
    case ByWorker(i) => i < |s.workers| && WorkerCan(s.workers[i]) && (s.workers[i].pc == CountDown ==> s.counter > 0)
    case ByMain => MainCan(s)
    case NewSubmission => s.main == Idle && |s.workers| > 0
    case Destruction => s.main == Idle
  }

  function Do(s: State, step: Step): (r: State)
    requires Can(s, step)
  {
    match step
    case ByWorker(i) =>
      var w := s.workers[i];
      s.(workers := s.workers[i := WorkerDo(w, s.running)],
         counter := if w.pc == CountDown then s.counter - 1 else s.counter)
    case ByMain => MainDo(s)
    case NewSubmission => Submit(s)
    case Destruction => Destroy(s)
  }

  // --------------------------------------------------------------- invariant

  /** How often the main thread has taken `set`, has released `exec` and has taken `fin` of worker `i`. */
  function Sets(s: State, i: nat): (k: nat) {
    s.job + match s.main
      case LockSet(t) => if i < t then 1 else 0
      case Store(t) => if i <= t then 1 else 0
      case Release(t) => if i <= t then 1 else 0
      case Collect(_) => 1
      case _ => 0
  }

  function Stores(s: State, i: nat): (k: nat) {
    s.job + match s.main
      case LockSet(t) => if i < t then 1 else 0
      case Store(t) => if i < t then 1 else 0
      case Release(t) => if i <= t then 1 else 0
      case Collect(_) => 1
      case _ => 0
  }

  function Releases(s: State, i: nat): (k: nat) {
    s.job + match s.main
      case LockSet(t) => if i < t then 1 else 0
      case Store(t) => if i < t then 1 else 0
      case Release(t) => if i < t then 1 else 0
      case Collect(_) => 1
      case _ => 0
  }

  function Collects(s: State, i: nat): (k: nat) {
    s.job + match s.main
      case Collect(t) => if i < t then 1 else 0
      case _ => 0
  }

  /** The destructor has woken worker `i`. */
  predicate Woken(s: State, i: nat) {
    match s.main
    case Wake(t) => i < t
    case Join(t) => i <= t
    case Stopped => true
    case _ => false
  }

  /** The destructor has joined worker `i`. */
  predicate HasJoined(s: State, i: nat) {
    match s.main
    case Wake(t) => i < t
    case Join(t) => i < t
    case Stopped => true
    case _ => false
  }

  predicate Shutdown(s: State) {
    s.main.Wake? || s.main.Join? || s.main.Stopped?
  }

  predicate Spawned(s: State, i: nat) {
    s.main.Spawn? ==> i < s.main.i
  }

  /** The numbers of the submissions a worker has executed: 0, 1, 2, ... */
  predicate InOrder(done: seq<nat>) {
    forall k :: 0 <= k < |done| ==> done[k] == k
  }

  /** Locks, slot and record of a worker, given how far the main thread is. */
  predicate WorkerOk(w: Worker, job: nat, sets: nat, stores: nat, releases: nat, collects: nat, woken: bool,
                     running: bool, spawned: bool, ready: bool)
  {
    var m := |w.done|;
    && InOrder(w.done)
    && (w.pc == Unborn <==> !spawned)
    && (ready ==> w.pc !in {Unborn, LockFin, LockExec, CountDown})
    && (stores > 0 ==> w.task == Some(stores - 1))
    && match w.pc
       case Unborn => w == NOBODY
       case LockFin => !w.finLocked && !w.execLocked && !w.setLocked && m == sets == releases == collects == 0 && !woken
       case LockExec => w.finLocked && !w.execLocked && !w.setLocked && m == sets == releases == collects == 0 && !woken
       case CountDown => w.finLocked && w.execLocked && !w.setLocked && m == sets == releases == collects == 0 && !woken
       case Await =>
         && w.finLocked == (collects == m) && collects <= m <= collects + 1
         && w.setLocked == (sets == m + 1) && m <= sets <= m + 1
         && m <= releases <= m + 1 && w.execLocked == (releases == m && !woken)
       case Check =>
         && w.finLocked && w.execLocked && collects == m
         && (running ==> w.setLocked && releases == m + 1 && sets == m + 1)
         && (!running ==> !w.setLocked && releases == m && sets == m && woken)
       case Execute => running && w.finLocked && w.execLocked && collects == m && w.setLocked
         && releases == sets == m + 1
       case FreeFin => running && w.finLocked && w.execLocked && collects + 1 == m && w.setLocked
         && releases == sets == m
       case FreeSet =>
         && w.execLocked == !woken && w.setLocked && releases == sets == m
         && w.finLocked == (collects == m) && collects <= m <= collects + 1
       case Gone => !running && woken && releases == m
  }

  predicate WorkerInv(s: State, i: nat)
    requires i < |s.workers|
  {
    && WorkerOk(s.workers[i], s.job, Sets(s, i), Stores(s, i), Releases(s, i), Collects(s, i), Woken(s, i), s.running,
                Spawned(s, i), !s.main.Spawn? && !s.main.AwaitAll?)
    && (HasJoined(s, i) ==> s.workers[i].pc == Gone)
  }

  /** Workers that have not counted down yet. */
  function Pending(ws: seq<Worker>): (k: nat) {
    if ws == [] then 0 else
      Pending(ws[..|ws| - 1]) + (if ws[|ws| - 1].pc in {Unborn, LockFin, LockExec, CountDown} then 1 else 0)
  }

  predicate MainInv(s: State) {
    && s.running == !Shutdown(s)
    && s.counter == Pending(s.workers)
    && (s.main.Spawn? ==> s.main.i <= |s.workers|)
    && (s.main.Spawn? || s.main.AwaitAll? ==> s.job == 0)
    && (s.main.LockSet? || s.main.Store? || s.main.Release? || s.main.Collect? || s.main.Join? ==>
        s.main.i < |s.workers|)
    && (s.main.Wake? ==> s.main.i <= |s.workers|)
  }

  predicate Inv(s: State) {
    MainInv(s) && forall i :: 0 <= i < |s.workers| ==> WorkerInv(s, i)
  }

  // ------------------------------------------------------ the invariant is kept

  lemma InitialInv(n: nat)
    ensures Inv(Initial(n))
  {
    AllPending(Initial(n).workers);
  }

  lemma {:induction false} AllPending(ws: seq<Worker>)
    requires forall i :: 0 <= i < |ws| ==> ws[i].pc == Unborn
    ensures Pending(ws) == |ws|
  {
    if ws != [] { AllPending(ws[..|ws| - 1]); }
  }

  predicate IsPending(w: Worker) {
    w.pc in {Unborn, LockFin, LockExec, CountDown}
  }

  lemma {:induction false} PendingUpdate(ws: seq<Worker>, i: nat, w: Worker)
    requires i < |ws|
    ensures Pending(ws[i := w]) ==
      Pending(ws) - (if IsPending(ws[i]) then 1 else 0) + (if IsPending(w) then 1 else 0)
  {
    var n := |ws| - 1;
    if i < n {
      assert ws[i := w][..n] == ws[..n][i := w];
      PendingUpdate(ws[..n], i, w);
    } else {
      assert ws[i := w][..n] == ws[..n];
    }
  }

  lemma {:induction false} SomePending(ws: seq<Worker>) returns (i: nat)
    requires Pending(ws) > 0
    ensures i < |ws| && IsPending(ws[i])
  {
    if IsPending(ws[|ws| - 1]) { i := |ws| - 1; } else { i := SomePending(ws[..|ws| - 1]); }
  }

  lemma {:induction false} PendingPositive(ws: seq<Worker>, i: nat)
    requires i < |ws| && IsPending(ws[i])
    ensures Pending(ws) > 0
  {
    if i < |ws| - 1 { PendingPositive(ws[..|ws| - 1], i); }
  }

  /** The main thread is never more than one submission ahead, and sets, stores, releases and collects in this order. */
  predicate Counts(job: nat, sets: nat, stores: nat, releases: nat, collects: nat, woken: bool, running: bool) {
    && job <= collects <= releases <= stores <= sets <= job + 1
    && (woken ==> !running) && (!running ==> sets == job)
  }

  lemma MainCounts(s: State, i: nat)
    requires MainInv(s)
    ensures Counts(s.job, Sets(s, i), Stores(s, i), Releases(s, i), Collects(s, i), Woken(s, i), s.running)
  {
  }

  /** A step of a worker keeps its own part of the invariant. */
  lemma WorkerStepOk(w: Worker, job: nat, sets: nat, stores: nat, releases: nat, collects: nat, woken: bool,
                     running: bool, spawned: bool, ready: bool)
    requires WorkerOk(w, job, sets, stores, releases, collects, woken, running, spawned, ready)
    requires WorkerCan(w) && Counts(job, sets, stores, releases, collects, woken, running)
    ensures WorkerOk(WorkerDo(w, running), job, sets, stores, releases, collects, woken, running, spawned, ready)
  {
  }

  lemma WorkerStepInv(s: State, i: nat)
    requires Inv(s) && Can(s, ByWorker(i))
    ensures Inv(Do(s, ByWorker(i)))
  {
    hide WorkerOk, WorkerDo, WorkerCan, IsPending, Pending;
    var r := Do(s, ByWorker(i));
    var w := s.workers[i];
    assert WorkerInv(s, i);
    MainCounts(s, i);
    WorkerStepOk(w, s.job, Sets(s, i), Stores(s, i), Releases(s, i), Collects(s, i), Woken(s, i), s.running,
                 Spawned(s, i), !s.main.Spawn? && !s.main.AwaitAll?);
    PendingUpdate(s.workers, i, WorkerDo(w, s.running));
    CountsDown(w, s.running);
    forall j | 0 <= j < |r.workers| && j != i ensures WorkerInv(r, j) {
      assert WorkerInv(s, j);
    }
  }

  lemma CountsDown(w: Worker, running: bool)
    requires WorkerCan(w)
    ensures IsPending(w) && !IsPending(WorkerDo(w, running)) <==> w.pc == CountDown
    ensures IsPending(WorkerDo(w, running)) ==> IsPending(w)
    ensures w.pc != Gone
  {
  }

  /** The main thread touches at most worker `i`; the others only see it advance. */
  lemma OthersUntouched(s: State, j: nat)
    requires Inv(s) && MainCan(s) && j < |s.workers|
    requires !s.main.AwaitAll? ==> j != s.main.i
    ensures WorkerInv(MainDo(s), j)
  {
    assert WorkerInv(s, j);
    if s.main.AwaitAll? {
      if IsPending(s.workers[j]) { PendingPositive(s.workers, j); }
    }
  }

  lemma TouchedWorker(s: State)
    requires Inv(s) && MainCan(s) && !s.main.AwaitAll? && s.main.i < |s.workers|
    ensures WorkerInv(MainDo(s), s.main.i)
    ensures IsPending(MainDo(s).workers[s.main.i]) == IsPending(s.workers[s.main.i])
  {
    assert WorkerInv(s, s.main.i);
  }

  lemma MainStepInv(s: State)
    requires Inv(s) && MainCan(s)
    ensures Inv(MainDo(s))
  {
    hide WorkerInv;
    var r := MainDo(s);
    forall j | 0 <= j < |r.workers| ensures WorkerInv(r, j) {
      if !s.main.AwaitAll? && j == s.main.i { TouchedWorker(s); } else { OthersUntouched(s, j); }
    }
    if !s.main.AwaitAll? && s.main.i < |s.workers| {
      TouchedWorker(s);
      PendingUpdate(s.workers, s.main.i, r.workers[s.main.i]);
    }
  }

  lemma CallerStepInv(s: State, step: Step)
    requires Inv(s) && Can(s, step) && (step.NewSubmission? || step.Destruction?)
    ensures Inv(Do(s, step))
  {
    var r := Do(s, step);
    forall j | 0 <= j < |r.workers| ensures WorkerInv(r, j) { assert WorkerInv(s, j); }
  }

  lemma StepInv(s: State, step: Step)
    requires Inv(s) && Can(s, step)
    ensures Inv(Do(s, step))
  {
    hide Inv;
    match step
    case ByWorker(i) => WorkerStepInv(s, i);
    case ByMain => MainStepInv(s);
    case _ => CallerStepInv(s, step);
  }

  // -------------------------------------------------------------------- runs

  /** `trace` is what `steps` make of a fresh runtime with `n` workers. */
  predicate Run(trace: seq<State>, steps: seq<Step>, n: nat) {
    |trace| == |steps| + 1 && trace[0] == Initial(n) && Follows(trace, steps)
  }

  predicate Follows(trace: seq<State>, steps: seq<Step>)
    requires |trace| == |steps| + 1
  {
    forall k {:trigger steps[k]} :: 0 <= k < |steps| ==>
        Can(trace[k], steps[k]) && trace[k + 1] == Do(trace[k], steps[k])
  }

  lemma {:induction false} RunInv(trace: seq<State>, steps: seq<Step>, n: nat, k: nat)
    requires Run(trace, steps, n) && k < |trace|
    ensures Inv(trace[k]) && |trace[k].workers| == n
  {
    hide Inv, Can, Do;
    if k == 0 {
      InitialInv(n);
    } else {
      RunInv(trace, steps, n, k - 1);
      var step := steps[k - 1];
      StepInv(trace[k - 1], step);
      SameWorkers(trace[k - 1], step);
    }
  }

  lemma SameWorkers(s: State, step: Step)
    requires Can(s, step)
    ensures |Do(s, step).workers| == |s.workers|
  {
  }

  /** Whenever no submission is in progress, every worker has executed the task of every submission so far exactly
      once, in order: a submission returns only after all workers have finished. */
  lemma ExactlyOnce(trace: seq<State>, steps: seq<Step>, n: nat, k: nat, i: nat)
    requires Run(trace, steps, n) && k < |trace| && i < |trace[k].workers|
    ensures var s, done := trace[k], trace[k].workers[i].done;
      && (forall j :: 0 <= j < |done| ==> done[j] == j) && s.job <= |done| <= s.job + 1
      && (s.main.Idle? || Shutdown(s) ==> |done| == s.job)
  {
    RunInv(trace, steps, n, k);
    assert WorkerInv(trace[k], i);
    MainCounts(trace[k], i);
  }

  /** When the main thread replaces the task of a worker, that worker is neither executing nor about to. */
  lemma SlotIsFree(trace: seq<State>, steps: seq<Step>, n: nat, k: nat)
    requires Run(trace, steps, n) && k < |steps| && trace[k].main.Store? && steps[k] == ByMain
    ensures var s, i := trace[k], trace[k].main.i;
      i < n && s.workers[i].pc == Await && s.workers[i].execLocked && |s.workers[i].done| == s.job
  {
    RunInv(trace, steps, n, k);
    assert WorkerInv(trace[k], trace[k].main.i);
  }

  /** A worker that executes finds the task of the submission it has not executed yet, which is the current one. */
  lemma ExecutesCurrent(trace: seq<State>, steps: seq<Step>, n: nat, k: nat, i: nat)
    requires Run(trace, steps, n) && k < |trace| && i < |trace[k].workers| && trace[k].workers[i].pc == Execute
    ensures var s, w := trace[k], trace[k].workers[i]; |w.done| == s.job && w.task == Some(s.job) && WorkerCan(w)
  {
    RunInv(trace, steps, n, k);
    assert WorkerInv(trace[k], i);
    MainCounts(trace[k], i);
  }

  /** Submissions are accepted only after every worker has taken its locks and counted down. */
  lemma AllReady(trace: seq<State>, steps: seq<Step>, n: nat, k: nat, i: nat)
    requires Run(trace, steps, n) && k < |trace| && i < |trace[k].workers|
    requires trace[k].main != AwaitAll && !trace[k].main.Spawn?
    ensures trace[k].workers[i].pc !in {Unborn, LockFin, LockExec, CountDown}
  {
    RunInv(trace, steps, n, k);
    assert WorkerInv(trace[k], i);
  }

  /** The destructor joins the workers one by one: those before the one it wakes have ended, and when it has finished
      all have. */
  lemma AllJoined(trace: seq<State>, steps: seq<Step>, n: nat, k: nat, i: nat)
    requires Run(trace, steps, n) && k < |trace| && i < |trace[k].workers|
    ensures trace[k].main == Stopped ==> trace[k].workers[i].pc == Gone
    ensures forall t {:trigger Wake(t)} :: trace[k].main == Wake(t) && i < t ==> trace[k].workers[i].pc == Gone
    ensures forall t {:trigger Join(t)} :: trace[k].main == Join(t) && i < t ==> trace[k].workers[i].pc == Gone
  {
    RunInv(trace, steps, n, k);
    assert WorkerInv(trace[k], i);
  }

  // ------------------------------------------------------------- no deadlock

  /** The worker that the main thread waits for can move. */
  lemma WaitedForMoves(s: State, i: nat)
    requires Inv(s) && i < |s.workers|
    requires (s.main == LockSet(i) && s.workers[i].setLocked) || (s.main == Collect(i) && s.workers[i].finLocked)
          || (s.main == Join(i) && s.workers[i].pc != Gone)
    ensures Can(s, ByWorker(i))
  {
    assert WorkerInv(s, i);
    MainCounts(s, i);
  }

  /** Every state in which the runtime has something to do has a step. */
  lemma NeverStuck(s: State) returns (step: Step)
    requires Inv(s) && !s.main.Idle? && !s.main.Stopped?
    ensures Can(s, step) && (step.ByMain? || step.ByWorker?)
  {
    if MainCan(s) {
      step := ByMain;
    } else if s.main.AwaitAll? {
      var i := SomePending(s.workers);
      assert WorkerInv(s, i);
      step := ByWorker(i);
    } else {
      WaitedForMoves(s, s.main.i);
      step := ByWorker(s.main.i);
    }
  }

  // ---------------------------------------------------------------- progress

  /** The steps the main thread has before it is idle or stopped. */
  function MainLeft(main: MainPc, n: nat): (k: int) {
    match main
    case Spawn(i) => n - i + 2
    case AwaitAll => 1
    case Idle => 0
    case LockSet(i) => 3 * (n - i) + n
    case Store(i) => 3 * (n - i) + n - 1
    case Release(i) => 3 * (n - i) + n - 2
    case Collect(i) => n - i
    case Wake(i) => 2 * (n - i) + 1
    case Join(i) => 2 * (n - i)
    case Stopped => 0
  }

  /** The steps a worker has before it blocks on `exec` or ends. */
  function Rank(w: Worker): (k: nat) {
    match w.pc
    case Unborn => 0
    case LockFin => 3
    case LockExec => 2
    case CountDown => 1
    case Await => if w.execLocked then 0 else 5
    case Check => 4
    case Execute => 3
    case FreeFin => 2
    case FreeSet => if w.execLocked then 1 else 6
    case Gone => 0
  }

  function Ranks(ws: seq<Worker>): (k: nat) {
    if ws == [] then 0 else Ranks(ws[..|ws| - 1]) + Rank(ws[|ws| - 1])
  }

  lemma {:induction false} RanksUpdate(ws: seq<Worker>, i: nat, w: Worker)
    requires i < |ws|
    ensures Ranks(ws[i := w]) == Ranks(ws) - Rank(ws[i]) + Rank(w)
  {
    var n := |ws| - 1;
    if i < n {
      assert ws[i := w][..n] == ws[..n][i := w];
      RanksUpdate(ws[..n], i, w);
    } else {
      assert ws[i := w][..n] == ws[..n];
    }
  }

  function Measure(s: State): (k: int) {
    8 * MainLeft(s.main, |s.workers|) + Ranks(s.workers)
  }

  lemma MeasureBound(s: State)
    requires Inv(s)
    ensures Measure(s) >= 0
  {
  }

  lemma MeasureAtMost(s: State)
    requires Inv(s)
    ensures Measure(s) <= 38 * |s.workers| + 16
  {
    RanksBound(s.workers);
  }

  lemma RankFalls(w: Worker, s: State, i: nat)
    requires Inv(s) && Can(s, ByWorker(i)) && w == s.workers[i]
    ensures Rank(WorkerDo(w, s.running)) < Rank(w)
  {
    assert WorkerInv(s, i);
    MainCounts(s, i);
  }

  lemma MainStepDecreases(s: State)
    requires Inv(s) && MainCan(s)
    ensures Measure(MainDo(s)) < Measure(s)
  {
    hide WorkerInv, Rank, Pending, IsPending;
    if !s.main.AwaitAll? && s.main.i < |s.workers| {
      var w := MainDo(s).workers[s.main.i];
      RanksUpdate(s.workers, s.main.i, w);
      assert Rank(w) <= Rank(s.workers[s.main.i]) + 5 by { RankRises(s); }
    }
  }

  lemma RankRises(s: State)
    requires Inv(s) && MainCan(s) && !s.main.AwaitAll? && s.main.i < |s.workers|
    ensures Rank(MainDo(s).workers[s.main.i]) <= Rank(s.workers[s.main.i]) + 5
  {
    assert WorkerInv(s, s.main.i);
  }

  /** Whatever the scheduler does, every step of the main thread or of a worker brings the submission (or the start,
      or the shutdown) closer to its end. */
  lemma StepDecreases(s: State, step: Step)
    requires Inv(s) && Can(s, step) && (step.ByMain? || step.ByWorker?)
    ensures Measure(Do(s, step)) < Measure(s)
  {
    hide Inv, WorkerDo, Rank;
    match step
    case ByWorker(i) =>
      RankFalls(s.workers[i], s, i);
      RanksUpdate(s.workers, i, WorkerDo(s.workers[i], s.running));
    case ByMain => MainStepDecreases(s);
  }

  lemma {:induction false} RanksBound(ws: seq<Worker>)
    ensures Ranks(ws) <= 6 * |ws|
  {
    if ws != [] { RanksBound(ws[..|ws| - 1]); }
  }

  /** So a phase without new calls has a bounded number of steps. */
  lemma {:induction false} PhaseBound(trace: seq<State>, steps: seq<Step>)
    requires |trace| == |steps| + 1 && Inv(trace[0]) && Follows(trace, steps)
    requires forall k {:trigger steps[k]} :: 0 <= k < |steps| ==> steps[k].ByMain? || steps[k].ByWorker?
    ensures Inv(trace[|steps|]) && |steps| <= Measure(trace[0]) - Measure(trace[|steps|]) <= Measure(trace[0])
    ensures |steps| <= 38 * |trace[0].workers| + 16
    decreases |steps|
  {
    hide Inv, Can, Do, Measure;
    if steps != [] {
      var n := |steps| - 1;
      assert Follows(trace[..n + 1], steps[..n]) by {
        forall k {:trigger steps[..n][k]} | 0 <= k < n
          ensures Can(trace[..n + 1][k], steps[..n][k]) && trace[..n + 1][k + 1] == Do(trace[..n + 1][k], steps[..n][k])
        {
          assert steps[..n][k] == steps[k];
        }
      }
      PhaseBound(trace[..n + 1], steps[..n]);
      StepInv(trace[n], steps[n]);
      StepDecreases(trace[n], steps[n]);
    }
    MeasureBound(trace[|steps|]);
    MeasureAtMost(trace[0]);
  }
}
