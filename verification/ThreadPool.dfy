/**
 The thread pool of epoll_study/thread_pools.h as interleaved steps of its workers, of the callers of commit and of
 the destructor. A step is what happens between two points where another thread can interfere.
 */
module ThreadPool {
  import Seqs

  const MAX_NUM := 16

  /** Where a worker is: before the loop test, wanting the lock, inside wait with the lock, waiting without it,
      past the wait, running a task under the lock, done with it but still holding the lock, returned, and popping an empty queue. */
  datatype Worker = Top | Want | Check | Wait | Past | Busy(task: nat) | Leave | Gone | Broken

  /** Where a caller of commit is: not yet called, past the stop test, holding the lock before and after the
      emplace, returned, and thrown out. */
  datatype Caller = Fresh | Pending | Holding | Added | Returned | Thrown

  datatype Owner = Free | ByWorker(w: nat) | ByCaller(c: nat)

  /** A task is named by its caller. `enqueued`, `started`, `runner` (the worker of each start), `finished` and `mark`
      (how many had started when stop was set) are histories. */
  datatype Pool = Pool(stop: bool, tasks: seq<nat>, lock: Owner, workers: seq<Worker>, callers: seq<Caller>,
                       enqueued: seq<nat>, started: seq<nat>, runner: seq<nat>, finished: seq<nat>, mark: nat)

  datatype Move = OfWorker(w: nat) | OfCaller(c: nat) | Destroy

  /** create_threadpool makes no thread at all when asked for MAX_NUM or more. */
  function Threads(asked: nat): (n: nat) {
    if asked < MAX_NUM then asked else 0
  }

  function Create(asked: nat, callers: nat): (p: Pool) {
    Pool(false, [], Free, seq(Threads(asked), _ => Top), seq(callers, _ => Fresh), [], [], [], [], 0)
  }

  /** One step of worker w, or none when it is blocked. A waiting worker may wake up at any time. */
  function WorkerStep(p: Pool, w: nat): (r: Pool)
    requires w < |p.workers|
  {
    match p.workers[w]
    case Top => p.(workers := p.workers[w := if p.stop then Gone else Want])
    case Want => if p.lock == Free then p.(lock := ByWorker(w), workers := p.workers[w := Check]) else p
    case Wait => if p.lock == Free then p.(lock := ByWorker(w), workers := p.workers[w := Check]) else p
    case Check =>
      if p.stop || p.tasks != [] then p.(workers := p.workers[w := Past])
      else p.(lock := Free, workers := p.workers[w := Wait])
    case Past =>
      if p.stop && p.tasks == [] then p.(lock := Free, workers := p.workers[w := Gone])
      else if p.tasks == [] then p.(workers := p.workers[w := Broken])
      else p.(tasks := p.tasks[1..], started := p.started + [p.tasks[0]], runner := p.runner + [w],
              workers := p.workers[w := Busy(p.tasks[0])])
    case Busy(t) => p.(finished := p.finished + [t], workers := p.workers[w := Leave])
    case Leave => p.(lock := Free, workers := p.workers[w := Top])
    case Gone => p
    case Broken => p
  }

  function CallerStep(p: Pool, c: nat): (r: Pool)
    requires c < |p.callers|
  {
    match p.callers[c]
    case Fresh => p.(callers := p.callers[c := if p.stop then Thrown else Pending])
    case Pending => if p.lock == Free then p.(lock := ByCaller(c), callers := p.callers[c := Holding]) else p
    case Holding => p.(tasks := p.tasks + [c], enqueued := p.enqueued + [c], callers := p.callers[c := Added])
    case Added => p.(lock := Free, callers := p.callers[c := Returned])
    case Returned => p
    case Thrown => p
  }

  function Step(p: Pool, m: Move): (r: Pool) {
    match m
    case OfWorker(w) => if w < |p.workers| then WorkerStep(p, w) else p
    case OfCaller(c) => if c < |p.callers| then CallerStep(p, c) else p
    case Destroy => if p.stop then p else p.(stop := true, mark := |p.started|)
  }

  function Run(asked: nat, callers: nat, ms: seq<Move>): (p: Pool) {
    if ms == [] then Create(asked, callers) else Step(Run(asked, callers, ms[..|ms| - 1]), ms[|ms| - 1])
  }

  // ----- what every step keeps ------------------------------------------------------------

  predicate HasLock(s: Worker) {
    s.Check? || s.Past? || s.Busy? || s.Leave?
  }

  /** A worker in one of these places has not started a task since stop was set. */
  predicate Early(s: Worker) {
    s.Want? || s.Check? || s.Wait? || s.Past?
  }

  predicate LockInv(p: Pool) {
    && (forall w :: 0 <= w < |p.workers| ==> (HasLock(p.workers[w]) <==> p.lock == ByWorker(w)))
    && (forall c :: 0 <= c < |p.callers| ==>
          (p.callers[c].Holding? || p.callers[c].Added? <==> p.lock == ByCaller(c)))
    && (forall w :: 0 <= w < |p.workers| && p.workers[w].Past? ==> p.stop || p.tasks != [])
    && (forall w :: 0 <= w < |p.workers| ==> !p.workers[w].Broken?)
  }

  /** Each accepted commit is enqueued once, and tasks start in the order in which they were enqueued. */
  predicate QueueInv(p: Pool) {
    && p.enqueued == p.started + p.tasks
    && |p.runner| == |p.started|
    && (forall i, j :: 0 <= i < j < |p.enqueued| ==> p.enqueued[i] != p.enqueued[j])
    && (forall i :: 0 <= i < |p.enqueued| ==> p.enqueued[i] < |p.callers|)
    && (forall c :: 0 <= c < |p.callers| ==>
          (c in p.enqueued <==> p.callers[c].Added? || p.callers[c].Returned?))
  }

  /** The worker that holds the lock is running a task. */
  predicate Active(p: Pool) {
    p.lock.ByWorker? && p.lock.w < |p.workers| && p.workers[p.lock.w].Busy?
  }

  /** Tasks finish in the order in which they started; only the last one started may be unfinished, and then
      exactly while a worker is running that very task. */
  predicate SerialInv(p: Pool) {
    if Active(p) then p.started == p.finished + [p.workers[p.lock.w].task]
    else p.finished == p.started
  }

  /** Starts after stop: no worker twice, and none that could still start another. */
  predicate LateInv(p: Pool) {
    && p.mark <= |p.runner|
    && (forall i :: 0 <= i < |p.runner| ==> p.runner[i] < |p.workers|)
    && (p.stop ==> forall i, j :: p.mark <= i < j < |p.runner| ==> p.runner[i] != p.runner[j])
    && (p.stop ==> forall i :: p.mark <= i < |p.runner| ==> !Early(p.workers[p.runner[i]]))
  }

  lemma LockWorker(p: Pool, w: nat)
    requires LockInv(p) && w < |p.workers|
    ensures LockInv(WorkerStep(p, w))
  {
  }

  lemma LockCaller(p: Pool, c: nat)
    requires LockInv(p) && c < |p.callers|
    ensures LockInv(CallerStep(p, c))
  {
  }

  lemma LockStep(p: Pool, m: Move)
    requires LockInv(p)
    ensures LockInv(Step(p, m))
    ensures |Step(p, m).workers| == |p.workers| && |Step(p, m).callers| == |p.callers|
  {
    match m
    case OfWorker(w) => if w < |p.workers| { LockWorker(p, w); }
    case OfCaller(c) => if c < |p.callers| { LockCaller(p, c); }
    case Destroy =>
  }

  lemma QueueWorker(p: Pool, w: nat)
    requires LockInv(p) && QueueInv(p) && w < |p.workers|
    ensures QueueInv(WorkerStep(p, w))
  {
    if p.tasks != [] {
      Seqs.SplitFirst(p.tasks);
      Seqs.Assoc(p.started, [p.tasks[0]], p.tasks[1..]);
    }
  }

  lemma QueueAdd(p: Pool, c: nat)
    requires QueueInv(p) && c < |p.callers| && p.callers[c].Holding?
    ensures QueueInv(CallerStep(p, c))
  {
    var e := p.enqueued + [c];
    Seqs.Assoc(p.started, p.tasks, [c]);
    assert forall i :: 0 <= i < |p.enqueued| ==> p.enqueued[i] in p.enqueued;
    forall d | 0 <= d < |p.callers|
      ensures d in e <==> CallerStep(p, c).callers[d].Added? || CallerStep(p, c).callers[d].Returned?
    {
      assert d in e <==> d in p.enqueued || d == c;
    }
  }

  lemma QueueCaller(p: Pool, c: nat)
    requires QueueInv(p) && c < |p.callers|
    ensures QueueInv(CallerStep(p, c))
  {
    if p.callers[c].Holding? { QueueAdd(p, c); }
  }

  lemma QueueStep(p: Pool, m: Move)
    requires LockInv(p) && QueueInv(p)
    ensures QueueInv(Step(p, m))
  {
    hide QueueInv, LockInv, WorkerStep, CallerStep;
    match m
    case OfWorker(w) => if w < |p.workers| { QueueWorker(p, w); }
    case OfCaller(c) => if c < |p.callers| { QueueCaller(p, c); }
    case Destroy => QueueStop(p);
  }

  lemma QueueStop(p: Pool)
    requires QueueInv(p)
    ensures QueueInv(Step(p, Destroy))
  {
  }

  lemma SerialStep(p: Pool, m: Move)
    requires LockInv(p) && QueueInv(p) && SerialInv(p)
    ensures SerialInv(Step(p, m))
  {
  }

  /** A start: the worker has none after stop, and now can have no other. */
  lemma LateStart(p: Pool, w: nat)
    requires LockInv(p) && QueueInv(p) && LateInv(p) && w < |p.workers| && p.workers[w].Past? && p.tasks != []
    ensures LateInv(WorkerStep(p, w))
  {
    if p.stop {
      assert forall i :: p.mark <= i < |p.runner| ==> p.runner[i] != w;
    }
  }

  lemma LateWorker(p: Pool, w: nat)
    requires LockInv(p) && QueueInv(p) && LateInv(p) && w < |p.workers|
    ensures LateInv(WorkerStep(p, w))
  {
    if p.workers[w].Past? && p.tasks != [] {
      LateStart(p, w);
    } else {
      assert WorkerStep(p, w).runner == p.runner && WorkerStep(p, w).mark == p.mark;
      assert p.stop ==> Early(WorkerStep(p, w).workers[w]) ==> Early(p.workers[w]);
    }
  }

  lemma LateStep(p: Pool, m: Move)
    requires LockInv(p) && QueueInv(p) && LateInv(p)
    ensures LateInv(Step(p, m))
  {
    hide WorkerStep;
    if m.OfWorker? && m.w < |p.workers| { LateWorker(p, m.w); }
  }

  lemma {:induction false} RunInv(asked: nat, callers: nat, ms: seq<Move>)
    ensures var p := Run(asked, callers, ms);
            LockInv(p) && QueueInv(p) && SerialInv(p) && LateInv(p)
            && |p.workers| == Threads(asked) && |p.callers| == callers
  {
    if ms != [] {
      var p := Run(asked, callers, ms[..|ms| - 1]);
      var m := ms[|ms| - 1];
      RunInv(asked, callers, ms[..|ms| - 1]);
      LockStep(p, m);
      QueueStep(p, m);
      SerialStep(p, m);
      LateStep(p, m);
    }
  }

  // ----- results --------------------------------------------------------------------------

  /** In every interleaving the tasks started are a prefix of those enqueued, and a commit that returned enqueued
      its task exactly once. */
  lemma StartedPrefix(asked: nat, callers: nat, ms: seq<Move>)
    ensures var p := Run(asked, callers, ms);
            && p.started <= p.enqueued && |p.callers| == callers
            && p.tasks == p.enqueued[|p.started|..]
            && (forall i, j :: 0 <= i < j < |p.enqueued| ==> p.enqueued[i] != p.enqueued[j])
            && (forall c :: 0 <= c < |p.callers| && p.callers[c].Returned? ==> c in p.enqueued)
            && (forall c :: 0 <= c < |p.callers| && p.callers[c].Thrown? ==> c !in p.enqueued)
  {
    RunInv(asked, callers, ms);
  }

  /** No two workers run a task at once, all started tasks but the running one are finished, and no worker ever
      takes a task from an empty queue. */
  lemma MutualExclusion(asked: nat, callers: nat, ms: seq<Move>)
    ensures var p := Run(asked, callers, ms);
            && (forall v, w :: 0 <= v < w < |p.workers| ==> !(p.workers[v].Busy? && p.workers[w].Busy?))
            && p.finished <= p.started && |p.started| <= |p.finished| + 1
            && (|p.started| == |p.finished| + 1 <==> exists w :: 0 <= w < |p.workers| && p.workers[w].Busy?)
            && (forall w :: 0 <= w < |p.workers| && p.workers[w].Busy? ==> p.started == p.finished + [p.workers[w].task])
            && (forall w :: 0 <= w < |p.workers| ==> !p.workers[w].Broken?)
  {
    RunInv(asked, callers, ms);
  }

  /** Distinct numbers below n are at most n. */
  lemma {:induction false} Pigeonhole(s: seq<nat>, n: nat)
    requires forall i :: 0 <= i < |s| ==> s[i] < n
    requires forall i, j :: 0 <= i < j < |s| ==> s[i] != s[j]
    ensures |s| <= n
    decreases n
  {
    if s == [] { return; }
    assert s[0] < n;
    if n - 1 in s {
      var k :| 0 <= k < |s| && s[k] == n - 1;
      Pigeonhole(s[..k] + s[k + 1..], n - 1);
    } else {
      Pigeonhole(s, n - 1);
    }
  }

  /** After stop is set each worker starts at most one more task, so at most as many start as there are workers. */
  lemma LateStarts(asked: nat, callers: nat, ms: seq<Move>)
    requires Run(asked, callers, ms).stop
    ensures var p := Run(asked, callers, ms);
            && p.mark <= |p.runner| == |p.started| <= p.mark + Threads(asked)
            && (forall i, j :: p.mark <= i < j < |p.runner| ==> p.runner[i] != p.runner[j])
  {
    RunInv(asked, callers, ms);
    var p := Run(asked, callers, ms);
    Pigeonhole(p.runner[p.mark..], Threads(asked));
  }

  /** The mark is what had started when stop was set. */
  lemma MarkAtStop(p: Pool, m: Move)
    ensures !p.stop && Step(p, m).stop ==> Step(p, m).mark == |Step(p, m).started| == |p.started|
    ensures p.stop ==> Step(p, m).stop && Step(p, m).mark == p.mark
  {
  }

  lemma NoneBelowZero(s: seq<nat>, n: nat)
    requires forall i :: 0 <= i < |s| ==> s[i] < n
    ensures n == 0 ==> s == []
  {
    if s != [] { assert s[0] < n; }
  }

  lemma RunSnoc(asked: nat, callers: nat, ms: seq<Move>, m: Move)
    ensures Run(asked, callers, ms + [m]) == Step(Run(asked, callers, ms), m)
  {
    assert (ms + [m])[..|ms|] == ms;
  }

  /** Caller 0 commits a task. */
  lemma CommitRun(asked: nat, callers: nat) returns (ms: seq<Move>)
    requires callers > 0
    ensures var p := Run(asked, callers, ms);
            p.tasks == [0] && p.lock == Free && !p.stop && p.workers == Create(asked, callers).workers
  {
    ms := [];
    for n := 0 to 4
      invariant var p := Run(asked, callers, ms);
                && |p.callers| == callers && !p.stop && p.workers == Create(asked, callers).workers
                && p.callers[0] == [Fresh, Pending, Holding, Added, Returned][n]
                && p.tasks == (if n < 3 then [] else [0]) && p.lock == (if n == 2 || n == 3 then ByCaller(0) else Free)
    {
      RunSnoc(asked, callers, ms, OfCaller(0));
      ms := ms + [OfCaller(0)];
    }
  }

  /** Worker 0 takes it. */
  lemma ServeRun(asked: nat, callers: nat) returns (ms: seq<Move>)
    requires callers > 0 && 0 < asked < MAX_NUM
    ensures Run(asked, callers, ms).started != []
  {
    ms := CommitRun(asked, callers);
    for n := 0 to 4
      invariant var p := Run(asked, callers, ms);
                && |p.workers| == asked && !p.stop
                && (if n < 4 then p.workers[0] == [Top, Want, Check, Past][n] && p.tasks == [0] else p.started != [])
                && (n < 2 ==> p.lock == Free)
    {
      RunSnoc(asked, callers, ms, OfWorker(0));
      ms := ms + [OfWorker(0)];
    }
  }

  /** A pool can serve a commit if and only if it was asked for at least one thread and fewer than MAX_NUM. */
  lemma CanServe(asked: nat, callers: nat)
    requires callers > 0
    ensures (exists ms :: Run(asked, callers, ms).started != []) <==> 0 < asked < 16
  {
    if 0 < asked < MAX_NUM {
      var ms := ServeRun(asked, callers);
    }
    forall ms | Run(asked, callers, ms).started != [] ensures 0 < asked < MAX_NUM {
      RunInv(asked, callers, ms);
      NoneBelowZero(Run(asked, callers, ms).runner, Threads(asked));
    }
  }

  // ----- commits around stop -------------------------------------------------------------

  /** A commit is refused exactly if stop is set when it begins; else it goes on to the queue. */
  lemma CommitVerdict(p: Pool, c: nat)
    requires c < |p.callers| && p.callers[c].Fresh?
    ensures var q := CallerStep(p, c);
            && (q.callers[c].Thrown? <==> p.stop) && (q.callers[c].Pending? <==> !p.stop)
            && q.tasks == p.tasks && q.enqueued == p.enqueued
  {
  }

  predicate NoneRefused(p: Pool) {
    forall c :: 0 <= c < |p.callers| ==> !p.callers[c].Thrown?
  }

  /** Only a stopped pool refuses. */
  lemma {:induction false} RefusedStopped(asked: nat, callers: nat, ms: seq<Move>)
    ensures Run(asked, callers, ms).stop || NoneRefused(Run(asked, callers, ms))
  {
    if ms != [] {
      RefusedStopped(asked, callers, ms[..|ms| - 1]);
      RefusedStep(Run(asked, callers, ms[..|ms| - 1]), ms[|ms| - 1]);
    }
  }

  lemma RefusedStep(p: Pool, m: Move)
    requires p.stop || NoneRefused(p)
    ensures Step(p, m).stop || NoneRefused(Step(p, m))
  {
  }

  /** After stop is set, a commit that had not begun is never accepted. */
  lemma {:induction false} LateCommit(asked: nat, callers: nat, ms: seq<Move>, more: seq<Move>, c: nat)
    requires ms <= more && c < callers && |Run(asked, callers, ms).callers| == callers
    requires Run(asked, callers, ms).stop && Run(asked, callers, ms).callers[c].Fresh?
    ensures var p := Run(asked, callers, more);
            p.stop && |p.callers| == callers && (p.callers[c].Fresh? || p.callers[c].Thrown?) && c !in p.enqueued
    decreases |more|
  {
    hide Step, LockInv, SerialInv, LateInv;
    RunInv(asked, callers, more);
    if more != ms {
      LateCommit(asked, callers, ms, more[..|more| - 1], c);
      LateStepCommit(Run(asked, callers, more[..|more| - 1]), more[|more| - 1], c);
    }
  }

  lemma LateStepCommit(p: Pool, m: Move, c: nat)
    requires p.stop && c < |p.callers| && (p.callers[c].Fresh? || p.callers[c].Thrown?)
    ensures var q := Step(p, m); q.stop && |q.callers| == |p.callers| && (q.callers[c].Fresh? || q.callers[c].Thrown?)
  {
  }

  // ----- nothing is left undone ----------------------------------------------------------

  lemma StayStep(p: Pool, m: Move)
    requires !Step(p, m).stop && forall w :: 0 <= w < |p.workers| ==> !p.workers[w].Gone?
    ensures forall w :: 0 <= w < |Step(p, m).workers| ==> !Step(p, m).workers[w].Gone?
  {
  }

  /** No worker returns before stop is set. */
  lemma {:induction false} WorkersStay(asked: nat, callers: nat, ms: seq<Move>)
    ensures var p := Run(asked, callers, ms);
            !p.stop ==> forall w :: 0 <= w < |p.workers| ==> !p.workers[w].Gone?
  {
    if ms != [] {
      WorkersStay(asked, callers, ms[..|ms| - 1]);
      hide Step;
      var p, m := Run(asked, callers, ms[..|ms| - 1]), ms[|ms| - 1];
      StopStays(p, m);
      if !Step(p, m).stop { StayStep(p, m); }
    }
  }

  lemma StopStays(p: Pool, m: Move)
    ensures p.stop ==> Step(p, m).stop
  {
  }

  /** What every reachable pool that was not stopped and has a worker looks like. */
  ghost predicate Running(p: Pool) {
    && !p.stop && LockInv(p) && QueueInv(p) && SerialInv(p) && |p.workers| > 0
    && (forall w :: 0 <= w < |p.workers| ==> !p.workers[w].Gone?)
    && (p.lock.ByWorker? ==> p.lock.w < |p.workers|) && (p.lock.ByCaller? ==> p.lock.c < |p.callers|)
  }

  /** Tasks that are queued or about to be. */
  ghost function Todo(p: Pool): (n: nat) {
    |p.tasks| + (if p.lock.ByCaller? && p.lock.c < |p.callers| && p.callers[p.lock.c].Holding? then 1 else 0)
  }

  /** How far the next start, or the end, is. */
  ghost function Away(p: Pool): (n: nat)
    requires Running(p)
  {
    match p.lock
    case ByCaller(c) => if p.callers[c].Holding? then 10 else 9
    case ByWorker(w) =>
      (match p.workers[w]
       case Check => 6
       case Past => 5
       case Busy(_) => 12
       case _ => 11)
    case Free => if p.tasks == [] then 0 else if p.workers[0].Top? then 8 else 7
  }

  /** The next move toward the end: of whoever holds the lock, or of the first worker. */
  ghost function Next(p: Pool): (m: Move) {
    match p.lock
    case ByCaller(c) => OfCaller(c)
    case ByWorker(w) => OfWorker(w)
    case Free => OfWorker(0)
  }

  ghost function Rank(p: Pool): (n: nat)
    requires Running(p)
  {
    20 * Todo(p) + Away(p)
  }

  lemma OwnerStep(p: Pool, m: Move)
    requires Running(p) && m != Destroy
    ensures var q := Step(p, m);
            (q.lock.ByWorker? ==> q.lock.w < |q.workers|) && (q.lock.ByCaller? ==> q.lock.c < |q.callers|)
  {
  }

  lemma RunningStep(p: Pool, m: Move)
    requires Running(p) && m != Destroy
    ensures Running(Step(p, m))
  {
    hide LockInv, QueueInv, SerialInv, Step;
    LockStep(p, m);
    QueueStep(p, m);
    SerialStep(p, m);
    OwnerStep(p, m);
    NotStopped(p, m);
    StayStep(p, m);
  }

  lemma NotStopped(p: Pool, m: Move)
    requires !p.stop && m != Destroy
    ensures !Step(p, m).stop
  {
  }

  lemma WorkerNearer(p: Pool, w: nat)
    requires Running(p) && p.lock == ByWorker(w) && Running(WorkerStep(p, w))
    ensures Rank(WorkerStep(p, w)) < Rank(p)
  {
  }

  lemma CallerNearer(p: Pool, c: nat)
    requires Running(p) && p.lock == ByCaller(c) && Running(CallerStep(p, c))
    ensures Rank(CallerStep(p, c)) < Rank(p)
  {
  }

  lemma FreeNearer(p: Pool)
    requires Running(p) && p.lock == Free && p.tasks != [] && Running(WorkerStep(p, 0))
    ensures Rank(WorkerStep(p, 0)) < Rank(p)
  {
  }

  lemma Nearer(p: Pool)
    requires Running(p) && !(p.lock == Free && p.tasks == [])
    ensures Running(Step(p, Next(p))) && Rank(Step(p, Next(p))) < Rank(p)
  {
    RunningStep(p, Next(p));
    hide Rank, LockInv, QueueInv, SerialInv, WorkerStep, CallerStep;
    match p.lock
    case ByCaller(c) => CallerNearer(p, c);
    case ByWorker(w) => WorkerNearer(p, w);
    case Free => FreeNearer(p);
  }

  lemma OwnerInv(asked: nat, callers: nat, ms: seq<Move>)
    requires !Run(asked, callers, ms).stop && 0 < asked < MAX_NUM
    ensures Running(Run(asked, callers, ms))
  {
    RunInv(asked, callers, ms);
    WorkersStay(asked, callers, ms);
    OwnerRange(asked, callers, ms);
  }

  lemma {:induction false} OwnerRange(asked: nat, callers: nat, ms: seq<Move>)
    ensures var p := Run(asked, callers, ms);
            (p.lock.ByWorker? ==> p.lock.w < |p.workers|) && (p.lock.ByCaller? ==> p.lock.c < |p.callers|)
  {
    if ms != [] {
      var p, m := Run(asked, callers, ms[..|ms| - 1]), ms[|ms| - 1];
      OwnerRange(asked, callers, ms[..|ms| - 1]);
      OwnerKept(p, m);
    }
  }

  lemma OwnerKept(p: Pool, m: Move)
    requires (p.lock.ByWorker? ==> p.lock.w < |p.workers|) && (p.lock.ByCaller? ==> p.lock.c < |p.callers|)
    ensures var q := Step(p, m);
            (q.lock.ByWorker? ==> q.lock.w < |q.workers|) && (q.lock.ByCaller? ==> q.lock.c < |q.callers|)
  {
  }

  /** No commit is lost while the pool runs: from every reachable state that is not stopped, with between 1 and 15 threads
      asked for, some continuation without new commits finishes every task, and leaves the lock free. */
  lemma {:induction false} Drains(asked: nat, callers: nat, ms: seq<Move>) returns (more: seq<Move>)
    requires !Run(asked, callers, ms).stop && 0 < asked < MAX_NUM && Running(Run(asked, callers, ms))
    ensures ms <= more
    ensures var p := Run(asked, callers, more);
            p.tasks == [] && p.lock == Free && !p.stop && p.finished == p.enqueued
    decreases Rank(Run(asked, callers, ms))
  {
    var p := Run(asked, callers, ms);
    if p.lock == Free && p.tasks == [] {
      more := ms;
    } else {
      hide Rank, Run, Step, LockInv, QueueInv, SerialInv;
      Nearer(p);
      RunSnoc(asked, callers, ms, Next(p));
      more := Drains(asked, callers, ms + [Next(p)]);
    }
  }

  lemma AllServed(asked: nat, callers: nat, ms: seq<Move>)
    requires !Run(asked, callers, ms).stop && 0 < asked < MAX_NUM
    ensures exists more :: ms <= more && Run(asked, callers, more).tasks == []
                           && Run(asked, callers, more).finished == Run(asked, callers, more).enqueued
                           && Run(asked, callers, ms).enqueued <= Run(asked, callers, more).enqueued
  {
    OwnerInv(asked, callers, ms);
    hide Run, Running;
    var more := Drains(asked, callers, ms);
    EnqueuedGrows(asked, callers, ms, more);
  }

  lemma EnqueuedStep(p: Pool, m: Move)
    ensures p.enqueued <= Step(p, m).enqueued
  {
  }

  lemma {:induction false} EnqueuedGrows(asked: nat, callers: nat, ms: seq<Move>, more: seq<Move>)
    requires ms <= more
    ensures Run(asked, callers, ms).enqueued <= Run(asked, callers, more).enqueued
    decreases |more|
  {
    if more != ms {
      EnqueuedGrows(asked, callers, ms, more[..|more| - 1]);
      EnqueuedStep(Run(asked, callers, more[..|more| - 1]), more[|more| - 1]);
    }
  }
}
