/**
 * The thread pool (falconlink/common/thread_pool.cpp, falconlink/include/common/thread_pool.hpp)
 * and the server's use of it (falconlink/include/net/server.hpp). Every step is one critical
 * section, or one read or write of the atomic stop flag, of some thread.
 */
module ThreadPool {

  const MIN_THREADS := 2

  datatype Worker = Idle | Running(task: nat) | Returned

  /**
   * Tasks are numbered in the order they enter the queue. `adding` counts the `addTask` calls past
   * the stop check and before the queue; `taken[t]` is the worker that took the t-th task to leave
   * the queue, with that task; `finished` lists tasks as they end. `overlap` tells that the
   * destructor started inside an `addTask`, `sinceExit` counts the tasks queued since the last
   * worker returned.
   */
  datatype State = State(queue: seq<nat>, workers: seq<Worker>, stop: bool, adding: nat, accepted: nat,
                         taken: seq<Taken>, finished: seq<nat>, overlap: bool, sinceExit: nat)

  datatype Taken = Taken(task: nat, worker: nat)

  datatype Step = CheckStop | Emplace | Take(w: nat) | Finish(w: nat) | Exit(w: nat) | Stop

  predicate Enabled(s: State, step: Step) {
    match step
    case CheckStop => !s.stop
    case Emplace => s.adding > 0
    case Take(w) => w < |s.workers| && s.workers[w].Idle? && s.queue != []
    case Finish(w) => w < |s.workers| && s.workers[w].Running?
    case Exit(w) => w < |s.workers| && s.workers[w].Idle? && s.stop && s.queue == []
    case Stop => !s.stop
  }

  function Next(s: State, step: Step): State {
    if !Enabled(s, step) then s
    else match step
      case CheckStop => s.(adding := s.adding + 1)
      case Emplace =>
        s.(adding := s.adding - 1, queue := s.queue + [s.accepted], accepted := s.accepted + 1,
           sinceExit := s.sinceExit + 1)
      case Take(w) =>
        s.(queue := s.queue[1..], workers := s.workers[w := Running(s.queue[0])],
           taken := s.taken + [Taken(s.queue[0], w)])
      case Finish(w) =>
        s.(workers := s.workers[w := Idle], finished := s.finished + [s.workers[w].task])
      case Exit(w) => s.(workers := s.workers[w := Returned], sinceExit := 0)
      case Stop => s.(stop := true, overlap := s.adding > 0)
  }

  function Start(size: int): State {
    var n: nat := if size < MIN_THREADS then MIN_THREADS else size;
    State([], seq(n, i => Idle), false, 0, 0, [], [], false, 0)
  }

  function Exec(size: int, steps: seq<Step>): State {
    if steps == [] then Start(size)
    else Next(Exec(size, steps[..|steps| - 1]), steps[|steps| - 1])
  }

  // ---------------------------------------------------------------- what every step keeps

  /** Tasks taken, then tasks queued, are all the tasks in the order they came. */
  ghost predicate Fifo(s: State) {
    && |s.taken| + |s.queue| == s.accepted
    && (forall i :: 0 <= i < |s.taken| ==> s.taken[i].task == i)
    && (forall j :: 0 <= j < |s.queue| ==> s.queue[j] == |s.taken| + j)
  }

  /** A taken task is running in the worker that took it, or has finished, not both, and finished once. */
  ghost predicate RanOnce(s: State) {
    && (forall t :: 0 <= t < |s.taken| ==>
          s.taken[t].worker < |s.workers| && (t in s.finished <==> s.workers[s.taken[t].worker] != Running(t)))
    && (forall w :: 0 <= w < |s.workers| && s.workers[w].Running? ==>
          s.workers[w].task < |s.taken| && s.taken[s.workers[w].task].worker == w)
    && (forall i :: 0 <= i < |s.finished| ==> s.finished[i] < |s.taken|)
    && (forall i, j :: 0 <= i < j < |s.finished| ==> s.finished[i] != s.finished[j])
  }

  /** Workers leave only a stopped pool with an empty queue, and only an overlapping `addTask` can refill it. */
  ghost predicate Stopping(s: State) {
    && |s.workers| >= MIN_THREADS
    && (s.stop && !s.overlap ==> s.adding == 0)
    && (forall w :: 0 <= w < |s.workers| && s.workers[w].Returned? ==> s.stop && (!s.overlap ==> s.queue == []))
    && (AllReturned(s) ==> |s.queue| == s.sinceExit)
  }

  ghost predicate AllReturned(s: State) {
    forall w :: 0 <= w < |s.workers| ==> s.workers[w].Returned?
  }

  ghost predicate Inv(s: State) {
    Fifo(s) && RanOnce(s) && Stopping(s)
  }

  lemma NextKeepsFifo(s: State, step: Step)
    requires Fifo(s)
    ensures Fifo(Next(s, step))
  {
  }

  lemma NextKeepsRanOnce(s: State, step: Step)
    requires Fifo(s) && RanOnce(s)
    ensures RanOnce(Next(s, step))
  {
    var s' := Next(s, step);
    if step.Finish? && Enabled(s, step) {
      var t0 := s.workers[step.w].task;
      forall t | 0 <= t < |s.taken|
        ensures t in s'.finished <==> s'.workers[s'.taken[t].worker] != Running(t)
      {
        assert t in s'.finished <==> t in s.finished || t == t0;
      }
    }
  }

  lemma NextKeepsStopping(s: State, step: Step)
    requires Stopping(s)
    ensures Stopping(Next(s, step))
  {
    var s' := Next(s, step);
    if Enabled(s, step) {
      match step
      case Take(w) => assert s'.workers[w].Running?;
      case Finish(w) => assert s'.workers[w].Idle?;
      case Exit(w) =>
      case _ =>
        assert s'.workers == s.workers;
    }
  }

  lemma {:induction false} ExecKeeps(size: int, steps: seq<Step>)
    ensures Inv(Exec(size, steps))
    decreases |steps|
  {
    if steps == [] {
      assert Start(size).workers[0].Idle?;
    } else {
      var s := Exec(size, steps[..|steps| - 1]);
      ExecKeeps(size, steps[..|steps| - 1]);
      NextKeepsFifo(s, steps[|steps| - 1]);
      NextKeepsRanOnce(s, steps[|steps| - 1]);
      NextKeepsStopping(s, steps[|steps| - 1]);
    }
  }

  // ---------------------------------------------------------------- safety of every run

  /** Tasks leave the queue in the order they entered it, each to exactly one worker, and run at most once. */
  lemma TakenInOrderOnce(size: int, steps: seq<Step>)
    ensures var s := Exec(size, steps);
            && (forall i :: 0 <= i < |s.taken| ==> s.taken[i].task == i)
            && (forall i, j :: 0 <= i < j < |s.finished| ==> s.finished[i] != s.finished[j])
            && (forall w :: 0 <= w < |s.workers| && s.workers[w].Running? ==>
                  s.workers[w].task < |s.taken| && s.taken[s.workers[w].task].worker == w)
  {
    ExecKeeps(size, steps);
  }

  /** A pool has as many workers as it was asked for, and two at least, for good. */
  lemma {:induction false} PoolSize(size: int, steps: seq<Step>)
    ensures |Exec(size, steps).workers| == if size > 2 then size else 2
    decreases |steps|
  {
    if steps != [] {
      PoolSize(size, steps[..|steps| - 1]);
    }
  }

  /** Every accepted task has run exactly once. */
  ghost predicate AllRan(s: State) {
    && (forall t :: 0 <= t < s.accepted ==> t in s.finished)
    && (forall i, j :: 0 <= i < j < |s.finished| ==> s.finished[i] != s.finished[j])
  }

  /** The k-th step queues a task. */
  ghost predicate EmplaceAt(size: int, steps: seq<Step>, k: nat) {
    k < |steps| && steps[k].Emplace? && Enabled(Exec(size, steps[..k]), steps[k])
  }

  /** At the k-th step a worker returns. */
  ghost predicate ExitAt(size: int, steps: seq<Step>, k: nat) {
    k < |steps| && steps[k].Exit? && Enabled(Exec(size, steps[..k]), steps[k])
  }

  /** A task is queued after the last return of a worker. */
  ghost predicate LateTask(size: int, steps: seq<Step>) {
    exists j: nat :: EmplaceAt(size, steps, j) && forall k: nat :: k > j ==> !ExitAt(size, steps, k)
  }

  lemma LateTaskStep(size: int, steps: seq<Step>, n: nat)
    requires |steps| == n + 1
    ensures LateTask(size, steps) <==> EmplaceAt(size, steps, n) || (LateTask(size, steps[..n]) && !ExitAt(size, steps, n))
  {
    var init := steps[..n];
    forall k: nat | k < n
      ensures EmplaceAt(size, steps, k) == EmplaceAt(size, init, k) && ExitAt(size, steps, k) == ExitAt(size, init, k)
    {
      assert init[..k] == steps[..k];
    }
    hide Enabled;
    hide Exec;
    if EmplaceAt(size, steps, n) {
      assert forall k: nat :: k > n ==> !ExitAt(size, steps, k);
    } else if LateTask(size, init) && !ExitAt(size, steps, n) {
      var j: nat :| EmplaceAt(size, init, j) && forall k: nat :: k > j ==> !ExitAt(size, init, k);
      assert EmplaceAt(size, steps, j);
      assert forall k: nat :: k > j ==> !ExitAt(size, steps, k);
    }
  }

  lemma {:induction false} NoneSinceExit(size: int, steps: seq<Step>)
    ensures Exec(size, steps).sinceExit == 0 <==> !LateTask(size, steps)
    decreases |steps|
  {
    if steps != [] {
      LateTaskStep(size, steps, |steps| - 1);
      NoneSinceExit(size, steps[..|steps| - 1]);
      hide LateTask;
    }
  }

  /** Once all workers have returned, everything ran exactly when no task is queued after the last return. */
  lemma AllRanExactly(size: int, steps: seq<Step>)
    requires AllReturned(Exec(size, steps))
    ensures AllRan(Exec(size, steps)) <==> !LateTask(size, steps)
  {
    ExecKeeps(size, steps);
    NoneSinceExit(size, steps);
    hide LateTask;
    hide Exec;
    var s := Exec(size, steps);
    if s.sinceExit > 0 {
      assert s.accepted - 1 !in s.finished;
    }
  }

  /** If no `addTask` overlapped the destructor, that is always so. */
  lemma AllRanWithoutOverlap(size: int, steps: seq<Step>)
    requires AllReturned(Exec(size, steps)) && !Exec(size, steps).overlap
    ensures AllRan(Exec(size, steps))
  {
    ExecKeeps(size, steps);
    var s := Exec(size, steps);
    assert s.workers[0].Returned?;
    NoneSinceExit(size, steps);
    AllRanExactly(size, steps);
  }

  /** With an overlap a task can be accepted and never run: it is queued, and no worker is left to take it. */
  lemma OverlapLosesTask() returns (steps: seq<Step>)
    ensures ServerRun(2, steps)
    ensures var s := Exec(2, steps);
            AllReturned(s) && s.accepted == 1 && !AllRan(s) && s.overlap && s.queue == [0]
  {
    steps := [CheckStop, Stop, Exit(0), Exit(1), Emplace];
    ExecFive(2, CheckStop, Stop, Exit(0), Exit(1), Emplace);
    AllLeft();
    EmplacedLate(Next(Next(Next(Next(Start(2), CheckStop), Stop), Exit(0)), Exit(1)));
    hide Next;
    hide Exec;
    var s := Exec(2, steps);
    assert 0 !in s.finished;
  }

  lemma AllLeft()
    ensures Next(Next(Next(Next(Start(2), CheckStop), Stop), Exit(0)), Exit(1)) ==
            State([], [Returned, Returned], true, 1, 0, [], [], true, 0)
  {
    var s2 := Next(Next(Start(2), CheckStop), Stop);
    assert s2 == State([], [Idle, Idle], true, 1, 0, [], [], true, 0);
    var s3 := Next(s2, Exit(0));
    assert s3 == s2.(workers := [Returned, Idle]);
    assert s3.workers[1 := Returned] == [Returned, Returned];
  }

  lemma EmplacedLate(s: State)
    requires s == State([], [Returned, Returned], true, 1, 0, [], [], true, 0)
    ensures Next(s, Emplace) == State([0], [Returned, Returned], true, 0, 1, [], [], true, 1)
  {
  }

  /** Without one the pool runs the task and then ends. */
  lemma TaskRuns() returns (steps: seq<Step>)
    ensures var s := Exec(2, steps); AllReturned(s) && s.accepted == 1 && AllRan(s) && s.finished == [0] && s.stop
  {
    steps := [CheckStop, Emplace, Take(0), Finish(0), Stop] + [Exit(0), Exit(1)];
    TaskDone();
    ExecFive(2, CheckStop, Emplace, Take(0), Finish(0), Stop);
    var five := [CheckStop, Emplace, Take(0), Finish(0), Stop];
    assert steps[..6] == five + [Exit(0)] && (five + [Exit(0)])[..5] == five && steps[..6][..5] == five;
    var s := State([], [Idle, Idle], true, 0, 1, [Taken(0, 0)], [0], false, 1);
    assert Exec(2, five) == s;
    assert Exec(2, steps[..6]) == s.(workers := [Returned, Idle], sinceExit := 0) by {
      assert s.workers[0 := Returned] == [Returned, Idle];
    }
    assert [Returned, Idle][1 := Returned] == [Returned, Returned];
  }

  lemma TaskDone()
    ensures Next(Next(Next(Next(Next(Start(2), CheckStop), Emplace), Take(0)), Finish(0)), Stop) ==
            State([], [Idle, Idle], true, 0, 1, [Taken(0, 0)], [0], false, 1)
  {
    var s2 := Next(Next(Start(2), CheckStop), Emplace);
    assert s2 == State([0], [Idle, Idle], false, 0, 1, [], [], false, 1);
    TaskTaken(s2);
  }

  lemma TaskTaken(s: State)
    requires s == State([0], [Idle, Idle], false, 0, 1, [], [], false, 1)
    ensures Next(Next(Next(s, Take(0)), Finish(0)), Stop) ==
            State([], [Idle, Idle], true, 0, 1, [Taken(0, 0)], [0], false, 1)
  {
    var s' := Next(s, Take(0));
    assert s' == State([], [Running(0), Idle], false, 0, 1, [Taken(0, 0)], [], false, 1) by {
      assert [Idle, Idle][0 := Running(0)] == [Running(0), Idle];
    }
    assert [Running(0), Idle][0 := Idle] == [Idle, Idle];
  }

  lemma ExecFive(size: int, a: Step, b: Step, c: Step, d: Step, e: Step)
    ensures Exec(size, [a, b, c, d, e]) == Next(Next(Next(Next(Next(Start(size), a), b), c), d), e)
  {
    hide Next;
    assert [a, b, c, d, e][..4] == [a, b, c, d] && [a, b, c, d][..3] == [a, b, c];
    assert [a, b, c][..2] == [a, b] && [a, b][..1] == [a] && [a][..0] == [];
    assert Exec(size, [a]) == Next(Start(size), a);
    assert Exec(size, [a, b]) == Next(Exec(size, [a]), b);
    assert Exec(size, [a, b, c]) == Next(Exec(size, [a, b]), c);
    assert Exec(size, [a, b, c, d]) == Next(Exec(size, [a, b, c]), d);
  }

  // ---------------------------------------------------------------- one reactor per worker

  /**
   * The server queues one loop per worker, and no loop has quit. The pool may be stopping: the server
   * destroys it before the loops.
   */
  ghost predicate ServerRun(size: int, steps: seq<Step>) {
    && (forall i :: 0 <= i < |steps| ==> !steps[i].Finish?)
    && Exec(size, steps).accepted <= |Exec(size, steps).workers|
  }

  lemma {:induction false} NoneEnds(size: int, steps: seq<Step>)
    requires forall i :: 0 <= i < |steps| ==> !steps[i].Finish?
    ensures Exec(size, steps).finished == []
    decreases |steps|
  {
    if steps != [] {
      NoneEnds(size, steps[..|steps| - 1]);
    }
  }

  /** Different numbers below `n` leave one out if they are fewer, and are all of them if they are `n`. */
  lemma Pigeonhole(ws: seq<nat>, n: nat)
    requires forall i :: 0 <= i < |ws| ==> ws[i] < n
    requires forall i, j :: 0 <= i < j < |ws| ==> ws[i] != ws[j]
    ensures |ws| < n ==> exists w: nat :: w < n && w !in ws
    ensures |ws| == n ==> forall w: nat :: w < n ==> w in ws
  {
    var all := Below(n);
    var used := Elements(ws);
    Different(ws);
    if forall w: nat :: w < n ==> w in ws {
      assert used == all;
    } else {
      var w: nat :| w < n && w !in ws;
      assert used <= all - {w};
      Smaller(used, all - {w});
    }
  }

  ghost function Below(n: nat): (s: set<nat>)
    ensures |s| == n && forall w: nat :: w in s <==> w < n
  {
    if n == 0 then {} else Below(n - 1) + {n - 1}
  }

  ghost function Elements(ws: seq<nat>): set<nat> {
    set w | w in ws
  }

  lemma {:induction false} Different(ws: seq<nat>)
    requires forall i, j :: 0 <= i < j < |ws| ==> ws[i] != ws[j]
    ensures |Elements(ws)| == |ws|
    decreases |ws|
  {
    if ws != [] {
      var init, last := ws[..|ws| - 1], ws[|ws| - 1];
      Different(init);
      assert Elements(ws) == Elements(init) + {last};
    }
  }

  lemma {:induction false} Smaller(a: set<nat>, b: set<nat>)
    requires a <= b
    ensures |a| <= |b|
    decreases b
  {
    if b != {} {
      var x :| x in b;
      Smaller(a - {x}, b - {x});
      assert b == (b - {x}) + {x} && a <= (a - {x}) + {x};
      assert x in a ==> a == (a - {x}) + {x};
      assert x !in a ==> a == a - {x};
    }
  }

  /** The workers that took the tasks so far, in order. */
  function Takers(taken: seq<Taken>): seq<nat> {
    seq(|taken|, i requires 0 <= i < |taken| => taken[i].worker)
  }

  /**
   * While no loop has quit, a queued loop always has a free worker waiting for it, unless its
   * `addTask` overlapped the destructor and the worker has returned, as in `OverlapLosesTask`.
   */
  lemma QueuedLoopHasWorker(size: int, steps: seq<Step>)
    requires ServerRun(size, steps) && Exec(size, steps).queue != []
    ensures var s := Exec(size, steps);
            exists w :: 0 <= w < |s.workers| && (Enabled(s, Take(w)) || (s.overlap && s.workers[w].Returned?))
  {
    ExecKeeps(size, steps);
    NoneEnds(size, steps);
    var s := Exec(size, steps);
    var ws := Takers(s.taken);
    TakersDiffer(s);
    Pigeonhole(ws, |s.workers|);
    forall v | 0 <= v < |s.workers| && s.workers[v].Running?
      ensures v in ws
    {
      assert ws[s.workers[v].task] == v;
    }
    var w: nat :| w < |s.workers| && w !in ws;
    assert !s.workers[w].Running?;
  }

  lemma TakersDiffer(s: State)
    requires Inv(s) && s.finished == []
    ensures forall i, j :: 0 <= i < j < |s.taken| ==> s.taken[i].worker != s.taken[j].worker
  {
    forall i, j | 0 <= i < j < |s.taken|
      ensures s.taken[i].worker != s.taken[j].worker
    {
      assert s.workers[s.taken[i].worker] == Running(i) && s.workers[s.taken[j].worker] == Running(j);
    }
  }

  /** Once all the server's loops are taken, workers and loops are in bijection. */
  lemma LoopsAndWorkersMatch(size: int, steps: seq<Step>)
    requires ServerRun(size, steps) && Exec(size, steps).queue == []
    requires Exec(size, steps).accepted == |Exec(size, steps).workers|
    ensures var s := Exec(size, steps);
            && (forall w :: 0 <= w < |s.workers| ==> s.workers[w].Running? && s.workers[w].task < s.accepted)
            && (forall v, w :: 0 <= v < w < |s.workers| ==> s.workers[v] != s.workers[w])
            && (forall t :: 0 <= t < s.accepted ==> exists w :: 0 <= w < |s.workers| && s.workers[w] == Running(t))
  {
    ExecKeeps(size, steps);
    NoneEnds(size, steps);
    var s := Exec(size, steps);
    var ws := Takers(s.taken);
    TakersDiffer(s);
    Pigeonhole(ws, |s.workers|);
    forall w | 0 <= w < |s.workers|
      ensures s.workers[w].Running?
    {
      assert w in ws;
      var t :| 0 <= t < |ws| && ws[t] == w;
      assert s.workers[s.taken[t].worker] == Running(t);
    }
    forall t | 0 <= t < s.accepted
      ensures exists w :: 0 <= w < |s.workers| && s.workers[w] == Running(t)
    {
      assert s.workers[s.taken[t].worker] == Running(t);
    }
  }
}
