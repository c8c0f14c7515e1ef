/**
 * The logger's producers and its writer thread (falconlink/common/logger.cpp), as interleaved steps.
 * A step is a critical section, one log handed to the logging strategy, or one read of `done_`.
 */
module Logger {

  type Log = string

  /**
   * Where the writer is: before the lock, in the strategy, before it reads `done_` (still holding
   * the lock if it found nothing to write), or gone.
   */
  datatype Writer = Locking | Writing | Checking(locked: bool) | Gone

  /**
   * `pushed` lists the logs in the order their pushes held the lock, `seen` is how many had been
   * pushed when the writer last held it.
   */
  datatype State = State(pushed: seq<Log>, queue: seq<Log>, batch: seq<Log>, written: seq<Log>, done: bool,
                         writer: Writer, seen: nat)

  datatype Step = Push(log: Log) | SetDone | Acquire | WriteOne | EndWrite | Check

  /**
   * `Acquire` stands for the wait that ends with the lock held; when it ends depends on a clock, so
   * it may end at any time.
   */
  predicate Enabled(s: State, step: Step) {
    match step
    case Push(_) => s.writer != Checking(true)
    case SetDone => true
    case Acquire => s.writer.Locking?
    case WriteOne => s.writer.Writing? && s.batch != []
    case EndWrite => s.writer.Writing? && s.batch == []
    case Check => s.writer.Checking?
  }

  function Next(s: State, step: Step): State {
    if !Enabled(s, step) then s
    else match step
      case Push(log) => s.(pushed := s.pushed + [log], queue := s.queue + [log])
      case SetDone => s.(done := true)
      case Acquire =>
        if s.queue == [] then s.(writer := Checking(true), seen := |s.pushed|)
        else s.(queue := s.batch, batch := s.queue, writer := Writing, seen := |s.pushed|)
      case WriteOne => s.(written := s.written + [s.batch[0]], batch := s.batch[1..])
      case EndWrite => s.(writer := Checking(false))
      case Check => s.(writer := if s.done then Gone else Locking)
  }

  function Start(): State {
    State([], [], [], [], false, Locking, 0)
  }

  function Exec(steps: seq<Step>): State {
    if steps == [] then Start() else Next(Exec(steps[..|steps| - 1]), steps[|steps| - 1])
  }

  /** Written, then in hand, then queued: exactly what was pushed, in that order. */
  ghost predicate Conserved(s: State) {
    s.written + s.batch + s.queue == s.pushed
  }

  ghost predicate WriterOk(s: State) {
    && (!s.writer.Writing? ==> s.batch == [])
    && s.seen <= |s.pushed|
    && (!s.writer.Locking? ==> |s.written| + |s.batch| == s.seen)
    && (s.writer.Gone? ==> s.done)
  }

  lemma NextKeeps(s: State, step: Step)
    requires Conserved(s) && WriterOk(s)
    ensures Conserved(Next(s, step)) && WriterOk(Next(s, step))
  {
    var s' := Next(s, step);
    if Enabled(s, step) {
      match step
      case Push(log) =>
        assert s.written + s.batch + (s.queue + [log]) == s.written + s.batch + s.queue + [log];
      case Acquire =>
        if s.queue != [] {
          assert s.written + s.queue + [] == s.written + [] + s.queue;
        }
      case WriteOne =>
        assert s.batch == [s.batch[0]] + s.batch[1..];
        assert s.written + [s.batch[0]] + s.batch[1..] == s.written + s.batch;
      case _ =>
    }
  }

  lemma {:induction false} ExecKeeps(steps: seq<Step>)
    ensures Conserved(Exec(steps)) && WriterOk(Exec(steps))
    decreases |steps|
  {
    if steps != [] {
      ExecKeeps(steps[..|steps| - 1]);
      NextKeeps(Exec(steps[..|steps| - 1]), steps[|steps| - 1]);
    }
  }

  /** No log is lost, repeated or reordered in any interleaving of producers and writer. */
  lemma LogsConserved(steps: seq<Step>)
    ensures var s := Exec(steps); s.written + s.batch + s.queue == s.pushed
  {
    ExecKeeps(steps);
  }

  /** When the writer has returned, it has written exactly the logs pushed before it last held the lock. */
  lemma WrittenAtExit(steps: seq<Step>)
    requires Exec(steps).writer.Gone?
    ensures var s := Exec(steps); s.seen <= |s.pushed| && s.written == s.pushed[..s.seen] && s.queue == s.pushed[s.seen..]
  {
    ExecKeeps(steps);
    var s := Exec(steps);
    assert s.written + s.batch == s.written;
  }

  /** The k-th step pushes a log. */
  ghost predicate PushAt(steps: seq<Step>, k: nat) {
    k < |steps| && steps[k].Push? && Enabled(Exec(steps[..k]), steps[k])
  }

  /** At the k-th step the writer gets the lock and looks at the queue. */
  ghost predicate AcquireAt(steps: seq<Step>, k: nat) {
    k < |steps| && steps[k].Acquire? && Enabled(Exec(steps[..k]), steps[k])
  }

  /** A log is pushed after the writer last looked at the queue. */
  ghost predicate LateLog(steps: seq<Step>) {
    exists j: nat :: PushAt(steps, j) && forall k: nat :: k > j ==> !AcquireAt(steps, k)
  }

  lemma LateLogStep(steps: seq<Step>, n: nat)
    requires |steps| == n + 1
    ensures LateLog(steps) <==> PushAt(steps, n) || (LateLog(steps[..n]) && !AcquireAt(steps, n))
  {
    var init := steps[..n];
    forall k: nat | k < n
      ensures PushAt(steps, k) == PushAt(init, k) && AcquireAt(steps, k) == AcquireAt(init, k)
    {
      assert init[..k] == steps[..k];
    }
    hide Enabled;
    hide Exec;
    if PushAt(steps, n) {
      assert forall k: nat :: k > n ==> !AcquireAt(steps, k);
    } else if LateLog(init) && !AcquireAt(steps, n) {
      var j: nat :| PushAt(init, j) && forall k: nat :: k > j ==> !AcquireAt(init, k);
      assert PushAt(steps, j);
      assert forall k: nat :: k > j ==> !AcquireAt(steps, k);
    }
  }

  lemma {:induction false} SeenUnlessLate(steps: seq<Step>)
    ensures Exec(steps).seen == |Exec(steps).pushed| <==> !LateLog(steps)
    decreases |steps|
  {
    if steps != [] {
      var n := |steps| - 1;
      LateLogStep(steps, n);
      SeenUnlessLate(steps[..n]);
      ExecKeeps(steps[..n]);
      hide LateLog;
    }
  }

  /** So everything is flushed at exit exactly when no log is pushed after the writer last looked at the queue. */
  lemma FlushedExactly(steps: seq<Step>)
    requires Exec(steps).writer.Gone?
    ensures Exec(steps).written == Exec(steps).pushed <==> !LateLog(steps)
  {
    WrittenAtExit(steps);
    SeenUnlessLate(steps);
  }

  /** At the k-th step the writer reads `done_`. */
  ghost predicate CheckAt(steps: seq<Step>, k: nat) {
    k < |steps| && steps[k].Check? && Enabled(Exec(steps[..k]), steps[k])
  }

  lemma {:induction false} DoneWhenSet(steps: seq<Step>)
    ensures Exec(steps).done <==> SetDone in steps
    decreases |steps|
  {
    if steps != [] {
      var init := steps[..|steps| - 1];
      DoneWhenSet(init);
      assert steps == init + [steps[|steps| - 1]];
    }
  }

  /**
   * The writer returns at the first read of `done_` after it was set and at no other: every read before
   * sends it back to the lock.
   */
  lemma {:induction false} ReturnsWhenDone(steps: seq<Step>)
    ensures Exec(steps).writer.Gone? <==> exists k: nat :: CheckAt(steps, k) && SetDone in steps[..k]
    ensures |steps| > 0 && CheckAt(steps, |steps| - 1) && SetDone !in steps[..|steps| - 1] ==> Exec(steps).writer.Locking?
    decreases |steps|
  {
    if steps != [] {
      var n := |steps| - 1;
      var init := steps[..n];
      ReturnsWhenDone(init);
      DoneWhenSet(init);
      forall k: nat | k < n
        ensures CheckAt(steps, k) == CheckAt(init, k) && steps[..k] == init[..k]
      {
        assert init[..k] == steps[..k];
      }
      if Exec(init).writer.Gone? {
        var k: nat :| CheckAt(init, k) && SetDone in init[..k];
        assert CheckAt(steps, k) && SetDone in steps[..k];
      } else if CheckAt(steps, n) && SetDone in init {
        assert steps[..n] == init;
      }
    }
  }

  /** A log pushed while the strategy runs, even before the destructor sets `done_`, can stay in the queue for good. */
  lemma LateLogIsLost(a: Log, b: Log) returns (steps: seq<Step>)
    ensures |steps| > 2 && PushAt(steps, 2) && steps[2] == Push(b) && !Exec(steps[..3]).done
    ensures var s := Exec(steps); s.writer.Gone? && s.pushed == [a, b] && s.written == [a] && s.queue == [b]
  {
    steps := [Push(a), Acquire, Push(b), WriteOne, EndWrite, SetDone, Check];
    assert steps[..6] == [Push(a), Acquire, Push(b), WriteOne, EndWrite, SetDone];
    LateLogPending(a, b);
    assert [Push(a), Acquire, Push(b), WriteOne, EndWrite][..4] == [Push(a), Acquire, Push(b), WriteOne];
    assert steps[..6][..5] == [Push(a), Acquire, Push(b), WriteOne, EndWrite];
    assert steps[..2] == [Push(a), Acquire] && steps[..3] == [Push(a), Acquire, Push(b)];
    var s5 := State([a, b], [b], [], [a], false, Checking(false), 1);
    assert Exec(steps[..6][..5]) == s5;
    assert Exec(steps[..6]) == s5.(done := true);
    assert Exec(steps) == s5.(done := true, writer := Gone);
  }

  lemma LateLogPending(a: Log, b: Log)
    ensures Exec([Push(a), Acquire]) == State([a], [], [a], [], false, Writing, 1)
    ensures Exec([Push(a), Acquire, Push(b)]) == State([a, b], [b], [a], [], false, Writing, 1)
    ensures Exec([Push(a), Acquire, Push(b), WriteOne]) == State([a, b], [b], [], [a], false, Writing, 1)
  {
    assert [Push(a), Acquire, Push(b), WriteOne][..3] == [Push(a), Acquire, Push(b)];
    assert [Push(a), Acquire, Push(b)][..2] == [Push(a), Acquire];
    assert [Push(a), Acquire][..1] == [Push(a)] && [Push(a)][..0] == [];
    assert Exec([Push(a)]) == State([a], [a], [], [], false, Locking, 0);
    assert Exec([Push(a), Acquire]) == State([a], [], [a], [], false, Writing, 1);
    assert Exec([Push(a), Acquire, Push(b)]) == State([a, b], [b], [a], [], false, Writing, 1);
  }
}
