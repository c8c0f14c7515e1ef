/**
 * Accepting, registering, polling, dispatching and deleting connections over several event loops
 * (falconlink/net/acceptor.cpp, event_loop.cpp, poller.cpp, connection.cpp), as steps of threads
 * that interleave freely. Connection objects are named by their address: a new object may get the
 * address, and a new socket the descriptor, of one that is gone.
 */
module Reactor {
  import opened Options

  type Address = nat
  type Fd = int

  /** A live connection object: its descriptor and the loop set by `setEventLoop`. */
  datatype Conn = Conn(fd: Fd, owner: nat)

  /**
   * One event loop: the map it owns its connections through, the addresses registered with its
   * epoll instance, the part of the current ready list not yet dispatched, and the handler running.
   */
  datatype Loop = Loop(connections: map<Fd, Address>, registered: set<Address>, ready: seq<Address>, running: Option<Address>)

  /**
   * Where the accepting thread is. From `Registered` on it holds the mutex of loop `l`, until the
   * connection is in the map.
   */
  datatype Acceptor = Waiting | Accepted(a: Address, l: nat) | Registered(a: Address, l: nat)

  datatype State = State(conns: map<Address, Conn>, loops: seq<Loop>, acceptor: Acceptor)

  datatype Step =
    | Accept(fd: Fd, a: Address, l: nat)
    | Register
    | Insert
    | Poll(l: nat, ready: seq<Address>)
    | Dispatch(l: nat)
    | Delete(l: nat)
    | Return(l: nat)

  predicate Locked(s: State, l: nat) {
    s.acceptor.Registered? && s.acceptor.l == l
  }

  predicate NoRepeats(xs: seq<Address>) {
    forall i, j :: 0 <= i < j < |xs| ==> xs[i] != xs[j]
  }

  /** What the kernel and the mutexes allow, and that a handler deletes only its own connection. */
  predicate Enabled(s: State, step: Step) {
    match step
    case Accept(fd, a, l) =>
      && s.acceptor.Waiting? && l < |s.loops| && a !in s.conns
      && forall b :: b in s.conns ==> s.conns[b].fd != fd
    case Register => s.acceptor.Accepted? && s.acceptor.l < |s.loops|
    case Insert => s.acceptor.Registered? && s.acceptor.l < |s.loops| && s.acceptor.a in s.conns
    case Poll(l, ready) =>
      && l < |s.loops| && s.loops[l].ready == [] && s.loops[l].running.None?
      && NoRepeats(ready) && forall i :: 0 <= i < |ready| ==> ready[i] in s.loops[l].registered
    case Dispatch(l) => l < |s.loops| && s.loops[l].ready != [] && s.loops[l].running.None?
    case Delete(l) =>
      && l < |s.loops| && s.loops[l].running.Some? && s.loops[l].running.value in s.conns
      && s.conns[s.loops[l].running.value].owner < |s.loops|
      && !Locked(s, s.conns[s.loops[l].running.value].owner)
    case Return(l) => l < |s.loops| && s.loops[l].running.Some?
  }

  /** The map entry a `deleteConnection` from the handler running in `l` would find. */
  function Found(s: State, l: nat): Option<Address>
    requires Enabled(s, Delete(l))
  {
    var c := s.conns[s.loops[l].running.value];
    if c.fd in s.loops[c.owner].connections then Some(s.loops[c.owner].connections[c.fd]) else None
  }

  /** Closing its socket takes a destroyed connection out of every epoll instance. */
  function Unregister(loops: seq<Loop>, a: Address): seq<Loop> {
    seq(|loops|, i requires 0 <= i < |loops| => loops[i].(registered := loops[i].registered - {a}))
  }

  function InsertOne(s: State): State
    requires Enabled(s, Insert)
  {
    var a, l := s.acceptor.a, s.acceptor.l;
    var loop := s.loops[l];
    var fd := s.conns[a].fd;
    if fd in loop.connections then
      // the map keeps its old entry and the new connection is destroyed
      State(s.conns - {a}, Unregister(s.loops, a), Waiting)
    else
      State(s.conns, s.loops[l := loop.(connections := loop.connections[fd := a])], Waiting)
  }

  function DeleteOne(s: State, l: nat): State
    requires Enabled(s, Delete(l))
  {
    var c := s.conns[s.loops[l].running.value];
    var loops := s.loops[l := s.loops[l].(running := None)];
    match Found(s, l)
    case None => s.(loops := loops)
    case Some(victim) =>
      var owner := loops[c.owner];
      State(s.conns - {victim},
            Unregister(loops[c.owner := owner.(connections := owner.connections - {c.fd})], victim), s.acceptor)
  }

  /** A step that is not enabled changes nothing. */
  function Next(s: State, step: Step): State {
    if !Enabled(s, step) then s
    else match step
      case Accept(fd, a, l) => State(s.conns[a := Conn(fd, l)], s.loops, Accepted(a, l))
      case Register =>
        var a, l := s.acceptor.a, s.acceptor.l;
        State(s.conns, s.loops[l := s.loops[l].(registered := s.loops[l].registered + {a})], Registered(a, l))
      case Insert => InsertOne(s)
      case Poll(l, ready) => s.(loops := s.loops[l := s.loops[l].(ready := ready)])
      case Dispatch(l) =>
        var loop := s.loops[l];
        s.(loops := s.loops[l := loop.(ready := loop.ready[1..], running := Some(loop.ready[0]))])
      case Delete(l) => DeleteOne(s, l)
      case Return(l) => s.(loops := s.loops[l := s.loops[l].(running := None)])
  }

  /** `n` loops, no connection. */
  function Start(n: nat): State {
    State(map[], seq(n, i => Loop(map[], {}, [], None)), Waiting)
  }

  function Exec(n: nat, steps: seq<Step>): State {
    if steps == [] then Start(n)
    else Next(Exec(n, steps[..|steps| - 1]), steps[|steps| - 1])
  }

  // ---------------------------------------------------------------- what every step keeps

  /** The accepting thread still owns this connection. */
  predicate InHand(s: State, a: Address) {
    !s.acceptor.Waiting? && s.acceptor.a == a
  }

  /** Live connections have different descriptors and an existing owner, whose map has them unless they are in hand. */
  ghost predicate ConnsOk(s: State) {
    && (forall a, b :: a in s.conns && b in s.conns && a != b ==> s.conns[a].fd != s.conns[b].fd)
    && (forall a :: a in s.conns ==> s.conns[a].owner < |s.loops|)
    && (forall a :: a in s.conns && !InHand(s, a) ==> Owned(s, a))
    && (!s.acceptor.Waiting? ==> s.acceptor.a in s.conns && s.conns[s.acceptor.a].owner == s.acceptor.l)
  }

  ghost predicate Owned(s: State, a: Address)
    requires a in s.conns && s.conns[a].owner < |s.loops|
  {
    var m := s.loops[s.conns[a].owner].connections;
    s.conns[a].fd in m && m[s.conns[a].fd] == a
  }

  /** A loop's map and registrations hold live connections of that loop, and all of those it should. */
  ghost predicate LoopOk(s: State, l: nat)
    requires l < |s.loops|
  {
    var loop := s.loops[l];
    && (forall fd :: fd in loop.connections ==>
          loop.connections[fd] in s.conns && s.conns[loop.connections[fd]] == Conn(fd, l) && !InHand(s, loop.connections[fd]))
    && (forall a :: a in loop.registered <==> a in s.conns && s.conns[a].owner == l && s.acceptor != Accepted(a, l))
  }

  /** The ready list and the running handler point to registered connections, each once. */
  ghost predicate ReadyOk(loop: Loop) {
    && NoRepeats(loop.ready)
    && (forall i :: 0 <= i < |loop.ready| ==> loop.ready[i] in loop.registered)
    && (loop.running.Some? ==> loop.running.value in loop.registered && loop.running.value !in loop.ready)
  }

  ghost predicate Inv(s: State) {
    && ConnsOk(s)
    && (forall l :: 0 <= l < |s.loops| ==> LoopOk(s, l))
    && (forall l :: 0 <= l < |s.loops| ==> ReadyOk(s.loops[l]))
  }

  /** Insertion finds no entry under the new descriptor. */
  lemma NoCollision(s: State)
    requires Inv(s) && Enabled(s, Insert)
    ensures s.conns[s.acceptor.a].fd !in s.loops[s.acceptor.l].connections
  {
    var a, l := s.acceptor.a, s.acceptor.l;
    assert LoopOk(s, l);
  }

  /** A handler's delete finds the handler's own connection, once the mutex lets it look. */
  lemma DeleteFindsOwn(s: State, l: nat)
    requires Inv(s) && Enabled(s, Delete(l))
    ensures Found(s, l) == s.loops[l].running
    ensures s.conns[s.loops[l].running.value].owner == l
  {
    var a := s.loops[l].running.value;
    assert ReadyOk(s.loops[l]) && LoopOk(s, l);
    assert Owned(s, a);
  }

  lemma AcceptKeeps(s: State, fd: Fd, a: Address, l: nat)
    requires Inv(s) && Enabled(s, Accept(fd, a, l))
    ensures Inv(Next(s, Accept(fd, a, l)))
  {
    var s' := Next(s, Accept(fd, a, l));
    forall b | b in s'.conns && !InHand(s', b)
      ensures Owned(s', b)
    {
      assert Owned(s, b);
    }
    forall k | 0 <= k < |s.loops|
      ensures LoopOk(s', k) && ReadyOk(s'.loops[k])
    {
      assert LoopOk(s, k) && ReadyOk(s.loops[k]);
    }
  }

  lemma RegisterKeeps(s: State)
    requires Inv(s) && Enabled(s, Register)
    ensures Inv(Next(s, Register))
  {
    var s' := Next(s, Register);
    forall b | b in s'.conns && !InHand(s', b)
      ensures Owned(s', b)
    {
      assert Owned(s, b);
    }
    forall k | 0 <= k < |s.loops|
      ensures LoopOk(s', k) && ReadyOk(s'.loops[k])
    {
      assert LoopOk(s, k) && ReadyOk(s.loops[k]);
    }
  }

  lemma InsertKeeps(s: State)
    requires Inv(s) && Enabled(s, Insert)
    ensures Inv(Next(s, Insert))
  {
    NoCollision(s);
    var s' := Next(s, Insert);
    forall b | b in s'.conns && !InHand(s', b)
      ensures Owned(s', b)
    {
      if b != s.acceptor.a {
        assert Owned(s, b);
      }
    }
    forall k | 0 <= k < |s.loops|
      ensures LoopOk(s', k) && ReadyOk(s'.loops[k])
    {
      assert LoopOk(s, k) && ReadyOk(s.loops[k]);
    }
  }

  /** Steps that only move a loop through its ready list. */
  lemma MoveKeeps(s: State, l: nat, loop: Loop)
    requires Inv(s) && l < |s.loops| && ReadyOk(loop)
    requires loop.connections == s.loops[l].connections && loop.registered == s.loops[l].registered
    ensures Inv(s.(loops := s.loops[l := loop]))
  {
    var s' := s.(loops := s.loops[l := loop]);
    forall b | b in s'.conns && !InHand(s', b)
      ensures Owned(s', b)
    {
      assert Owned(s, b);
    }
    forall k | 0 <= k < |s.loops|
      ensures LoopOk(s', k) && ReadyOk(s'.loops[k])
    {
      assert LoopOk(s, k) && ReadyOk(s.loops[k]);
    }
  }

  /** `s'` is `s` with the connection at `a` of loop `l` destroyed, and the handler in `l` returned. */
  ghost predicate Deleted(s: State, s': State, l: nat, a: Address) {
    && a in s.conns && s.conns[a].owner == l && !InHand(s, a)
    && s'.conns == s.conns - {a} && s'.acceptor == s.acceptor && |s'.loops| == |s.loops|
    && (forall k :: 0 <= k < |s.loops| ==> s'.loops[k].registered == s.loops[k].registered - {a})
    && (forall k :: 0 <= k < |s.loops| ==> s'.loops[k].ready == s.loops[k].ready)
    && (forall k :: 0 <= k < |s.loops| ==> s'.loops[k].running == if k == l then None else s.loops[k].running)
    && (forall k :: 0 <= k < |s.loops| ==>
          s'.loops[k].connections == if k == l then s.loops[k].connections - {s.conns[a].fd} else s.loops[k].connections)
  }

  lemma DeleteEffect(s: State, l: nat)
    requires Inv(s) && Enabled(s, Delete(l))
    ensures Deleted(s, Next(s, Delete(l)), l, s.loops[l].running.value)
  {
    DeleteFindsOwn(s, l);
    assert LoopOk(s, l);
  }

  lemma DeletedConns(s: State, s': State, l: nat, a: Address)
    requires Inv(s) && Deleted(s, s', l, a)
    ensures ConnsOk(s')
  {
    forall b | b in s'.conns && !InHand(s', b)
      ensures Owned(s', b)
    {
      assert Owned(s, b);
    }
  }

  lemma DeletedLoop(s: State, s': State, l: nat, a: Address, k: nat)
    requires Inv(s) && Deleted(s, s', l, a) && k < |s.loops|
    ensures LoopOk(s', k)
  {
    assert LoopOk(s, k);
  }

  /** The deleted connection was running, so it is in no ready list. */
  lemma DeletedReady(s: State, s': State, l: nat, a: Address, k: nat)
    requires Inv(s) && Deleted(s, s', l, a) && k < |s.loops| && l < |s.loops| && s.loops[l].running == Some(a)
    ensures ReadyOk(s'.loops[k])
  {
    assert ReadyOk(s.loops[k]) && ReadyOk(s.loops[l]) && LoopOk(s, k);
  }

  lemma DeleteKeeps(s: State, l: nat)
    requires Inv(s) && Enabled(s, Delete(l))
    ensures Inv(Next(s, Delete(l)))
  {
    DeleteEffect(s, l);
    var a, s' := s.loops[l].running.value, Next(s, Delete(l));
    hide Next;
    hide LoopOk;
    hide ReadyOk;
    hide ConnsOk;
    DeletedConns(s, s', l, a);
    forall k | 0 <= k < |s'.loops|
      ensures LoopOk(s', k) && ReadyOk(s'.loops[k])
    {
      DeletedLoop(s, s', l, a, k);
      DeletedReady(s, s', l, a, k);
    }
  }

  lemma NextKeeps(s: State, step: Step)
    requires Inv(s)
    ensures Inv(Next(s, step)) && |Next(s, step).loops| == |s.loops|
  {
    if Enabled(s, step) {
      match step
      case Accept(fd, a, l) => AcceptKeeps(s, fd, a, l);
      case Register => RegisterKeeps(s);
      case Insert => InsertKeeps(s);
      case Poll(l, ready) => MoveKeeps(s, l, s.loops[l].(ready := ready));
      case Dispatch(l) =>
        assert ReadyOk(s.loops[l]);
        MoveKeeps(s, l, s.loops[l].(ready := s.loops[l].ready[1..], running := Some(s.loops[l].ready[0])));
      case Delete(l) => DeleteKeeps(s, l);
      case Return(l) =>
        assert ReadyOk(s.loops[l]);
        MoveKeeps(s, l, s.loops[l].(running := None));
    }
  }

  lemma {:induction false} ExecKeeps(n: nat, steps: seq<Step>)
    ensures Inv(Exec(n, steps)) && |Exec(n, steps).loops| == n
    decreases |steps|
  {
    if steps != [] {
      ExecKeeps(n, steps[..|steps| - 1]);
      NextKeeps(Exec(n, steps[..|steps| - 1]), steps[|steps| - 1]);
    }
  }

  // ---------------------------------------------------------------- safety of every run

  /** Every pointer in a ready list, and the one whose handler runs, is a live connection of that loop. */
  lemma ReadyPointersAreLive(n: nat, steps: seq<Step>, l: nat, a: Address)
    requires l < |Exec(n, steps).loops|
    requires a in Exec(n, steps).loops[l].ready || Exec(n, steps).loops[l].running == Some(a)
    ensures a in Exec(n, steps).conns && Exec(n, steps).conns[a].owner == l
  {
    ExecKeeps(n, steps);
    var s := Exec(n, steps);
    assert LoopOk(s, l) && ReadyOk(s.loops[l]);
  }

  /** An open descriptor is in the map of one loop at most, and names one connection. */
  lemma OneLoopPerDescriptor(n: nat, steps: seq<Step>, fd: Fd, k: nat, l: nat)
    requires k < |Exec(n, steps).loops| && l < |Exec(n, steps).loops|
    requires fd in Exec(n, steps).loops[k].connections && fd in Exec(n, steps).loops[l].connections
    ensures k == l
  {
    ExecKeeps(n, steps);
    var s := Exec(n, steps);
    assert LoopOk(s, k) && LoopOk(s, l);
  }

  /** In no run does the map insertion meet an old entry: a registered connection always gets into the map. */
  lemma InsertNeverCollides(n: nat, steps: seq<Step>)
    requires Exec(n, steps).acceptor.Registered?
    ensures var s := Exec(n, steps);
            var a, l := s.acceptor.a, s.acceptor.l;
            && Enabled(s, Insert) && s.conns[a].fd !in s.loops[l].connections
            && var s' := Next(s, Insert);
               && s'.conns == s.conns && |s'.loops| == |s.loops|
               && s'.loops[l].connections == s.loops[l].connections[s.conns[a].fd := a]
  {
    ExecKeeps(n, steps);
    hide Exec;
    NoCollision(Exec(n, steps));
  }

  /**
   * In every run a handler's delete destroys its own connection and no other, though its event may
   * have been delivered before the connection was in the map.
   */
  lemma DeleteAlwaysFinds(n: nat, steps: seq<Step>, l: nat)
    requires Enabled(Exec(n, steps), Delete(l))
    ensures var s := Exec(n, steps);
            Found(s, l) == s.loops[l].running && Next(s, Delete(l)).conns == s.conns - {s.loops[l].running.value}
  {
    ExecKeeps(n, steps);
    DeleteFindsOwn(Exec(n, steps), l);
  }

  /** The pointers that `poll` has put into the ready list of loop `l`, in order. */
  function Polled(n: nat, steps: seq<Step>, l: nat): seq<Address> {
    if steps == [] then []
    else
      var init, step := steps[..|steps| - 1], steps[|steps| - 1];
      Polled(n, init, l) + if Enabled(Exec(n, init), step) && step.Poll? && step.l == l then step.ready else []
  }

  /** The pointers whose handlers loop `l` has started, in order. */
  function Started(n: nat, steps: seq<Step>, l: nat): seq<Address> {
    if steps == [] then []
    else
      var init, step := steps[..|steps| - 1], steps[|steps| - 1];
      var s, s' := Exec(n, init), Exec(n, steps);
      Started(n, init, l) +
      if l < |s.loops| && |s'.loops| == |s.loops| && s.loops[l].running.None? && s'.loops[l].running.Some?
      then [s'.loops[l].running.value] else []
  }

  /** In every run each polled pointer is handled once and in order, or still waits in the ready list. */
  lemma {:induction false} EveryPolledIsHandled(n: nat, steps: seq<Step>, l: nat)
    requires l < n
    ensures l < |Exec(n, steps).loops| && Polled(n, steps, l) == Started(n, steps, l) + Exec(n, steps).loops[l].ready
    decreases |steps|
  {
    ExecKeeps(n, steps);
    if steps != [] {
      var init, step := steps[..|steps| - 1], steps[|steps| - 1];
      EveryPolledIsHandled(n, init, l);
      ExecKeeps(n, init);
      ReadyMoves(Exec(n, init), step, l);
      StepHandles(n, steps, l);
    }
  }

  lemma StepHandles(n: nat, steps: seq<Step>, l: nat)
    requires steps != [] && l < n && |Exec(n, steps).loops| == n
    requires var init, step := steps[..|steps| - 1], steps[|steps| - 1];
             var s, s' := Exec(n, init), Exec(n, steps);
             |s.loops| == n && s' == Next(s, step) && Moved(s, s', step, l) &&
             Polled(n, init, l) == Started(n, init, l) + s.loops[l].ready
    ensures Polled(n, steps, l) == Started(n, steps, l) + Exec(n, steps).loops[l].ready
  {
    hide Next;
    hide Enabled;
    hide Exec;
    var init, step := steps[..|steps| - 1], steps[|steps| - 1];
    var s, s' := Exec(n, init), Exec(n, steps);
    var polled, started, ready := Polled(n, init, l), Started(n, init, l), s.loops[l].ready;
    if Enabled(s, step) && step == Dispatch(l) {
      assert ready == [ready[0]] + ready[1..];
      Regrouped(started, [ready[0]], ready[1..]);
    }
    hide Polled;
  }

  lemma Regrouped(a: seq<Address>, b: seq<Address>, c: seq<Address>)
    ensures a + (b + c) == a + b + c
  {
  }

  /** How one step changes a ready list: polling fills an empty one, and starting a handler takes its head off. */
  ghost predicate Moved(s: State, s': State, step: Step, l: nat)
    requires l < |s.loops| == |s'.loops|
  {
    var ready, ready' := s.loops[l].ready, s'.loops[l].ready;
    if Enabled(s, step) && step.Poll? && step.l == l then
      ready == [] && ready' == step.ready && s'.loops[l].running.None?
    else if Enabled(s, step) && step == Dispatch(l) then
      ready != [] && ready' == ready[1..] && s.loops[l].running.None? && s'.loops[l].running == Some(ready[0])
    else ready' == ready && (s'.loops[l].running.Some? ==> s'.loops[l].running == s.loops[l].running)
  }

  lemma ReadyMoves(s: State, step: Step, l: nat)
    requires Inv(s) && l < |s.loops|
    ensures |Next(s, step).loops| == |s.loops| && Moved(s, Next(s, step), step, l)
  {
    if step.Delete? && Enabled(s, step) {
      DeleteEffect(s, step.l);
    } else if step.Insert? && Enabled(s, step) {
      NoCollision(s);
    }
  }

  /** In every run a running handler can delete its connection unless the acceptor holds the mutex of its loop. */
  lemma DeleteWaitsForLockOnly(n: nat, steps: seq<Step>, l: nat)
    requires l < |Exec(n, steps).loops| && Exec(n, steps).loops[l].running.Some?
    ensures Enabled(Exec(n, steps), Delete(l)) <==> !Locked(Exec(n, steps), l)
  {
    ReadyPointersAreLive(n, steps, l, Exec(n, steps).loops[l].running.value);
    hide Exec;
  }

  /** The event can indeed come first: a handler may run on a connection that is not yet in any map. */
  lemma HandlerBeforeInsert() returns (steps: seq<Step>)
    ensures var s := Exec(1, steps);
            |s.loops| == 1 && s.loops[0].running == Some(7) && s.loops[0].connections == map[] && !Enabled(s, Delete(0))
  {
    hide Next;
    hide Exec;
    steps := [Accept(5, 7, 0), Register, Poll(0, [7]), Dispatch(0)];
    ExecFour(1, Accept(5, 7, 0), Register, Poll(0, [7]), Dispatch(0));
    RegisteredEarly();
    DispatchedEarly(Next(Next(Start(1), Accept(5, 7, 0)), Register));
    hide Start;
  }

  lemma RegisteredEarly()
    ensures Next(Next(Start(1), Accept(5, 7, 0)), Register) ==
            State(map[7 := Conn(5, 0)], [Loop(map[], {7}, [], None)], Registered(7, 0))
  {
    var s1 := Next(Start(1), Accept(5, 7, 0));
    assert s1.loops == [Loop(map[], {}, [], None)];
    assert s1 == State(map[7 := Conn(5, 0)], [Loop(map[], {}, [], None)], Accepted(7, 0));
    var loop := Loop(map[], {7}, [], None);
    assert {} + {7} == {7};
    assert s1.loops[0 := loop] == [loop];
  }

  lemma DispatchedEarly(s: State)
    requires s == State(map[7 := Conn(5, 0)], [Loop(map[], {7}, [], None)], Registered(7, 0))
    ensures Next(Next(s, Poll(0, [7])), Dispatch(0)) == s.(loops := [Loop(map[], {7}, [], Some(7))])
  {
    var polled, running := Loop(map[], {7}, [7], None), Loop(map[], {7}, [], Some(7));
    assert Enabled(s, Poll(0, [7]));
    assert s.loops[0 := polled] == [polled];
    assert Next(s, Poll(0, [7])) == s.(loops := [polled]);
    assert [polled][0 := running] == [running] && [7][1..] == [];
  }

  lemma ExecFour(n: nat, a: Step, b: Step, c: Step, d: Step)
    ensures Exec(n, [a, b, c, d]) == Next(Next(Next(Next(Start(n), a), b), c), d)
  {
    hide Next;
    assert [a, b, c, d][..3] == [a, b, c] && [a, b, c][..2] == [a, b] && [a, b][..1] == [a] && [a][..0] == [];
    assert Exec(n, [a]) == Next(Start(n), a);
    assert Exec(n, [a, b]) == Next(Exec(n, [a]), b);
    assert Exec(n, [a, b, c]) == Next(Exec(n, [a, b]), c);
  }
}
