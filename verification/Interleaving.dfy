/**
 * Many connections served at once over one cache. Handlers run in several threads; each call on the
 * cache and each write is one step, and between any two of them every other connection may move.
 */
module Interleaving {
  import opened Options
  import opened Text
  import opened Requests
  import opened Responses
  import opened Connections
  import opened Sites
  import opened Lru
  import opened Handlers

  /**
   * `Missed`: the cache did not have the file of `frame`, which is still to be read and inserted.
   * `Sending`: an answer is on its way out, after which the connection is closed or served on.
   */
  datatype Phase = Idle | Busy | Missed(frame: string) | Sending(close: bool)

  /** A connection is deleted by an answer that closes it, or because its peer has left. */
  datatype Fate = Alive | Closed | Left

  /**
   * `input` is everything received so far, `buf` what no request has been cut from yet, `out` what of
   * an answer the kernel has not taken yet. `broke` tells that a write failed for good.
   */
  datatype Conn = Conn(input: string, buf: string, out: string, sent: string, phase: Phase, fate: Fate, broke: bool)

  datatype State = State(cache: seq<Entry>, conns: map<nat, Conn>)

  /** Bytes that come in with the news that the peer has left are dropped, so `Leave` has none. */
  datatype Step =
    | Accept(c: nat)
    | Receive(c: nat, bytes: string)
    | Leave(c: nat)
    | Take(c: nat, now: nat)
    | Fill(c: nat, now: nat)
    | Write(c: nat, count: nat)
    | Break(c: nat)
    | Purge

  /** The head computed from the file on disk, followed by whatever bytes the cache or the disk gave. */
  function FileText(site: Site, path: string, close: bool, data: string): string {
    HeadText(StatusLine(OK), ResponseHeaders(close, Some(path), site.files)) + data
  }

  function Replied(site: Site, conn: Conn, frame: string, rest: string, text: string): Conn {
    conn.(buf := rest, out := text, phase := Sending(Respond(site, frame).close))
  }

  /** The connection once the answer on its way is out. */
  function Flushed(conn: Conn): Conn {
    if !conn.phase.Sending? then conn
    else if conn.phase.close then conn.(sent := conn.sent + conn.out, out := "", phase := Idle, fate := Closed)
    else conn.(sent := conn.sent + conn.out, out := "", phase := Busy)
  }

  /** The kernel takes up to `count` bytes. */
  function Written(conn: Conn, count: nat): Conn {
    if count < |conn.out| then conn.(sent := conn.sent + conn.out[..count], out := conn.out[count..])
    else Flushed(conn)
  }

  predicate Enabled(s: State, step: Step) {
    match step
    case Accept(c) => c !in s.conns
    case Receive(c, _) => c in s.conns && s.conns[c].phase.Idle? && s.conns[c].fate.Alive?
    case Leave(c) => c in s.conns && s.conns[c].phase.Idle? && s.conns[c].fate.Alive?
    case Take(c, _) => c in s.conns && s.conns[c].phase.Busy?
    case Fill(c, _) => c in s.conns && s.conns[c].phase.Missed?
    case Write(c, _) => c in s.conns && s.conns[c].phase.Sending?
    case Break(c) => c in s.conns && s.conns[c].phase.Sending?
    case Purge => true
  }

  /** One turn of the request loop, up to the first call on the cache that may miss. */
  function TakeOne(site: Site, capacity: nat, s: State, c: nat, now: nat): State
    requires c in s.conns
  {
    var conn := s.conns[c];
    match PopTill(conn.buf, BLANK_LINE)
    case None => s.(conns := s.conns[c := conn.(phase := Idle)])
    case Some((frame, rest)) =>
      match FileAsked(site, frame)
      case None =>
        s.(conns := s.conns[c := Replied(site, conn, frame, rest, ReplyText(Respond(site, frame)))])
      case Some(path) =>
        if Has(s.cache, path) then
          var data := s.cache[IndexOf(s.cache, path)].data;
          var text := FileText(site, path, Respond(site, frame).close, data);
          State(Apply(s.cache, capacity, Load(path, now)), s.conns[c := Replied(site, conn, frame, rest, text)])
        else
          s.(conns := s.conns[c := conn.(buf := rest, phase := Missed(frame))])
  }

  /** The file is read from disk, offered to the cache and sent. */
  function FillOne(site: Site, capacity: nat, s: State, c: nat, now: nat): State
    requires c in s.conns && s.conns[c].phase.Missed?
  {
    var conn := s.conns[c];
    var frame := conn.phase.frame;
    match FileAsked(site, frame)
    case None => s
    case Some(path) =>
      var data := if path in site.files then site.files[path] else "";
      var text := FileText(site, path, Respond(site, frame).close, data);
      State(Apply(s.cache, capacity, Insert(path, data, now)), s.conns[c := Replied(site, conn, frame, conn.buf, text)])
  }

  /** A step that is not enabled changes nothing. */
  function Next(site: Site, capacity: nat, s: State, step: Step): State {
    if !Enabled(s, step) then s
    else match step
      case Accept(c) => s.(conns := s.conns[c := Conn("", "", "", "", Idle, Alive, false)])
      case Receive(c, bytes) =>
        var conn := s.conns[c];
        s.(conns := s.conns[c := conn.(input := conn.input + bytes, buf := conn.buf + bytes, phase := Busy)])
      case Leave(c) => s.(conns := s.conns[c := s.conns[c].(fate := Left)])
      case Take(c, now) => TakeOne(site, capacity, s, c, now)
      case Fill(c, now) => FillOne(site, capacity, s, c, now)
      case Write(c, count) => s.(conns := s.conns[c := Written(s.conns[c], count)])
      case Break(c) => s.(conns := s.conns[c := Flushed(s.conns[c].(out := "", broke := true))])
      case Purge => s.(cache := [])
  }

  /** The state after some steps, in any order, from a server with no connection and an empty cache. */
  function Exec(site: Site, capacity: nat, steps: seq<Step>): State {
    if steps == [] then State([], map[])
    else Next(site, capacity, Exec(site, capacity, steps[..|steps| - 1]), steps[|steps| - 1])
  }

  // ---------------------------------------------------------------- what every step keeps

  /** The bytes received that have not been answered. */
  function Pending(conn: Conn): string {
    if conn.phase.Missed? then conn.phase.frame + conn.buf else conn.buf
  }

  ghost predicate PhaseOk(site: Site, conn: Conn) {
    match conn.phase
    case Idle => PopTill(conn.buf, BLANK_LINE).None?
    case Busy => true
    case Missed(frame) => FileAsked(site, frame).Some? && PopTill(frame + conn.buf, BLANK_LINE) == Some((frame, conn.buf))
    case Sending(_) => false
  }

  /** What has been sent, with what serving the pending bytes would add, is what the input calls for. */
  ghost predicate Owes(site: Site, conn: Conn, pending: string) {
    var all, more := Serve(site, conn.input), Serve(site, pending);
    && all.closed == more.closed && all.rest == more.rest
    && (!conn.broke ==> conn.sent + Output(more.replies) == Output(all.replies))
  }

  /** A connection with no answer on its way. */
  ghost predicate Steady(site: Site, conn: Conn) {
    if conn.fate.Closed? then
      && Serve(site, conn.input).closed
      && (!conn.broke ==> conn.sent == Output(Serve(site, conn.input).replies))
    else PhaseOk(site, conn) && Owes(site, conn, Pending(conn))
  }

  ghost predicate ConnOk(site: Site, conn: Conn) {
    Steady(site, Flushed(conn))
  }

  ghost predicate Inv(site: Site, s: State) {
    Faithful(s.cache, site.files) && forall c :: c in s.conns ==> ConnOk(site, s.conns[c])
  }

  /** Answering the first pending request settles that part of the debt. */
  lemma ReplySettles(site: Site, conn: Conn, pending: string, frame: string, rest: string)
    requires Owes(site, conn, pending) && PopTill(pending, BLANK_LINE) == Some((frame, rest))
    requires !conn.fate.Closed?
    ensures ConnOk(site, Replied(site, conn, frame, rest, ReplyText(Respond(site, frame))))
  {
    hide Respond;
    hide ReplyText;
    var reply := Respond(site, frame);
    assert [reply][1..] == [] && Output([reply]) == ReplyText(reply) + "" == ReplyText(reply);
    if !reply.close {
      var more := Serve(site, rest);
      OutputConcat([reply], more.replies);
      Regroup(conn.sent, ReplyText(reply), Output(more.replies));
    }
  }

  /** A file's own bytes make the answer that reading the file would have made. */
  lemma FileTextIsReply(site: Site, frame: string)
    requires FileAsked(site, frame).Some?
    ensures var path := FileAsked(site, frame).value;
            path in site.files &&
            FileText(site, path, Respond(site, frame).close, site.files[path]) == ReplyText(Respond(site, frame))
  {
    hide RequestOf;
  }

  lemma ReceiveKeeps(site: Site, conn: Conn, bytes: string)
    requires ConnOk(site, conn) && conn.phase.Idle? && conn.fate.Alive?
    ensures ConnOk(site, conn.(input := conn.input + bytes, buf := conn.buf + bytes, phase := Busy))
  {
    var sent := Output(Serve(site, conn.input).replies);
    assert conn.sent + "" == conn.sent && "" + sent == sent;
    OneMoreRound(site, conn.input, bytes, "", sent, conn.buf);
    hide Serve;
    assert forall rs :: "" + Output(rs) == Output(rs);
  }

  lemma TakeKeeps(site: Site, capacity: nat, s: State, c: nat, now: nat)
    requires Inv(site, s) && c in s.conns && s.conns[c].phase.Busy? && s.conns[c].fate.Alive?
    ensures Inv(site, TakeOne(site, capacity, s, c, now))
  {
    hide Respond;
    hide Serve;
    hide FileAsked;
    hide FileText;
    hide ReplyText;
    var conn := s.conns[c];
    match PopTill(conn.buf, BLANK_LINE)
    case None =>
    case Some((frame, rest)) =>
      ReplySettles(site, conn, conn.buf, frame, rest);
      PopTillAppend(conn.buf, "", BLANK_LINE);
      match FileAsked(site, frame)
      case None =>
      case Some(path) =>
        FileTextIsReply(site, frame);
        CallKeepsFaithful(s.cache, capacity, Load(path, now), site.files);
  }

  lemma FillKeeps(site: Site, capacity: nat, s: State, c: nat, now: nat)
    requires Inv(site, s) && c in s.conns && s.conns[c].phase.Missed? && s.conns[c].fate.Alive?
    ensures Inv(site, FillOne(site, capacity, s, c, now))
  {
    hide Respond;
    hide Serve;
    hide FileAsked;
    hide FileText;
    hide ReplyText;
    var conn := s.conns[c];
    var frame := conn.phase.frame;
    ReplySettles(site, conn, frame + conn.buf, frame, conn.buf);
    FileTextIsReply(site, frame);
    var path := FileAsked(site, frame).value;
    CallKeepsFaithful(s.cache, capacity, Insert(path, site.files[path], now), site.files);
  }

  /** A deleted connection is never busy again. */
  ghost predicate DeletedIdle(s: State) {
    forall c :: c in s.conns && !s.conns[c].fate.Alive? ==> s.conns[c].phase.Idle?
  }

  lemma NextKeepsDeletedIdle(site: Site, capacity: nat, s: State, step: Step)
    requires DeletedIdle(s)
    ensures DeletedIdle(Next(site, capacity, s, step))
  {
    hide Respond;
    hide FileAsked;
    hide FileText;
    hide ReplyText;
    hide Apply;
    hide PopTill;
  }

  lemma NextKeeps(site: Site, capacity: nat, s: State, step: Step)
    requires Inv(site, s) && DeletedIdle(s)
    ensures Inv(site, Next(site, capacity, s, step)) && DeletedIdle(Next(site, capacity, s, step))
  {
    NextKeepsDeletedIdle(site, capacity, s, step);
    hide ConnOk;
    hide TakeOne;
    hide FillOne;
    if Enabled(s, step) {
      match step
      case Accept(c) =>
        AcceptOk(site);
      case Receive(c, bytes) =>
        ReceiveKeeps(site, s.conns[c], bytes);
      case Leave(c) =>
        LeaveKeeps(site, s.conns[c]);
      case Take(c, now) =>
        TakeKeeps(site, capacity, s, c, now);
      case Fill(c, now) =>
        FillKeeps(site, capacity, s, c, now);
      case Write(c, count) =>
        WriteKeeps(site, s.conns[c], count);
      case Break(c) =>
        BreakKeeps(site, s.conns[c]);
      case Purge =>
    }
  }

  lemma AcceptOk(site: Site)
    ensures ConnOk(site, Conn("", "", "", "", Idle, Alive, false))
  {
  }

  lemma LeaveKeeps(site: Site, conn: Conn)
    requires ConnOk(site, conn) && conn.phase.Idle? && conn.fate.Alive?
    ensures ConnOk(site, conn.(fate := Left))
  {
    hide Serve;
    hide PopTill;
  }

  lemma WriteKeeps(site: Site, conn: Conn, count: nat)
    requires ConnOk(site, conn) && conn.phase.Sending?
    ensures ConnOk(site, Written(conn, count))
  {
    hide Steady;
    if count < |conn.out| {
      assert conn.sent + conn.out[..count] + conn.out[count..] == conn.sent + conn.out;
      assert Flushed(Written(conn, count)) == Flushed(conn);
    }
  }

  lemma BreakKeeps(site: Site, conn: Conn)
    requires ConnOk(site, conn) && conn.phase.Sending?
    ensures ConnOk(site, Flushed(conn.(out := "", broke := true)))
  {
    hide Serve;
  }

  lemma {:induction false} ExecKeeps(site: Site, capacity: nat, steps: seq<Step>)
    ensures Inv(site, Exec(site, capacity, steps)) && DeletedIdle(Exec(site, capacity, steps))
    decreases |steps|
  {
    if steps != [] {
      ExecKeeps(site, capacity, steps[..|steps| - 1]);
      NextKeeps(site, capacity, Exec(site, capacity, steps[..|steps| - 1]), steps[|steps| - 1]);
    }
  }

  /**
   * In every interleaving of the connections' steps over the shared cache, however short the writes
   * come up and whoever leaves: while no write of it failed for good, a connection has been sent a
   * prefix of what a server without a cache sends for the same input, and all of it once it is idle or
   * deleted; and an answer has closed it exactly when that server would have closed it.
   */
  lemma CacheIsInvisible(site: Site, capacity: nat, steps: seq<Step>, c: nat)
    requires c in Exec(site, capacity, steps).conns
    ensures var conn := Exec(site, capacity, steps).conns[c];
            var plain := Serve(site, conn.input);
            && (!conn.broke ==> conn.sent <= Output(plain.replies))
            && (conn.phase.Idle? || !conn.fate.Alive? ==>
                  && (!conn.broke ==> conn.sent == Output(plain.replies))
                  && (conn.fate.Closed? <==> plain.closed))
  {
    ExecKeeps(site, capacity, steps);
    var conn := Exec(site, capacity, steps).conns[c];
    assert ConnOk(site, conn);
    hide Exec;
    SteadyIsPrefix(site, conn);
  }

  lemma SteadyIsPrefix(site: Site, conn: Conn)
    requires ConnOk(site, conn)
    ensures var plain := Serve(site, conn.input);
            && (!conn.broke ==> conn.sent <= Output(plain.replies))
            && (conn.phase.Idle? ==>
                  (!conn.broke ==> conn.sent == Output(plain.replies)) && (conn.fate.Closed? <==> plain.closed))
  {
    if conn.phase.Idle? && !conn.fate.Closed? {
      NothingOwed(site, conn);
    }
    hide Serve;
    hide PhaseOk;
    hide Pending;
  }

  lemma NothingOwed(site: Site, conn: Conn)
    requires ConnOk(site, conn) && conn.phase.Idle? && !conn.fate.Closed?
    ensures !Serve(site, conn.input).closed && (!conn.broke ==> conn.sent == Output(Serve(site, conn.input).replies))
  {
    hide Respond;
    hide FileAsked;
    assert Serve(site, conn.buf) == Served([], conn.buf, false);
    hide Serve;
    assert conn.sent + "" == conn.sent;
  }

  // ---------------------------------------------------------------- nothing is left undone

  /** The step that brings a connection with work to do nearer to its end. */
  function Onward(conn: Conn, c: nat): Step {
    match conn.phase
    case Sending(_) => Write(c, |conn.out|)
    case Missed(_) => Fill(c, 0)
    case _ => Take(c, 0)
  }

  function Rank(phase: Phase): nat {
    match phase
    case Idle => 0
    case Busy => 1
    case Sending(_) => 2
    case Missed(_) => 3
  }

  ghost predicate Nearer(s: State, s': State, c: nat)
    requires c in s.conns
  {
    && c in s'.conns && s'.conns[c].input == s.conns[c].input
    && (|s'.conns[c].buf| < |s.conns[c].buf| ||
        (|s'.conns[c].buf| == |s.conns[c].buf| && Rank(s'.conns[c].phase) < Rank(s.conns[c].phase)))
  }

  lemma OnwardIsNearer(site: Site, capacity: nat, s: State, c: nat)
    requires Inv(site, s) && DeletedIdle(s) && c in s.conns && !s.conns[c].phase.Idle?
    ensures Nearer(s, Next(site, capacity, s, Onward(s.conns[c], c)), c)
  {
    hide Respond;
    hide FileText;
    hide ReplyText;
    hide Apply;
    hide Serve;
    hide FileAsked;
    assert ConnOk(site, s.conns[c]);
    hide PopTill;
  }

  /**
   * From every reachable state every connection can be driven to the end of its work by its own steps,
   * and has then been sent all that is due for what it has received.
   */
  lemma CanFinish(site: Site, capacity: nat, steps: seq<Step>, c: nat) returns (more: seq<Step>)
    requires c in Exec(site, capacity, steps).conns
    ensures var s, s' := Exec(site, capacity, steps), Exec(site, capacity, steps + more);
            && c in s'.conns && s'.conns[c].phase.Idle? && s'.conns[c].input == s.conns[c].input
            && (!s'.conns[c].broke ==> s'.conns[c].sent == Output(Serve(site, s.conns[c].input).replies))
  {
    more := CanSettle(site, capacity, steps, c);
    CacheIsInvisible(site, capacity, steps + more, c);
  }

  lemma {:induction false} CanSettle(site: Site, capacity: nat, steps: seq<Step>, c: nat) returns (more: seq<Step>)
    requires c in Exec(site, capacity, steps).conns
    ensures var s, s' := Exec(site, capacity, steps), Exec(site, capacity, steps + more);
            c in s'.conns && s'.conns[c].phase.Idle? && s'.conns[c].input == s.conns[c].input
    decreases |Exec(site, capacity, steps).conns[c].buf|, Rank(Exec(site, capacity, steps).conns[c].phase)
  {
    hide Next;
    var s := Exec(site, capacity, steps);
    if s.conns[c].phase.Idle? {
      more := [];
      assert steps + more == steps;
    } else {
      var step := Onward(s.conns[c], c);
      ExecKeeps(site, capacity, steps);
      OnwardIsNearer(site, capacity, s, c);
      ExecSnoc(site, capacity, steps, step);
      hide Exec;
      more := CanSettle(site, capacity, steps + [step], c);
      Regroup(steps, [step], more);
      more := [step] + more;
    }
  }

  lemma ExecSnoc(site: Site, capacity: nat, steps: seq<Step>, step: Step)
    ensures Exec(site, capacity, steps + [step]) == Next(site, capacity, Exec(site, capacity, steps), step)
  {
    hide Next;
    assert (steps + [step])[..|steps|] == steps;
  }

  /**
   * At any time a new connection can be accepted, send any input, and be served all of it, whatever the
   * others are doing.
   */
  lemma NewcomerIsServed(site: Site, capacity: nat, steps: seq<Step>, c: nat, input: string) returns (more: seq<Step>)
    requires c !in Exec(site, capacity, steps).conns
    ensures var s := Exec(site, capacity, steps + more);
            && c in s.conns && s.conns[c].phase.Idle? && s.conns[c].input == input
            && (!s.conns[c].broke ==> s.conns[c].sent == Output(Serve(site, input).replies))
            && (s.conns[c].fate.Closed? <==> Serve(site, input).closed)
  {
    var one, two := steps + [Accept(c)], steps + [Accept(c)] + [Receive(c, input)];
    ExecSnoc(site, capacity, steps, Accept(c));
    ExecSnoc(site, capacity, one, Receive(c, input));
    assert "" + input == input;
    assert c in Exec(site, capacity, two).conns && Exec(site, capacity, two).conns[c].input == input;
    hide Exec;
    hide Serve;
    hide Output;
    var rest := CanFinish(site, capacity, two, c);
    CacheIsInvisible(site, capacity, two + rest, c);
    more := [Accept(c)] + [Receive(c, input)] + rest;
    Regroup(steps, [Accept(c)], [Receive(c, input)]);
    Regroup(steps, [Accept(c)] + [Receive(c, input)], rest);
  }

  // ---------------------------------------------------------------- the cache in use

  lemma {:induction false} RunSnoc(capacity: nat, calls: seq<Call>, call: Call)
    ensures Run(capacity, calls + [call]) == Apply(Run(capacity, calls), capacity, call)
  {
    assert (calls + [call])[..|calls|] == calls;
  }

  lemma CacheMoves(site: Site, capacity: nat, s: State, step: Step)
    ensures var s' := Next(site, capacity, s, step);
            s'.cache == s.cache || exists call :: s'.cache == Apply(s.cache, capacity, call)
  {
    hide Respond;
    hide FileText;
    hide ReplyText;
    hide PopTill;
    hide FileAsked;
    hide Flushed;
    hide Written;
    if step.Purge? {
      assert Next(site, capacity, s, step).cache == Apply(s.cache, capacity, Clear);
    }
  }

  /** The shared cache is at all times what some run of calls, one at a time, makes of an empty one. */
  lemma {:induction false} CacheIsRun(site: Site, capacity: nat, steps: seq<Step>) returns (calls: seq<Call>)
    ensures Exec(site, capacity, steps).cache == Run(capacity, calls)
    decreases |steps|
  {
    if steps == [] {
      calls := [];
    } else {
      var init, step := steps[..|steps| - 1], steps[|steps| - 1];
      calls := CacheIsRun(site, capacity, init);
      var s := Exec(site, capacity, init);
      CacheMoves(site, capacity, s, step);
      hide Next;
      hide Apply;
      if Exec(site, capacity, steps).cache != s.cache {
        var call :| Exec(site, capacity, steps).cache == Apply(s.cache, capacity, call);
        RunSnoc(capacity, calls, call);
        calls := calls + [call];
      }
    }
  }

  /** A file that is cached is answered from the cache. */
  lemma HitIsTaken(site: Site, capacity: nat, s: State, c: nat, now: nat, frame: string, rest: string)
    requires Inv(site, s) && c in s.conns && s.conns[c].phase.Busy?
    requires PopTill(s.conns[c].buf, BLANK_LINE) == Some((frame, rest)) && FileAsked(site, frame).Some?
    requires Has(s.cache, FileAsked(site, frame).value)
    ensures TakeOne(site, capacity, s, c, now) ==
            State(Remembered(site, s.cache, capacity, frame, now),
                  s.conns[c := Replied(site, s.conns[c], frame, rest, ReplyText(Respond(site, frame)))])
  {
    FileTextIsReply(site, frame);
    hide Respond;
    hide FileText;
    hide ReplyText;
    hide PopTill;
    hide FileAsked;
    hide Apply;
  }

  /** One that is not is read, offered to the cache and sent. */
  lemma MissIsFilled(site: Site, capacity: nat, s: State, c: nat, now: nat, frame: string, rest: string)
    requires Inv(site, s) && c in s.conns && s.conns[c].phase.Busy?
    requires PopTill(s.conns[c].buf, BLANK_LINE) == Some((frame, rest)) && FileAsked(site, frame).Some?
    requires !Has(s.cache, FileAsked(site, frame).value)
    ensures var taken := TakeOne(site, capacity, s, c, now);
            && taken == s.(conns := s.conns[c := s.conns[c].(buf := rest, phase := Missed(frame))])
            && var done := FillOne(site, capacity, taken, c, now);
               && done.cache == Remembered(site, s.cache, capacity, frame, now)
               && done.conns[c].out == ReplyText(Respond(site, frame)) && done.conns[c].buf == rest
               && done.conns[c].phase == Sending(Respond(site, frame).close)
  {
    FileTextIsReply(site, frame);
    hide Respond;
    hide FileText;
    hide ReplyText;
    hide PopTill;
    hide FileAsked;
    hide Apply;
  }

  /** The connection is about to answer `frame`, which asks for the file at `path`. */
  ghost predicate AboutToAnswer(site: Site, s: State, c: nat, frame: string, rest: string, path: string) {
    && c in s.conns && s.conns[c].phase.Busy? && PopTill(s.conns[c].buf, BLANK_LINE) == Some((frame, rest))
    && FileAsked(site, frame) == Some(path)
  }

  /** It has the answer ready to send. */
  ghost predicate AnswerReady(site: Site, s: State, c: nat, frame: string, rest: string) {
    && c in s.conns && s.conns[c].phase == Sending(Respond(site, frame).close)
    && s.conns[c].out == ReplyText(Respond(site, frame)) && s.conns[c].buf == rest
  }

  /** In every run a file that is cached is answered from the cache, whose most recent entry it becomes. */
  lemma CachedIsNotReread(site: Site, capacity: nat, steps: seq<Step>, c: nat, now: nat, frame: string, rest: string, path: string)
    requires AboutToAnswer(site, Exec(site, capacity, steps), c, frame, rest, path)
    requires exists e :: e in Exec(site, capacity, steps).cache && e.id == path
    ensures var s' := Next(site, capacity, Exec(site, capacity, steps), Take(c, now));
            && AnswerReady(site, s', c, frame, rest)
            && s'.cache != [] && s'.cache[|s'.cache| - 1] == Entry(path, site.files[path], now)
  {
    ExecKeeps(site, capacity, steps);
    hide Exec;
    hide Respond;
    hide ReplyText;
    hide PopTill;
    hide FileAsked;
    var s := Exec(site, capacity, steps);
    assert Has(s.cache, path);
    HitIsTaken(site, capacity, s, c, now, frame, rest);
    AskedIsMostRecent(site, s.cache, capacity, frame, now);
    hide TakeOne;
    hide Remembered;
  }

  /** One that is not is read from disk, and is the most recent entry then if it fits at all. */
  lemma MissedIsCached(site: Site, capacity: nat, steps: seq<Step>, c: nat, now: nat, frame: string, rest: string, path: string)
    requires AboutToAnswer(site, Exec(site, capacity, steps), c, frame, rest, path)
    requires forall e :: e in Exec(site, capacity, steps).cache ==> e.id != path
    ensures var s := Exec(site, capacity, steps);
            var s' := Next(site, capacity, Next(site, capacity, s, Take(c, now)), Fill(c, now));
            && AnswerReady(site, s', c, frame, rest)
            && if |site.files[path]| > capacity then s'.cache == s.cache
               else s'.cache != [] && s'.cache[|s'.cache| - 1] == Entry(path, site.files[path], now)
  {
    ExecKeeps(site, capacity, steps);
    hide Exec;
    hide Respond;
    hide ReplyText;
    hide PopTill;
    hide FileAsked;
    var s := Exec(site, capacity, steps);
    assert !Has(s.cache, path);
    MissIsFilled(site, capacity, s, c, now, frame, rest);
    AskedIsMostRecent(site, s.cache, capacity, frame, now);
    hide TakeOne;
    hide FillOne;
    hide Remembered;
  }
}
