/** The request handler over the cache and a connection (examples/http_server/http_server.cpp). */
module Handlers {
  import opened Options
  import opened Text
  import opened Requests
  import opened Responses
  import opened Connections
  import opened Sites
  import opened Lru
  import opened Caches
  import Url

  /** Every cache entry holds exactly the bytes of the file it is named after. */
  ghost predicate Faithful(es: seq<Entry>, files: Files) {
    forall i :: 0 <= i < |es| ==> es[i].id in files && es[i].data == files[es[i].id]
  }

  /** Loads, insertions of a file's own bytes and clearing all keep the cache faithful. */
  lemma CallKeepsFaithful(es: seq<Entry>, capacity: nat, c: Call, files: Files)
    requires Faithful(es, files)
    requires c.Insert? ==> c.id in files && c.data == files[c.id]
    ensures Faithful(Apply(es, capacity, c), files)
  {
    if c.Insert? && Accepts(es, capacity, c.id, c.data) {
      var k := EvictsShortestRun(es, capacity, |c.data|);
    }
  }

  /** The cache after a file was asked for: loaded from it, or read from disk and offered to it. */
  function Recalled(es: seq<Entry>, capacity: nat, path: string, data: string, now: nat): seq<Entry> {
    Apply(es, capacity, if Has(es, path) then Load(path, now) else Insert(path, data, now))
  }

  /** The cache after the request of `frame` has been answered. */
  function Remembered(site: Site, es: seq<Entry>, capacity: nat, frame: string, now: nat): seq<Entry> {
    match FileAsked(site, frame)
    case None => es
    case Some(path) => Recalled(es, capacity, path, site.files[path], now)
  }

  /** Whatever was cached before, the file a GET has been answered with is now the most recent entry, if it fits at all. */
  lemma AskedIsMostRecent(site: Site, es: seq<Entry>, capacity: nat, frame: string, now: nat)
    requires Faithful(es, site.files) && FileAsked(site, frame).Some?
    ensures var path, es' := FileAsked(site, frame).value, Remembered(site, es, capacity, frame, now);
            if Has(es, path) || |site.files[path]| <= capacity then
              es' != [] && es'[|es'| - 1] == Entry(path, site.files[path], now)
            else es' == es
  {
    hide FileAsked;
  }

  /** `Stalled`: the kernel results given ran out inside a write. */
  datatype Status = Open | Deleted | Stalled

  class HttpServer {
    const site: Site
    const cache: Cache

    constructor (s: Site, c: Cache)
      ensures site == s && cache == c
    {
      site, cache := s, c;
    }

    ghost predicate Valid()
      reads cache, cache.chain
    {
      cache.Valid() && Faithful(cache.entries, site.files)
    }

    /** The body of a GET on a file: from the cache if it is there, else from disk and into the cache. */
    method FileBody(path: string, now: nat) returns (body: string)
      requires Valid() && path in site.files
      modifies cache, cache.chain
      ensures Valid() && body == site.files[path]
      ensures cache.entries == Recalled(old(cache.entries), cache.capacity, path, site.files[path], now)
      ensures forall i :: 0 <= i < |cache.chain| ==> cache.chain[i] in old(cache.chain) || fresh(cache.chain[i])
    {
      CallKeepsFaithful(cache.entries, cache.capacity, Load(path, now), site.files);
      var cached, loaded := cache.TryLoad(path, "", now);
      body := loaded;
      if !cached {
        body := body + site.files[path];
        CallKeepsFaithful(cache.entries, cache.capacity, Insert(path, body, now), site.files);
        var inserted := cache.TryInsert(path, body, now);
      }
    }

    method ReadRequest(frame: string) returns (parsed: Parsed<Request>, path: string)
      ensures parsed == RequestOf(frame)
      ensures parsed.Good? ==> path == PathOf(site, parsed.value)
    {
      var parser := new RequestParser(frame);
      parsed, path := parser.View(), "";
      if parsed.Good? {
        var decoded := Url.UrlDecode(parsed.value.line.target);
        path := site.dir + decoded;
      }
    }

    method FileHead(path: string, shouldClose: bool) returns (head: string)
      ensures head == HeadText(StatusLine(OK), ResponseHeaders(shouldClose, Some(path), site.files))
    {
      var response := new Response(OK, shouldClose, Some(path), site.files);
      head := response.Serialize("");
      assert "" + head == head;
    }

    method AnswerFile(path: string, withBody: bool, shouldClose: bool, now: nat) returns (bytes: string)
      requires Valid() && path in site.files
      modifies cache, cache.chain
      ensures Valid() && bytes == ReplyText(FileReply(path, site.files, withBody, shouldClose))
      ensures cache.entries == if withBody then Recalled(old(cache.entries), cache.capacity, path, site.files[path], now)
                               else old(cache.entries)
      ensures forall i :: 0 <= i < |cache.chain| ==> cache.chain[i] in old(cache.chain) || fresh(cache.chain[i])
    {
      bytes := FileHead(path, shouldClose);
      var body := "";
      if withBody {
        body := FileBody(path, now);
      }
      bytes := bytes + body;
    }

    /** The bytes queued for one request, and whether the connection then closes. */
    method Answer(frame: string, now: nat) returns (bytes: string, close: bool)
      requires Valid()
      modifies cache, cache.chain
      ensures Valid()
      ensures bytes == ReplyText(Respond(site, frame)) && close == Respond(site, frame).close
      ensures cache.entries == Remembered(site, old(cache.entries), cache.capacity, frame, now)
      ensures forall i :: 0 <= i < |cache.chain| ==> cache.chain[i] in old(cache.chain) || fresh(cache.chain[i])
    {
      hide RequestOf;
      hide ReplyText;
      var parsed, path := ReadRequest(frame);
      if parsed.Bad? {
        bytes := Refuse(BAD_REQUEST);
        return bytes, true;
      }
      var request := parsed.value;
      close := request.shouldClose;
      if IsCgi(path) {
        bytes, close := AnswerCgi(path, request.shouldClose);
      } else if path !in site.files {
        bytes := Refuse(NOT_FOUND);
        close := true;
      } else {
        bytes := AnswerFile(path, request.line.method_.GET?, request.shouldClose, now);
      }
    }

    method Refuse(status: string) returns (bytes: string)
      ensures bytes == ReplyText(Refusal(status))
    {
      var response := new Response(status, true, None, map[]);
      bytes := response.Serialize("");
      assert bytes == bytes + "";
    }

    method AnswerCgi(path: string, shouldClose: bool) returns (bytes: string, close: bool)
      requires IsCgi(path)
      ensures var cgier := ParseCgi(path);
              var reply := if cgier.path !in site.files then Refusal(NOT_FOUND)
                           else CgiReply(site.cgi(cgier.path, cgier.arguments), shouldClose);
              cgier.valid && bytes == ReplyText(reply) && close == reply.close
    {
      hide ParseCgi;
      hide Decimal;
      hide ResponseHeaders;
      hide Changed;
      hide HeadText;
      hide StatusLine;
      var cgier := ParseCgi(path);
      CgiAlwaysParses(path);
      if cgier.path !in site.files {
        bytes := Refuse(NOT_FOUND);
        return bytes, true;
      }
      var output := site.cgi(cgier.path, cgier.arguments);
      var response := new Response(OK, shouldClose, None, map[]);
      var changed := response.ChangeHeader(CONTENT_LENGTH, Decimal(|output|));
      bytes := response.Serialize("");
      assert "" + HeadText(response.statusLine, response.headers) == HeadText(response.statusLine, response.headers);
      bytes := bytes + output;
      close := shouldClose;
    }

    /** Answers one request and pushes the answer out. */
    method ServeOne(conn: Connection, frame: string, sends: seq<SendResult>, now: nat)
      returns (close: bool, outcome: SendOutcome, used: nat)
      requires Valid() && conn.Valid() && conn.writeBuf.buf == ""
      modifies cache, cache.chain, conn`sent, conn.writeBuf
      ensures Valid()
      ensures forall i :: 0 <= i < |cache.chain| ==> cache.chain[i] in old(cache.chain) || fresh(cache.chain[i])
      ensures cache.entries == Remembered(site, old(cache.entries), cache.capacity, frame, now)
      ensures close == Respond(site, frame).close && used <= |sends|
      ensures var p := Push(ReplyText(Respond(site, frame)), sends);
              conn.sent == old(conn.sent) + p.sent && sends[used..] == p.left && outcome == p.outcome
      ensures !outcome.Waiting? ==> conn.writeBuf.buf == ""
    {
      hide Valid;
      hide Respond;
      hide ReplyText;
      hide Push;
      hide Remembered;
      var bytes;
      bytes, close := Answer(frame, now);
      conn.writeBuf.Append(bytes);
      assert "" + bytes == bytes;
      outcome, used := conn.Send(sends);
    }

    /** The request loop: pop a request, answer it, push the answer out, until one closes. */
    method ServeBuffered(conn: Connection, sends: seq<SendResult>, clock: nat -> nat)
      returns (status: Status, broke: bool)
      requires Valid() && conn.Valid() && conn.writeBuf.buf == ""
      modifies cache, cache.chain, conn`sent, conn.readBuf, conn.writeBuf
      ensures Valid()
      ensures forall i :: 0 <= i < |cache.chain| ==> cache.chain[i] in old(cache.chain) || fresh(cache.chain[i])
      ensures var a := AfterCall(site, old(conn.readBuf.buf), sends, old(conn.sent), false);
              conn.sent == a.sent && status == a.status && broke == a.broke
      ensures !status.Stalled? ==>
                conn.writeBuf.buf == "" && conn.readBuf.buf == AfterCall(site, old(conn.readBuf.buf), sends, "", false).unread
    {
      hide Valid;
      hide Respond;
      hide AfterCall;
      hide Push;
      hide ReplyText;
      broke := false;
      ghost var pending := conn.readBuf.buf;
      ghost var all := AfterCall(site, pending, sends, conn.sent, false);
      UnreadAnyway(site, pending, sends, conn.sent);
      var left, turn := sends, 0;
      var noMoreParse := false;
      var requestOp := conn.readBuf.FindAndPopTill(BLANK_LINE);
      while requestOp.Some?
        invariant Valid() && conn.writeBuf.buf == "" && !noMoreParse
        invariant forall i :: 0 <= i < |cache.chain| ==> cache.chain[i] in old(cache.chain) || fresh(cache.chain[i])
        invariant Popped(pending, requestOp, conn.readBuf.buf)
        invariant AfterCall(site, pending, left, conn.sent, broke) == all
        decreases |pending|
      {
        AfterOne(site, pending, left, conn.sent, broke);
        var close, outcome, used := ServeOne(conn, requestOp.value, left, clock(turn));
        left, turn := left[used..], turn + 1;
        if outcome.Waiting? {
          return Stalled, broke;
        }
        broke := broke || outcome.Broken?;
        if close {
          noMoreParse := true;
          break;
        }
        pending := conn.readBuf.buf;
        requestOp := conn.readBuf.FindAndPopTill(BLANK_LINE);
      }
      if noMoreParse {
        return Deleted, broke;
      }
      AfterNone(site, pending, left, conn.sent, broke);
      return Open, broke;
    }

    /**
     * One call of the handler. `recvs` and `sends` are the results the kernel gives; `broke` tells
     * that a write failed for good, after which the rest of that answer is lost.
     */
    method ProcessHttpRequest(conn: Connection, recvs: seq<RecvResult>, sends: seq<SendResult>, clock: nat -> nat)
      returns (status: Status, broke: bool)
      requires Valid() && conn.Valid() && conn.writeBuf.buf == ""
      modifies cache, cache.chain, conn`sent, conn.readBuf, conn.writeBuf
      ensures Valid()
      ensures forall i :: 0 <= i < |cache.chain| ==> cache.chain[i] in old(cache.chain) || fresh(cache.chain[i])
      ensures PeerGone(recvs) ==> status.Deleted? && !broke && conn.sent == old(conn.sent)
      ensures !PeerGone(recvs) ==>
                var a := AfterCall(site, old(conn.readBuf.buf) + BytesRead(recvs), sends, old(conn.sent), false);
                && conn.sent == a.sent && status == a.status && broke == a.broke
                && (!status.Stalled? ==> conn.writeBuf.buf == "" && conn.readBuf.buf == a.unread)
    {
      var read, exit := conn.Recv(recvs);
      if exit {
        return Deleted, false;
      }
      UnreadAnyway(site, conn.readBuf.buf, sends, conn.sent);
      hide AfterCall;
      status, broke := ServeBuffered(conn, sends, clock);
    }

    /**
     * Every call of the handler on one connection, until it is deleted or a write is stalled. A write
     * that failed for good does not end it: later requests are still answered.
     */
    method HandleRounds(conn: Connection, rounds: seq<Round>, clock: nat -> nat) returns (status: Status, broke: bool)
      requires Valid() && conn.Valid() && conn.writeBuf.buf == ""
      modifies cache, cache.chain, conn`sent, conn.readBuf, conn.writeBuf
      ensures Valid()
      ensures var a := AfterRounds(site, old(conn.readBuf.buf), old(conn.sent), false, rounds);
              conn.sent == a.sent && status == a.status && broke == a.broke
      ensures old(conn.readBuf.buf) == "" ==> Handled(site, rounds, old(conn.sent), conn.sent, status, broke)
    {
      hide Valid;
      hide AfterCall;
      hide Handled;
      status, broke := Open, false;
      ghost var all := AfterRounds(site, conn.readBuf.buf, conn.sent, false, rounds);
      if conn.readBuf.buf == "" {
        RoundsServeAll(site, conn.sent, rounds);
      }
      assert rounds[0..] == rounds;
      var i := 0;
      while i < |rounds|
        invariant i <= |rounds| && status.Open? && Valid() && conn.writeBuf.buf == ""
        invariant forall j :: 0 <= j < |cache.chain| ==> cache.chain[j] in old(cache.chain) || fresh(cache.chain[j])
        invariant AfterRounds(site, conn.readBuf.buf, conn.sent, broke, rounds[i..]) == all
      {
        ghost var sentBefore, bufBefore := conn.sent, conn.readBuf.buf;
        var brokeNow;
        status, brokeNow := ProcessHttpRequest(conn, rounds[i].recvs, rounds[i].sends, clock);
        assert rounds[i..][1..] == rounds[i + 1..];
        BrokeBefore(site, bufBefore + BytesRead(rounds[i].recvs), rounds[i].sends, sentBefore, broke);
        broke := broke || brokeNow;
        if !status.Open? {
          return;
        }
        i := i + 1;
      }
    }
  }

  /** One readiness event: what the kernel returns to the reads and to the writes it causes. */
  datatype Round = Round(recvs: seq<RecvResult>, sends: seq<SendResult>)

  function AllBytes(rounds: seq<Round>): string {
    if rounds == [] then "" else BytesRead(rounds[0].recvs) + AllBytes(rounds[1..])
  }

  /** The events before the first that finds the peer gone. */
  function Heard(rounds: seq<Round>): seq<Round> {
    if rounds == [] || PeerGone(rounds[0].recvs) then [] else [rounds[0]] + Heard(rounds[1..])
  }

  lemma {:induction false} HeardIsPrefix(rounds: seq<Round>)
    ensures Heard(rounds) <= rounds
    ensures forall r :: r in Heard(rounds) ==> !PeerGone(r.recvs)
    ensures |Heard(rounds)| < |rounds| ==> PeerGone(rounds[|Heard(rounds)|].recvs)
  {
    if rounds != [] && !PeerGone(rounds[0].recvs) {
      HeardIsPrefix(rounds[1..]);
    }
  }

  /** The bytes taken off the socket by the event that finds the peer gone, if there is one. */
  function LastBytes(rounds: seq<Round>): string {
    HeardIsPrefix(rounds);
    if |Heard(rounds)| < |rounds| then BytesRead(rounds[|Heard(rounds)|].recvs) else ""
  }

  /** All the bytes taken off the socket. */
  function AllTaken(rounds: seq<Round>): string {
    AllBytes(Heard(rounds)) + LastBytes(rounds)
  }

  /** No complete request came in with the news that the peer is gone, or the connection was closed before. */
  predicate NoneDropped(site: Site, rounds: seq<Round>) {
    var heard := Serve(site, AllBytes(Heard(rounds)));
    heard.closed || Find(heard.rest + LastBytes(rounds), BLANK_LINE, 0).None?
  }

  /** What is heard before the peer goes calls for the same bytes as all that is taken, exactly then. */
  lemma DroppedExactly(site: Site, rounds: seq<Round>)
    ensures Output(Serve(site, AllTaken(rounds)).replies) == Output(Serve(site, AllBytes(Heard(rounds))).replies) <==>
            NoneDropped(site, rounds)
  {
    hide Respond;
    var heard, last := Serve(site, AllBytes(Heard(rounds))), LastBytes(rounds);
    ServeInPieces(site, AllBytes(Heard(rounds)), last);
    if !heard.closed {
      var more := Serve(site, heard.rest + last);
      OutputConcat(heard.replies, more.replies);
      assert more.replies == [] <==> Find(heard.rest + last, BLANK_LINE, 0).None?;
      hide Serve;
      if more.replies != [] {
        ReplyIsSomething(more.replies[0]);
      }
    }
  }

  lemma ReplyIsSomething(reply: Reply)
    ensures |ReplyText(reply)| > 0
  {
  }

  // ---------------------------------------------------------------- what one call comes to

  /** What sending replies one after the other comes to. */
  datatype Flow = Flow(sent: string, left: seq<SendResult>, stalled: bool, broke: bool)

  function Flowed(replies: seq<Reply>, sends: seq<SendResult>): Flow
    decreases |replies|
  {
    if replies == [] then Flow("", sends, false, false)
    else
      var p := Push(ReplyText(replies[0]), sends);
      if p.outcome.Waiting? then Flow(p.sent, p.left, true, false)
      else
        var more := Flowed(replies[1..], p.left);
        Flow(p.sent + more.sent, more.left, more.stalled, p.outcome.Broken? || more.broke)
  }

  /** The bytes sent, the bytes left unread, and the fate of the connection. */
  datatype Aftermath = Aftermath(sent: string, unread: string, status: Status, broke: bool)

  /** A call serves the whole input unless the write results run out; after `sent` and `broke` from before. */
  function AfterCall(site: Site, input: string, sends: seq<SendResult>, sent: string, broke: bool): Aftermath {
    var s := Serve(site, input);
    var f := Flowed(s.replies, sends);
    Aftermath(sent + f.sent, if f.stalled then "" else s.rest,
              if f.stalled then Stalled else if s.closed then Deleted else Open, broke || f.broke)
  }

  ghost predicate Popped(pending: string, request: Option<string>, rest: string) {
    match request
    case Some(frame) => PopTill(pending, BLANK_LINE) == Some((frame, rest))
    case None => PopTill(pending, BLANK_LINE).None? && rest == pending
  }

  lemma UnreadAnyway(site: Site, input: string, sends: seq<SendResult>, sent: string)
    ensures AfterCall(site, input, sends, "", false).unread == AfterCall(site, input, sends, sent, false).unread
  {
  }

  lemma BrokeBefore(site: Site, input: string, sends: seq<SendResult>, sent: string, broke: bool)
    ensures var a := AfterCall(site, input, sends, sent, false);
            AfterCall(site, input, sends, sent, broke) == a.(broke := broke || a.broke)
  {
  }

  lemma AfterNone(site: Site, pending: string, sends: seq<SendResult>, sent: string, broke: bool)
    requires PopTill(pending, BLANK_LINE).None?
    ensures AfterCall(site, pending, sends, sent, broke) == Aftermath(sent, pending, Open, broke)
  {
    assert sent + "" == sent;
  }

  /** One request is answered, and the rest of the call is a call on the rest of the input. */
  lemma AfterOne(site: Site, pending: string, sends: seq<SendResult>, sent: string, broke: bool)
    requires PopTill(pending, BLANK_LINE).Some?
    ensures var (frame, rest) := PopTill(pending, BLANK_LINE).value;
            var reply := Respond(site, frame);
            var p := Push(ReplyText(reply), sends);
            AfterCall(site, pending, sends, sent, broke) ==
            if p.outcome.Waiting? then Aftermath(sent + p.sent, "", Stalled, broke)
            else if reply.close then Aftermath(sent + p.sent, rest, Deleted, broke || p.outcome.Broken?)
            else AfterCall(site, rest, p.left, sent + p.sent, broke || p.outcome.Broken?)
  {
    hide Respond;
    hide ReplyText;
    hide Push;
    var (frame, rest) := PopTill(pending, BLANK_LINE).value;
    var reply := Respond(site, frame);
    var p := Push(ReplyText(reply), sends);
    if reply.close {
      assert [reply][1..] == [];
      assert Flowed([], p.left) == Flow("", p.left, false, false);
      assert p.sent + "" == p.sent;
    } else {
      var more := Serve(site, rest).replies;
      assert ([reply] + more)[1..] == more;
      Regroup(sent, p.sent, Flowed(more, p.left).sent);
    }
  }

  /** What goes out of a run of replies: a prefix of their bytes, all of them, or less because the results ran out. */
  lemma {:induction false} FlowedPrefix(replies: seq<Reply>, sends: seq<SendResult>)
    ensures var f := Flowed(replies, sends);
            && (f.stalled ==> f.left == [])
            && (!f.broke ==> f.sent <= Output(replies))
            && (!f.broke && !f.stalled ==> f.sent == Output(replies))
            && (!f.broke && f.stalled ==> |f.sent| < |Output(replies)|)
    decreases |replies|
  {
    hide ReplyText;
    hide Push;
    if replies != [] {
      var text := ReplyText(replies[0]);
      var p := Push(text, sends);
      var k := PushOutcome(text, sends);
      assert sends[..|sends|] == sends;
      hide Room;
      FlowedPrefix(replies[1..], p.left);
      var rest := Output(replies[1..]);
      assert Output(replies) == text + rest;
      assert p.sent <= text <= text + rest;
      if p.outcome.Sent? {
        assert p.sent == text;
      }
    }
  }

  /** What the results take if each that takes something takes `unit` bytes. */
  function Units(rs: seq<SendResult>, unit: nat): nat {
    if rs == [] then 0 else (if rs[0].count > 0 then unit else 0) + Units(rs[1..], unit)
  }

  /** No result fails for good, and every result that takes something would take `unit` bytes or more. */
  predicate TakesUnits(rs: seq<SendResult>, unit: nat) {
    unit > 0 && forall i :: 0 <= i < |rs| ==> !Hard(rs[i]) && (rs[i].count > 0 ==> rs[i].count >= unit)
  }

  /**
   * Enough for `count` replies of `size` bytes in all: the last result used for a reply may be wasted
   * but for one byte, if another reply follows, and all others take their `unit` of bytes.
   */
  predicate Enough(rs: seq<SendResult>, unit: nat, size: nat, count: nat) {
    TakesUnits(rs, unit) && Units(rs, unit) + (unit - 1) >= size + count * (unit - 1)
  }

  /** In particular one result for each reply is enough, if each would take all the replies at once. */
  lemma OneResultEach(rs: seq<SendResult>, size: nat, count: nat)
    requires 0 < count <= |rs| && size > 0 && forall r :: r in rs ==> r.count >= size
    ensures Enough(rs, size, size, count)
  {
    UnitsOfAll(rs, size);
    assert |rs| * size >= count * size == count * (size - 1) + count;
  }

  lemma {:induction false} UnitsOfAll(rs: seq<SendResult>, unit: nat)
    requires unit > 0 && forall r :: r in rs ==> r.count >= unit
    ensures Units(rs, unit) == |rs| * unit && TakesUnits(rs, unit)
  {
    if rs != [] {
      UnitsOfAll(rs[1..], unit);
      assert |rs| * unit == unit + |rs[1..]| * unit;
    }
  }

  lemma {:induction false} PushUses(text: string, rs: seq<SendResult>, unit: nat)
    requires TakesUnits(rs, unit)
    ensures var p := Push(text, rs);
            && TakesUnits(p.left, unit) && !p.outcome.Broken?
            && (p.outcome.Sent? ==> p.sent == text && Units(rs, unit) <= Units(p.left, unit) + |text| + (unit - 1))
            && (p.outcome.Waiting? ==> Units(rs, unit) < |text|)
    decreases |rs|
  {
    if text != "" && rs != [] {
      var n := Taken(rs[0], |text|);
      assert !Hard(rs[0]) && TakesUnits(rs[1..], unit);
      hide TakesUnits;
      PushUses(text[n..], rs[1..], unit);
      assert text[..n] + text[n..] == text;
      if rs[0].count > 0 && n == |text| {
        assert Push(text[n..], rs[1..]) == Pushed("", rs[1..], Sent);
      }
    }
  }

  /** With that much room every reply goes out. */
  lemma {:induction false} EnoughNeverStalls(replies: seq<Reply>, sends: seq<SendResult>, unit: nat)
    requires Enough(sends, unit, |Output(replies)|, |replies|)
    ensures var f := Flowed(replies, sends); !f.stalled && !f.broke && f.sent == Output(replies)
    decreases |replies|
  {
    hide ReplyText;
    hide Push;
    hide Units;
    if replies != [] {
      var text := ReplyText(replies[0]);
      PushUses(text, sends, unit);
      var n, m := |replies|, |replies| - 1;
      assert n * (unit - 1) == m * (unit - 1) + (unit - 1);
      var p := Push(text, sends);
      if p.outcome.Sent? {
        EnoughNeverStalls(replies[1..], p.left, unit);
      }
    }
  }

  // ---------------------------------------------------------------- what all calls come to

  function AfterRounds(site: Site, unread: string, sent: string, broke: bool, rounds: seq<Round>): Aftermath
    decreases |rounds|
  {
    if rounds == [] then Aftermath(sent, unread, Open, broke)
    else if PeerGone(rounds[0].recvs) then Aftermath(sent, "", Deleted, broke)
    else
      var a := AfterCall(site, unread + BytesRead(rounds[0].recvs), rounds[0].sends, sent, broke);
      if !a.status.Open? then a else AfterRounds(site, a.unread, a.sent, a.broke, rounds[1..])
  }

  /**
   * What all the calls together have done. While no write failed for good, the bytes sent are those of
   * the whole input heard before the peer went away, and fewer exactly if a write is stalled; and the
   * connection is deleted exactly when a reply closes it or the peer is gone.
   */
  ghost predicate Handled(site: Site, rounds: seq<Round>, before: string, sent: string, status: Status, broke: bool) {
    Came(Serve(site, AllBytes(Heard(rounds))), |Heard(rounds)| < |rounds|, before, Aftermath(sent, "", status, broke))
  }

  ghost predicate Came(s: Served, left: bool, before: string, a: Aftermath) {
    && (!a.broke ==> before <= a.sent <= before + Output(s.replies))
    && (!a.broke ==> (a.status.Stalled? <==> |a.sent| < |before| + |Output(s.replies)|))
    && (!a.status.Stalled? ==> (a.status.Deleted? <==> s.closed || left))
  }

  lemma CallCame(site: Site, input: string, sends: seq<SendResult>, before: string, broke: bool)
    ensures var a := AfterCall(site, input, sends, before, broke);
            Came(Serve(site, input), false, before, a) && (broke ==> a.broke)
  {
    FlowedPrefix(Serve(site, input).replies, sends);
    hide Serve;
    hide Flowed;
    hide Output;
  }

  /** What a call leaves unread has no complete request. */
  lemma {:induction false} RestIsIncomplete(site: Site, input: string)
    ensures !Serve(site, input).closed ==> PopTill(Serve(site, input).rest, BLANK_LINE).None?
    decreases |input|
  {
    hide Respond;
    match PopTill(input, BLANK_LINE)
    case None =>
    case Some((frame, rest)) =>
      RestIsIncomplete(site, rest);
  }

  lemma NothingCame(site: Site, unread: string, before: string, broke: bool, left: bool)
    requires PopTill(unread, BLANK_LINE).None?
    ensures Came(Serve(site, unread), left, before, Aftermath(before, if left then "" else unread, if left then Deleted else Open, broke))
  {
    assert before + "" == before;
  }

  /** Two stretches of input, the second served after the first. */
  lemma CameThen(s: Served, next: Served, left: bool, before: string, a: Aftermath, a': Aftermath)
    requires Came(s, false, before, a) && Came(next, left, a.sent, a') && (a.broke ==> a'.broke) && a.status.Open?
    ensures Came(Served(s.replies + next.replies, next.rest, next.closed), left, before, a')
  {
    OutputConcat(s.replies, next.replies);
    if !a'.broke {
      assert |a.sent| == |before + Output(s.replies)| && a.sent == before + Output(s.replies);
      Regroup(before, Output(s.replies), Output(next.replies));
    }
    hide Output;
  }

  /** A call after which there is none. */
  lemma CameLast(s: Served, site: Site, later: string, left: bool, before: string, a: Aftermath)
    requires Came(s, false, before, a) && !a.status.Open?
    ensures Came(Continued(s, site, later), left, before, a)
  {
    if !s.closed {
      OutputConcat(s.replies, Serve(site, s.rest + later).replies);
    }
    hide Output;
    hide Serve;
  }

  lemma {:induction false} RoundsCame(site: Site, unread: string, before: string, broke: bool, rounds: seq<Round>)
    requires PopTill(unread, BLANK_LINE).None?
    ensures var a := AfterRounds(site, unread, before, broke, rounds);
            && Came(Serve(site, unread + AllBytes(Heard(rounds))), |Heard(rounds)| < |rounds|, before, a)
            && (broke ==> a.broke)
    decreases |rounds|
  {
    hide PopTill;
    hide Came;
    hide Serve;
    if rounds == [] || PeerGone(rounds[0].recvs) {
      assert unread + AllBytes(Heard(rounds)) == unread;
      NothingCame(site, unread, before, broke, rounds != []);
    } else {
      var bytes, later := BytesRead(rounds[0].recvs), AllBytes(Heard(rounds[1..]));
      var a := AfterCall(site, unread + bytes, rounds[0].sends, before, broke);
      var s := Serve(site, unread + bytes);
      CallCame(site, unread + bytes, rounds[0].sends, before, broke);
      assert Heard(rounds)[1..] == Heard(rounds[1..]);
      Regroup(unread, bytes, later);
      ServeInPieces(site, unread + bytes, later);
      if a.status.Open? {
        RestIsIncomplete(site, unread + bytes);
        RoundsCame(site, a.unread, a.sent, a.broke, rounds[1..]);
        CameThen(s, Serve(site, s.rest + later), |Heard(rounds)| < |rounds|, before, a,
                 AfterRounds(site, a.unread, a.sent, a.broke, rounds[1..]));
      } else {
        CameLast(s, site, later, |Heard(rounds)| < |rounds|, before, a);
      }
    }
  }

  /** However the input is cut into reads and however short the writes come up, the whole input is served. */
  lemma RoundsServeAll(site: Site, before: string, rounds: seq<Round>)
    ensures var a := AfterRounds(site, "", before, false, rounds);
            Handled(site, rounds, before, a.sent, a.status, a.broke)
  {
    assert Find("", BLANK_LINE, 0).None?;
    RoundsCame(site, "", before, false, rounds);
    assert "" + AllBytes(Heard(rounds)) == AllBytes(Heard(rounds));
  }

  /** Every event heard brings write results enough for all the replies together. */
  ghost predicate EnoughAlways(rounds: seq<Round>, replies: seq<Reply>) {
    forall r :: r in rounds ==> exists unit: nat :: Enough(r.sends, unit, |Output(replies)|, |replies|)
  }

  lemma EnoughForPart(rounds: seq<Round>, a: seq<Reply>, b: seq<Reply>)
    requires EnoughAlways(rounds, a + b)
    ensures EnoughAlways(rounds, a) && EnoughAlways(rounds, b)
  {
    OutputConcat(a, b);
    hide Output;
    forall r | r in rounds
      ensures exists unit: nat :: Enough(r.sends, unit, |Output(a)|, |a|)
      ensures exists unit: nat :: Enough(r.sends, unit, |Output(b)|, |b|)
    {
      var unit: nat :| Enough(r.sends, unit, |Output(a + b)|, |a + b|);
      assert (|a| + |b|) * (unit - 1) == |a| * (unit - 1) + |b| * (unit - 1);
      assert Enough(r.sends, unit, |Output(a)|, |a|) && Enough(r.sends, unit, |Output(b)|, |b|);
    }
  }

  /** Then no write is stalled or fails: what comes of the calls depends on the input alone. */
  lemma {:induction false} RoundsNeverStall(site: Site, unread: string, before: string, rounds: seq<Round>)
    requires EnoughAlways(Heard(rounds), Serve(site, unread + AllBytes(Heard(rounds))).replies)
    ensures var a := AfterRounds(site, unread, before, false, rounds); !a.status.Stalled? && !a.broke
    decreases |rounds|
  {
    hide Serve;
    hide Flowed;
    hide EnoughAlways;
    if rounds != [] && !PeerGone(rounds[0].recvs) {
      var bytes, later := BytesRead(rounds[0].recvs), AllBytes(Heard(rounds[1..]));
      assert Heard(rounds)[0] == rounds[0] && Heard(rounds)[1..] == Heard(rounds[1..]);
      Regroup(unread, bytes, later);
      ServeInPieces(site, unread + bytes, later);
      var s := Serve(site, unread + bytes);
      var next := if s.closed then [] else Serve(site, s.rest + later).replies;
      assert s.replies + next == Serve(site, unread + AllBytes(Heard(rounds))).replies;
      EnoughForPart(Heard(rounds), s.replies, next);
      EnoughForOne(Heard(rounds), s.replies);
      if !s.closed {
        EnoughForRest(Heard(rounds), next);
        RoundsNeverStall(site, s.rest, before + Flowed(s.replies, rounds[0].sends).sent, rounds[1..]);
      }
    }
  }

  lemma EnoughForOne(rounds: seq<Round>, replies: seq<Reply>)
    requires rounds != [] && EnoughAlways(rounds, replies)
    ensures var f := Flowed(replies, rounds[0].sends); !f.stalled && !f.broke
  {
    assert rounds[0] in rounds;
    var unit: nat :| Enough(rounds[0].sends, unit, |Output(replies)|, |replies|);
    EnoughNeverStalls(replies, rounds[0].sends, unit);
  }

  lemma EnoughForRest(rounds: seq<Round>, replies: seq<Reply>)
    requires rounds != [] && EnoughAlways(rounds, replies)
    ensures EnoughAlways(rounds[1..], replies)
  {
    hide Enough;
    assert forall r :: r in rounds[1..] ==> r in rounds;
  }

  /** So every complete request taken off the socket has been answered, exactly when none was dropped. */
  lemma AllAnsweredExactly(site: Site, rounds: seq<Round>, before: string, sent: string, status: Status)
    requires Handled(site, rounds, before, sent, status, false) && !status.Stalled?
    ensures sent == before + Output(Serve(site, AllTaken(rounds)).replies) <==> NoneDropped(site, rounds)
  {
    hide NoneDropped;
    hide Serve;
    DroppedExactly(site, rounds);
    var all, heard := Output(Serve(site, AllTaken(rounds)).replies), Output(Serve(site, AllBytes(Heard(rounds))).replies);
    assert sent == before + heard;
    assert (before + all)[|before|..] == all && (before + heard)[|before|..] == heard;
  }

  /** Everything in `input` has been answered and the connection is open. */
  ghost predicate CaughtUp(site: Site, input: string, before: string, sent: string, unread: string) {
    var s := Serve(site, input);
    !s.closed && sent == before + Output(s.replies) && unread == s.rest
  }

  /** Serving what is left over with the new bytes is serving all the bytes so far. */
  lemma OneMoreRound(site: Site, input: string, bytes: string, before: string, sent: string, unread: string)
    requires CaughtUp(site, input, before, sent, unread)
    ensures var more, all := Serve(site, unread + bytes), Serve(site, input + bytes);
            && all.closed == more.closed && all.rest == more.rest
            && sent + Output(more.replies) == before + Output(all.replies)
  {
    ServeInPieces(site, input, bytes);
    var s, more := Serve(site, input), Serve(site, unread + bytes);
    OutputConcat(s.replies, more.replies);
    Regroup(before, Output(s.replies), Output(more.replies));
  }
}
