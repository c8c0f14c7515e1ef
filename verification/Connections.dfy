/** Byte buffers and connections (falconlink/common/buffer.cpp, falconlink/net/connection.cpp). */
module Connections {
  import opened Options
  import opened Text

  /** Everything up to and including the first `target`, and what is left. */
  function PopTill(buf: string, target: string): (r: Option<(string, string)>)
    ensures r.Some? ==> |r.value.0| >= |target| && |r.value.0| + |r.value.1| == |buf|
  {
    match Find(buf, target, 0)
    case Some(n) => Some((buf[..n + |target|], buf[n + |target|..]))
    case None => None
  }

  /** Text added at the end does not move the first occurrence. */
  lemma FindAppend(a: string, b: string, target: string)
    requires Find(a, target, 0).Some?
    ensures Find(a + b, target, 0) == Find(a, target, 0)
  {
    var n := Find(a, target, 0).value;
    FindFirst(a, target, 0);
    forall j: nat | j <= n
      ensures At(a + b, target, j) <==> At(a, target, j)
    {
      AtPrefix(a, b, target, j);
    }
    FindIs(a + b, target, n);
  }

  /** More bytes arriving never change what is popped. */
  lemma PopTillAppend(a: string, b: string, target: string)
    requires PopTill(a, target).Some?
    ensures var (f, rest) := PopTill(a, target).value;
            PopTill(a + b, target) == Some((f, rest + b)) && f + rest == a
  {
    var n := Find(a, target, 0).value;
    FindAppend(a, b, target);
    hide Find;
    assert (a + b)[..n + |target|] == a[..n + |target|];
    assert (a + b)[n + |target|..] == a[n + |target|..] + b;
  }

  /** A popped frame ends at its own first `target`. */
  lemma PoppedIsCut(a: string, target: string)
    requires PopTill(a, target).Some?
    ensures var f := PopTill(a, target).value.0;
            |f| >= |target| && Find(f, target, 0) == Some(|f| - |target|)
  {
    var n := Find(a, target, 0).value;
    var f := a[..n + |target|];
    FindFirst(a, target, 0);
    forall j: nat | j <= n
      ensures At(f, target, j) <==> At(a, target, j)
    {
      AtPrefix(f, a[n + |target|..], target, j);
      assert f + a[n + |target|..] == a;
    }
    FindIs(f, target, n);
  }

  class Buffer {
    var buf: string

    constructor ()
      ensures buf == ""
    {
      buf := "";
    }

    method Append(data: string)
      modifies this
      ensures buf == old(buf) + data
    {
      buf := buf + data;
    }

    method FindAndPopTill(target: string) returns (res: Option<string>)
      modifies this
      ensures match PopTill(old(buf), target)
              case Some(p) => res == Some(p.0) && buf == p.1
              case None => res == None && buf == old(buf)
    {
      res := None;
      var pos := Find(buf, target, 0);
      if pos.Some? {
        res := Some(buf[..pos.value + |target|]);
        buf := buf[pos.value + |target|..];
      }
    }

    method Clear()
      modifies this
      ensures buf == ""
    {
      buf := "";
    }
  }

  // ---------------------------------------------------------------- kernel results

  datatype Errno = EINTR | EAGAIN | OtherErrno

  /** One return of `::recv`. */
  datatype RecvResult = Data(bytes: string) | Eof | Failed(errno: Errno)

  /** One return of `::send`: a count, or a value of at most zero with an error number. */
  datatype SendResult = SendResult(count: int, errno: Errno)

  /** The bytes read before the kernel says there are no more, or the peer is gone. */
  function BytesRead(rs: seq<RecvResult>): string {
    if rs == [] then ""
    else match rs[0]
      case Data(bytes) => bytes + BytesRead(rs[1..])
      case Eof => ""
      case Failed(e) => if e.EINTR? then BytesRead(rs[1..]) else ""
  }

  /** The peer has closed, or the read failed for good. Results that run out count as "no more data". */
  predicate PeerGone(rs: seq<RecvResult>) {
    if rs == [] then false
    else match rs[0]
      case Data(_) => PeerGone(rs[1..])
      case Eof => true
      case Failed(e) => e.OtherErrno? || (e.EINTR? && PeerGone(rs[1..]))
  }

  /** The bytes of all the results that have any. */
  function AllData(rs: seq<RecvResult>): string {
    if rs == [] then "" else (if rs[0].Data? then rs[0].bytes else "") + AllData(rs[1..])
  }

  /**
   * An interrupt is passed over; the first other failure, or the end of the stream, ends the reading.
   * What came before it is kept, and only "no more data" leaves the peer there.
   */
  lemma {:induction false} ReadUpTo(rs: seq<RecvResult>, k: nat)
    requires k <= |rs| && forall i :: 0 <= i < k ==> rs[i].Data? || rs[i] == Failed(EINTR)
    requires k < |rs| ==> !rs[k].Data? && rs[k] != Failed(EINTR)
    ensures BytesRead(rs) == AllData(rs[..k])
    ensures PeerGone(rs) <==> k < |rs| && (rs[k].Eof? || rs[k] == Failed(OtherErrno))
  {
    if k > 0 {
      ReadUpTo(rs[1..], k - 1);
      assert rs[..k][1..] == rs[1..][..k - 1];
    }
  }

  /** `Waiting`: the kernel results given ran out while bytes were still to be sent. */
  datatype SendOutcome = Sent | Broken | Waiting

  /** What the write loop does with a text: the bytes that go out, and the results it leaves unused. */
  datatype Pushed = Pushed(sent: string, left: seq<SendResult>, outcome: SendOutcome)

  /** The kernel took nothing, and not because it was interrupted or full. */
  predicate Hard(r: SendResult) {
    r.count <= 0 && r.errno.OtherErrno?
  }

  function Push(text: string, results: seq<SendResult>): Pushed
    decreases |results|
  {
    if text == "" then Pushed("", results, Sent)
    else if results == [] then Pushed("", [], Waiting)
    else if Hard(results[0]) then Pushed("", results[1..], Broken)
    else
      var n := Taken(results[0], |text|);
      var more := Push(text[n..], results[1..]);
      more.(sent := text[..n] + more.sent)
  }

  /** The kernel never takes more than it is given. */
  function Taken(r: SendResult, size: nat): nat {
    if r.count <= 0 then 0 else if r.count < size then r.count else size
  }

  /** The bytes that results would take if there were enough to send. */
  function Room(rs: seq<SendResult>): nat {
    if rs == [] then 0 else (if rs[0].count > 0 then rs[0].count else 0) + Room(rs[1..])
  }

  /**
   * The `k` results used are the first that have room for the text, or end in the first hard failure
   * before that, or are all there are; what went out is as much of the text as they have room for.
   */
  ghost predicate PushedBy(text: string, results: seq<SendResult>, k: nat, p: Pushed) {
    && k <= |results| && p.left == results[k..] && p.sent <= text
    && |p.sent| == (if Room(results[..k]) < |text| then Room(results[..k]) else |text|)
    && (forall i :: 0 <= i < k && results[i].count <= 0 && results[i].errno == OtherErrno ==>
          p.outcome.Broken? && i == k - 1)
    && (forall i :: 0 <= i < k ==> Room(results[..i]) < |text|)
    && (p.outcome.Sent? ==> Room(results[..k]) >= |text|)
    && (p.outcome.Broken? ==> k > 0 && results[k - 1].count <= 0 && results[k - 1].errno == OtherErrno)
    && (p.outcome.Waiting? ==> k == |results| && Room(results) < |text|)
  }

  lemma {:induction false} PushOutcome(text: string, results: seq<SendResult>) returns (k: nat)
    ensures PushedBy(text, results, k, Push(text, results))
    decreases |results|
  {
    assert results[..|results|] == results;
    if text == "" || results == [] {
      k := 0;
    } else if Hard(results[0]) {
      k := 1;
      assert results[..1][1..] == [];
    } else {
      var n, rest := Taken(results[0], |text|), results[1..];
      k := PushOutcome(text[n..], rest);
      PushedByOneMore(text, results, k, Push(text[n..], rest));
      k := k + 1;
    }
  }

  lemma PushedByOneMore(text: string, results: seq<SendResult>, k: nat, more: Pushed)
    requires text != "" && results != [] && !Hard(results[0])
    requires var n := Taken(results[0], |text|); PushedBy(text[n..], results[1..], k, more)
    ensures var n := Taken(results[0], |text|);
            PushedBy(text, results, k + 1, more.(sent := text[..n] + more.sent))
  {
    var n, rest := Taken(results[0], |text|), results[1..];
    forall i | 0 < i <= |results|
      ensures Room(results[..i]) == (if results[0].count > 0 then results[0].count else 0) + Room(rest[..i - 1])
    {
      RoomCons(results, i);
    }
    assert results[..|results|] == results && rest[..|rest|] == rest && text[..n] + text[n..] == text;
    hide Room;
    forall i | 0 <= i < k + 1
      ensures Room(results[..i]) < |text|
    {
      if i == 0 {
        RoomOfNone(results);
      } else {
        assert Room(rest[..i - 1]) < |text[n..]|;
      }
    }
  }

  lemma RoomOfNone(results: seq<SendResult>)
    ensures Room(results[..0]) == 0
  {
  }

  lemma RoomCons(rs: seq<SendResult>, i: nat)
    requires 0 < i <= |rs|
    ensures Room(rs[..i]) == (if rs[0].count > 0 then rs[0].count else 0) + Room(rs[1..][..i - 1])
  {
    assert rs[..i][1..] == rs[1..][..i - 1];
  }

  class Connection {
    const readBuf: Buffer
    const writeBuf: Buffer
    /** The bytes the kernel has taken for the peer. */
    var sent: string

    constructor ()
      ensures Valid() && readBuf.buf == "" && writeBuf.buf == "" && sent == ""
      ensures fresh(readBuf) && fresh(writeBuf)
    {
      readBuf := new Buffer();
      writeBuf := new Buffer();
      sent := "";
    }

    predicate Valid() {
      readBuf != writeBuf
    }

    method Recv(results: seq<RecvResult>) returns (read: nat, exit: bool)
      modifies readBuf
      ensures readBuf.buf == old(readBuf.buf) + BytesRead(results)
      ensures read == |BytesRead(results)| && exit == PeerGone(results)
    {
      read := 0;
      var i := 0;
      assert results[0..] == results;
      while i < |results|
        invariant i <= |results|
        invariant readBuf.buf + BytesRead(results[i..]) == old(readBuf.buf) + BytesRead(results)
        invariant read + |BytesRead(results[i..])| == |BytesRead(results)|
        invariant PeerGone(results[i..]) == PeerGone(results)
      {
        assert results[i..][1..] == results[i + 1..];
        match results[i] {
          case Data(bytes) =>
            Regroup(readBuf.buf, bytes, BytesRead(results[i + 1..]));
            read := read + |bytes|;
            readBuf.Append(bytes);
          case Eof =>
            return read, true;
          case Failed(e) =>
            if e.EAGAIN? {
              return read, false;
            } else if e.OtherErrno? {
              return read, true;
            }
        }
        i := i + 1;
      }
      return read, false;
    }

    /** The write loop. Each result is one return of `::send`; `used` is how many were needed. */
    method Send(results: seq<SendResult>) returns (outcome: SendOutcome, used: nat)
      requires Valid()
      modifies this`sent, writeBuf
      ensures used <= |results|
      ensures var p := Push(old(writeBuf.buf), results);
              sent == old(sent) + p.sent && results[used..] == p.left && outcome == p.outcome
      ensures writeBuf.buf == if outcome.Waiting? then old(writeBuf.buf) else ""
    {
      var currWrite := 0;
      var toWrite := |writeBuf.buf|;
      used := 0;
      OwesStart(sent, writeBuf.buf, results);
      hide Push;
      hide Owes;
      while currWrite < toWrite
        invariant 0 <= currWrite <= toWrite == |writeBuf.buf|
        invariant used <= |results|
        invariant writeBuf.buf == old(writeBuf.buf)
        invariant Owes(old(sent), writeBuf.buf, results, sent, writeBuf.buf[currWrite..], results[used..])
        decreases |results| - used
      {
        OwesOneMore(old(sent), writeBuf.buf, results, sent, writeBuf.buf[currWrite..], results[used..]);
        if used == |results| {
          return Waiting, used;
        }
        var write := results[used].count;
        if write > toWrite - currWrite {
          write := toWrite - currWrite;
        }
        if write <= 0 {
          if results[used].errno.OtherErrno? {
            writeBuf.Clear();
            return Broken, used + 1;
          }
          write := 0;
        }
        assert writeBuf.buf[currWrite..][..write] == writeBuf.buf[currWrite..currWrite + write];
        assert writeBuf.buf[currWrite..][write..] == writeBuf.buf[currWrite + write..];
        assert results[used..][1..] == results[used + 1..];
        sent := sent + writeBuf.buf[currWrite..currWrite + write];
        currWrite := currWrite + write;
        used := used + 1;
      }
      OwesOneMore(old(sent), writeBuf.buf, results, sent, writeBuf.buf[currWrite..], results[used..]);
      writeBuf.Clear();
      return Sent, used;
    }
  }

  /** Pushing `rest` after `sent` comes to what pushing `text` after `before` does. */
  ghost predicate Owes(before: string, text: string, results: seq<SendResult>,
                       sent: string, rest: string, left: seq<SendResult>) {
    var all, more := Push(text, results), Push(rest, left);
    before + all.sent == sent + more.sent && all.left == more.left && all.outcome == more.outcome
  }

  lemma OwesStart(before: string, text: string, results: seq<SendResult>)
    ensures Owes(before, text, results, before, text[0..], results[0..])
  {
    assert text[0..] == text && results[0..] == results;
  }

  lemma OwesOneMore(before: string, text: string, results: seq<SendResult>,
                    sent: string, rest: string, left: seq<SendResult>)
    requires Owes(before, text, results, sent, rest, left)
    ensures var p := Push(text, results);
            if rest == "" then before + p.sent == sent && p.left == left && p.outcome.Sent?
            else if left == [] then before + p.sent == sent && p.left == [] && p.outcome.Waiting?
            else if Hard(left[0]) then before + p.sent == sent && p.left == left[1..] && p.outcome.Broken?
            else var n := Taken(left[0], |rest|); Owes(before, text, results, sent + rest[..n], rest[n..], left[1..])
  {
    assert sent + "" == sent;
    if rest != "" && left != [] && !Hard(left[0]) {
      var n := Taken(left[0], |rest|);
      Regroup(sent, rest[..n], Push(rest[n..], left[1..]).sent);
    }
  }
}
