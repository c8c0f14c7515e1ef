/**
 * From a client's list of file names to the bytes it ends up with: encoding the names, printing and
 * pipelining the requests, cutting, parsing and answering them, and reading the answers back.
 */
module Delivery {
  import opened Options
  import opened Text
  import opened Requests
  import opened Responses
  import opened Connections
  import opened Sites
  import opened Handlers
  import Url

  type Name = seq<Url.Byte>

  /** As clients write it, with a blank after the colon. */
  const KEEP_ALIVE := Header("Connection", " keep-alive")

  /** A request for a name, as a client prints it. */
  function Printed(method_: string, name: Name): string {
    RequestText(method_, Url.Encoded(name), "HTTP/1.1", [KEEP_ALIVE])
  }

  function GetText(name: Name): string {
    Printed("GET", name)
  }

  function Pipelined(names: seq<Name>): string {
    if names == [] then "" else GetText(names[0]) + Pipelined(names[1..])
  }

  /** A file the server has and serves as a file. */
  predicate Serves(site: Site, name: Name) {
    name != [] && site.dir + name in site.files && !IsCgi(site.dir + name)
  }

  predicate ServesAll(site: Site, names: seq<Name>) {
    forall i :: 0 <= i < |names| ==> Serves(site, names[i])
  }

  lemma {:induction false} EncodedChars(name: Name)
    ensures forall c :: c in Url.Encoded(name) ==> Url.IsUnreserved(c) || c == '%'
    ensures name != [] ==> Url.Encoded(name) != ""
  {
    if name != [] {
      EncodedChars(name[1..]);
      Url.HexPair(name[0]);
    }
  }

  lemma EncodedTargetIsPlain(name: Name)
    requires name != []
    ensures var t := Url.Encoded(name);
            ' ' !in t && '\r' !in t && WithDefaultRoute(t) == t
  {
    EncodedChars(name);
    var t := Url.Encoded(name);
    assert t[|t| - 1] in t;
  }

  lemma LineIsGood(method_: string, name: Name)
    requires name != [] && (method_ == "GET" || method_ == "HEAD")
    ensures GoodLine(method_, Url.Encoded(name), "HTTP/1.1")
    ensures ToMethod(method_) == if method_ == "GET" then GET else HEAD
  {
    EncodedTargetIsPlain(name);
    NoCharIsFree(method_, ' ');
    NoCharIsFree(Url.Encoded(name), ' ');
    NoCharIsFree("HTTP/1.1", ' ');
    NoReturnIsFree(method_ + " " + Url.Encoded(name) + " " + "HTTP/1.1");
    assert ToUpper("GET") == "GET" && ToUpper("HEAD") == "HEAD" && ToUpper("HTTP/1.1") == "HTTP/1.1";
  }

  lemma KeepAliveSays()
    ensures Says(KEEP_ALIVE.key, "CONNECTION") && Says(KEEP_ALIVE.value, "KEEP-ALIVE")
  {
    KeyLetters();
    ValueLetters();
    assert SaysAt(KEEP_ALIVE.key, "CONNECTION", 0);
    assert SaysAt(KEEP_ALIVE.value, "KEEP-ALIVE", 1);
  }

  lemma KeyLetters()
    ensures SaysAt("Connection", "CONNECTION", 0)
  {
  }

  lemma ValueLetters()
    ensures SaysAt(" keep-alive", "KEEP-ALIVE", 1)
  {
  }

  lemma KeepAliveIsGood()
    ensures GoodHeader(KEEP_ALIVE) && AnyKeepsAlive([KEEP_ALIVE])
  {
    PlainHeaderIsGood(KEEP_ALIVE);
    KeepAliveSays();
    hide Says;
    KeepsAliveMeans(KEEP_ALIVE);
    hide KeepsAlive;
    assert KeepsAlive([KEEP_ALIVE][0]);
  }

  /** The server understands it as that request for the decoded name, and keeps the connection. */
  lemma PrintedIsUnderstood(method_: string, name: Name)
    requires name != [] && (method_ == "GET" || method_ == "HEAD")
    ensures RequestOf(Printed(method_, name)) ==
            Good(Request(RequestLine(if method_ == "GET" then GET else HEAD, Http11, Url.Encoded(name)), [KEEP_ALIVE], false))
    ensures Url.Decoded(Url.Encoded(name)) == name
  {
    LineIsGood(method_, name);
    KeepAliveIsGood();
    EncodedTargetIsPlain(name);
    Url.UrlRoundTrip(name);
    RequestRoundTrip(method_, Url.Encoded(name), "HTTP/1.1", [KEEP_ALIVE]);
  }

  /** A printed request for a program and its arguments is answered with what the program prints on them. */
  lemma PrintedCgiRuns(site: Site, method_: string, name: Name, program: string, arguments: seq<string>)
    requires name != [] && (method_ == "GET" || method_ == "HEAD")
    requires site.dir + name == program + "&" + Joined(arguments, "&") && program in site.files
    requires IsCgi(program) && Unseparated(program) && forall a :: a in arguments ==> Free(a, "&")
    ensures var r := Respond(site, Printed(method_, name));
            r.status == OK && !r.close && r.body == site.cgi(program, DropEmptyLast(arguments))
  {
    PrintedIsUnderstood(method_, name);
    hide RequestOf;
    hide Printed;
    CgiRoundTrip(program, arguments);
    SeparatorFound(program, Joined(arguments, "&"));
    hide ParseCgi;
    hide CgiReply;
    CgiReplyHolds(site.cgi(program, DropEmptyLast(arguments)), false);
  }

  lemma CgiReplyHolds(output: string, close: bool)
    ensures CgiReply(output, close).status == OK && CgiReply(output, close).body == output
    ensures CgiReply(output, close).close == close
  {
  }

  /** A printed HEAD for a CGI program that prints something: the client loses its place in the stream. */
  lemma PrintedHeadIsMisread(site: Site, name: Name, rest: string)
    requires name != [] && IsCgi(site.dir + name)
    requires var c := ParseCgi(site.dir + name); c.path in site.files && site.cgi(c.path, c.arguments) != ""
    ensures var frame := Printed("HEAD", name);
            var r := Respond(site, frame);
            HeadPrints(site, frame) && Bodiless(site, frame) &&
            ReadReply(ReplyText(r) + rest, true) == Some((Intended(r.(body := "")), r.body + rest)) && r.body != ""
  {
    PrintedIsUnderstood("HEAD", name);
    hide RequestOf;
    hide Printed;
    HeadCgiMisread(site, Printed("HEAD", name), rest);
  }

  /** There is such a site and such a request. */
  lemma MisreadHappens() returns (site: Site, frame: string)
    ensures HeadPrints(site, frame)
    ensures ReadReply(ReplyText(Respond(site, frame)), Bodiless(site, frame)) != Some((Intended(Respond(site, frame)), ""))
  {
    var name: Name := "cgi-bin";
    site := Site("", map["cgi-bin" := ""], (path, arguments) => "out");
    assert "" + name == "cgi-bin";
    assert At("cgi-bin", "cgi-bin", 0) && IsCgi("cgi-bin");
    NoCharIsFree("cgi-bin", '&');
    CgiWithoutArguments("cgi-bin");
    frame := Printed("HEAD", name);
    PrintedHeadIsMisread(site, name, "");
    hide HeadPrints;
    hide Respond;
    assert ReplyText(Respond(site, frame)) + "" == ReplyText(Respond(site, frame));
  }

  lemma GetIsAnswered(site: Site, name: Name)
    requires Serves(site, name)
    ensures Respond(site, GetText(name)) == FileReply(site.dir + name, site.files, true, false)
    ensures !HeadPrints(site, GetText(name)) && !Bodiless(site, GetText(name))
  {
    PrintedIsUnderstood("GET", name);
    hide RequestOf;
  }

  /** Whatever comes after it, the request is cut off whole. */
  lemma GetIsPopped(name: Name, rest: string)
    requires name != []
    ensures PopTill(GetText(name) + rest, BLANK_LINE) == Some((GetText(name), rest))
  {
    LineIsGood("GET", name);
    KeepAliveIsGood();
    var line := "GET" + " " + Url.Encoded(name) + " " + "HTTP/1.1";
    HeadIsBlock(line, [KEEP_ALIVE]);
    FirstBlankLine([line] + HeaderLines([KEEP_ALIVE]), rest);
    var t := GetText(name);
    assert (t + rest)[..|t|] == t && (t + rest)[|t|..] == rest;
  }

  lemma NothingServed(site: Site)
    ensures Serve(site, "") == Served([], "", false)
  {
  }

  lemma OneServed(site: Site, name: Name)
    requires name != []
    ensures Serve(site, GetText(name)).replies == [Respond(site, GetText(name))]
  {
    hide Respond;
    GetIsPopped(name, "");
    hide GetText;
    NothingServed(site);
    assert GetText(name) + "" == GetText(name);
  }

  /** All the bytes come with the news that the peer is gone. */
  lemma BytesAndEof(bytes: string)
    ensures var rounds := [Round([Data(bytes), Eof], [])];
            Heard(rounds) == [] && AllBytes(Heard(rounds)) == "" && LastBytes(rounds) == AllTaken(rounds) == bytes
  {
    var recvs := [Data(bytes), Eof];
    assert recvs[1..] == [Eof] && BytesRead([Eof]) == "" && PeerGone([Eof]);
    assert BytesRead(recvs) == bytes + "" == bytes && "" + bytes == bytes;
  }

  /** A GET that comes in one read with the peer's close is taken off the socket and never answered. */
  lemma LastGetIsDropped(site: Site, name: Name)
    requires name != []
    ensures var rounds := [Round([Data(GetText(name)), Eof], [])];
            && !NoneDropped(site, rounds) && AllTaken(rounds) == GetText(name)
            && Serve(site, AllTaken(rounds)).replies == [Respond(site, GetText(name))]
            && Serve(site, AllBytes(Heard(rounds))).replies == []
  {
    GetIsPopped(name, "");
    assert GetText(name) + "" == "" + GetText(name) == GetText(name);
    OneServed(site, name);
    BytesAndEof(GetText(name));
    NothingServed(site);
    hide Respond;
    hide GetText;
    hide Serve;
    hide Heard;
    hide LastBytes;
    hide AllTaken;
    hide Find;
  }

  function FileReplies(site: Site, names: seq<Name>): seq<Reply>
    requires ServesAll(site, names)
  {
    if names == [] then [] else [FileReply(site.dir + names[0], site.files, true, false)] + FileReplies(site, names[1..])
  }

  lemma {:induction false} PipelineServed(site: Site, names: seq<Name>)
    requires ServesAll(site, names)
    ensures Serve(site, Pipelined(names)) == Served(FileReplies(site, names), "", false)
    decreases |names|
  {
    if names == [] {
      assert Find("", BLANK_LINE, 0) == None;
    } else {
      GetIsPopped(names[0], Pipelined(names[1..]));
      GetIsAnswered(site, names[0]);
      PipelineServed(site, names[1..]);
      hide Respond;
    }
  }

  function Texts(names: seq<Name>): seq<string> {
    if names == [] then [] else [GetText(names[0])] + Texts(names[1..])
  }

  lemma {:induction false} TextsAnswered(site: Site, names: seq<Name>)
    requires ServesAll(site, names)
    ensures |FileReplies(site, names)| == |Texts(names)| == |names|
    ensures forall i :: 0 <= i < |names| ==>
              && FileReplies(site, names)[i] == Respond(site, Texts(names)[i])
              && FileReplies(site, names)[i].body == site.files[site.dir + names[i]]
              && FileReplies(site, names)[i].status == OK
              && !HeadPrints(site, Texts(names)[i])
    decreases |names|
  {
    hide HeadPrints;
    hide Respond;
    hide GetText;
    hide ResponseHeaders;
    if names != [] {
      GetIsAnswered(site, names[0]);
      TextsAnswered(site, names[1..]);
      var replies, texts := FileReplies(site, names), Texts(names);
      assert replies[1..] == FileReplies(site, names[1..]) && texts[1..] == Texts(names[1..]);
      forall i | 0 < i < |names|
        ensures replies[i] == replies[1..][i - 1] && texts[i] == texts[1..][i - 1] && names[i] == names[1..][i - 1]
      {
      }
    }
  }

  lemma {:induction false} IntendedAt(replies: seq<Reply>)
    ensures |AllIntended(replies)| == |replies|
    ensures forall i :: 0 <= i < |replies| ==> AllIntended(replies)[i] == Intended(replies[i])
  {
    if replies != [] {
      IntendedAt(replies[1..]);
    }
  }

  /**
   * A client that follows section 6.3 of RFC 9112 reads in `output` exactly the contents of the files,
   * in order, each under 200, and nothing else.
   */
  ghost predicate Delivered(site: Site, names: seq<Name>, output: string)
    requires ServesAll(site, names)
  {
    var got := ReadReplies(output, AllBodiless(site, Texts(names)));
    && got.Some? && got.value.1 == "" && |got.value.0| == |names|
    && forall i :: 0 <= i < |names| ==>
         && got.value.0[i].statusLine == StatusLine(OK)
         && got.value.0[i].body == site.files[site.dir + names[i]]
  }

  /**
   * Whatever bytes the names are made of, a client that pipelines one GET for each receives those
   * files; the connection stays open and nothing it sent is left unread.
   */
  lemma PipelinedGetsDeliverFiles(site: Site, names: seq<Name>)
    requires ServesAll(site, names)
    ensures var s := Serve(site, Pipelined(names));
            !s.closed && s.rest == "" && Delivered(site, names, Output(s.replies))
  {
    hide Respond;
    hide HeadPrints;
    hide ReadReplies;
    PipelineServed(site, names);
    TextsAnswered(site, names);
    var replies := FileReplies(site, names);
    ReadsInOrder(site, replies, Texts(names), "");
    assert Output(replies) + "" == Output(replies);
    IntendedAt(replies);
  }

  /**
   * The same from the running server: with the cache in any state it can be in, the requests cut into
   * reads anywhere and the writes coming up short anyhow. If the kernel gives room for the replies, and
   * never fails a write for good, the files do arrive.
   */
  method FetchFiles(server: HttpServer, conn: Connection, names: seq<Name>, rounds: seq<Round>, clock: nat -> nat)
    returns (status: Status, broke: bool)
    requires server.Valid() && conn.Valid() && conn.readBuf.buf == "" && conn.writeBuf.buf == "" && conn.sent == ""
    requires ServesAll(server.site, names)
    requires AllBytes(Heard(rounds)) == Pipelined(names)
    modifies server.cache, server.cache.chain, conn`sent, conn.readBuf, conn.writeBuf
    ensures server.Valid()
    ensures !broke && !status.Stalled? ==>
              Delivered(server.site, names, conn.sent) && (status.Deleted? <==> |Heard(rounds)| < |rounds|)
    ensures EnoughAlways(Heard(rounds), Serve(server.site, Pipelined(names)).replies) ==>
              && Delivered(server.site, names, conn.sent) && !broke
              && status == if |Heard(rounds)| < |rounds| then Deleted else Open
  {
    hide Delivered;
    hide Serve;
    hide AfterRounds;
    hide EnoughAlways;
    var site := server.site;
    PipelinedGetsDeliverFiles(site, names);
    var replies := Serve(site, Pipelined(names)).replies;
    assert "" + Pipelined(names) == Pipelined(names);
    if EnoughAlways(Heard(rounds), replies) {
      RoundsNeverStall(site, "", "", rounds);
    }
    status, broke := server.HandleRounds(conn, rounds, clock);
    assert "" + Output(replies) == Output(replies);
    assert !broke && !status.Stalled? ==> |conn.sent| == |Output(replies)| && conn.sent == Output(replies);
  }
}
