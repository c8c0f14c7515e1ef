/** What the HTTP example server answers, with no cache (examples/http_server/http_server.cpp). */
module Sites {
  import opened Options
  import opened Text
  import opened Requests
  import opened Responses
  import opened Connections
  import Url

  /**
   * What the server answers from: the resource directory, the files on disk, and the output of each
   * CGI program on each argument list. None of them changes while the server runs.
   */
  datatype Site = Site(dir: string, files: Files, cgi: (string, seq<string>) -> string)

  datatype Cgier = Cgier(path: string, arguments: seq<string>, valid: bool)

  predicate IsCgi(path: string) {
    Find(path, "cgi-bin", 0).Some?
  }

  /** With no `&` after `cgi-bin`, the whole path is the program and is split again for arguments. */
  function ParseCgi(path: string): Cgier {
    if path == "" || !IsCgi(path) then Cgier("", [], false)
    else
      match Find(path, "&", Find(path, "cgi-bin", 0).value)
      case Some(n) => Cgier(path[..n], Tokens(path[n + 1..], "&"), true)
      case None => Cgier(path, Tokens(path, "&"), true)
  }

  /** The full path a request asks for. */
  function PathOf(site: Site, request: Request): string {
    site.dir + Url.Decoded(request.line.target)
  }

  function Refusal(status: string): Reply {
    Reply(status, ResponseHeaders(true, None, map[]), "", true)
  }

  function CgiReply(output: string, close: bool): Reply {
    Reply(OK, Changed(ResponseHeaders(close, None, map[]), CONTENT_LENGTH, Decimal(|output|)), output, close)
  }

  function FileReply(path: string, files: Files, withBody: bool, close: bool): Reply
    requires path in files
  {
    Reply(OK, ResponseHeaders(close, Some(path), files), if withBody then files[path] else "", close)
  }

  /** The file that a GET asks for, when the answer carries a file. */
  function FileAsked(site: Site, frame: string): (r: Option<string>)
    ensures r.Some? ==> r.value in site.files
  {
    match RequestOf(frame)
    case Bad(_) => None
    case Good(request) =>
      var path := PathOf(site, request);
      if !IsCgi(path) && path in site.files && request.line.method_.GET? then Some(path) else None
  }

  /** The answer of a server that reads the file on every request. */
  function Respond(site: Site, frame: string): Reply {
    match RequestOf(frame)
    case Bad(_) => Refusal(BAD_REQUEST)
    case Good(request) =>
      var path := PathOf(site, request);
      if IsCgi(path) then
        var cgier := ParseCgi(path);
        if !cgier.valid then Refusal(BAD_REQUEST)
        else if cgier.path !in site.files then Refusal(NOT_FOUND)
        else CgiReply(site.cgi(cgier.path, cgier.arguments), request.shouldClose)
      else if path !in site.files then Refusal(NOT_FOUND)
      else FileReply(path, site.files, request.line.method_.GET?, request.shouldClose)
  }

  /** The 400 answer for an invalid CGI request is never given: such a request always parses. */
  lemma CgiAlwaysParses(path: string)
    requires IsCgi(path)
    ensures ParseCgi(path).valid
  {
    assert path != "";
  }

  /** The file that has to exist for a request to be answered with 200. */
  function Needed(site: Site, request: Request): string {
    var path := PathOf(site, request);
    if IsCgi(path) then ParseCgi(path).path else path
  }

  /**
   * 400 exactly for a request that does not parse, 404 exactly for a file or program that is not
   * there, and the connection is kept exactly after a 200 whose request asked for it.
   */
  lemma StatusOfAnswer(site: Site, frame: string)
    ensures var r, parsed := Respond(site, frame), RequestOf(frame);
            && (r.status == BAD_REQUEST <==> parsed.Bad?)
            && (r.status == NOT_FOUND <==> parsed.Good? && Needed(site, parsed.value) !in site.files)
            && (r.status == OK <==> parsed.Good? && Needed(site, parsed.value) in site.files)
            && (!r.close <==> r.status == OK && AsksToKeep(parsed.value.headers))
  {
    assert |OK| == 6 && |BAD_REQUEST| == 15 && |NOT_FOUND| == 13;
    ClosesUnlessKept(frame);
    hide RequestOf;
    if RequestOf(frame).Good? {
      KeepsWhenAsked(RequestOf(frame).value.headers);
      hide AsksToKeep;
      hide AnyKeepsAlive;
      var path := PathOf(site, RequestOf(frame).value);
      if IsCgi(path) {
        CgiAlwaysParses(path);
      }
    }
  }

  lemma ClosesUnlessKept(frame: string)
    ensures RequestOf(frame).Good? ==>
              RequestOf(frame).value.shouldClose == !AnyKeepsAlive(RequestOf(frame).value.headers)
  {
  }

  /** No `&` stands at or after the first `cgi-bin`. */
  ghost predicate Unseparated(path: string)
    requires IsCgi(path)
  {
    forall i: nat :: Find(path, "cgi-bin", 0).value <= i ==> !At(path, "&", i)
  }

  /** A program path and its arguments, joined by `&`, are read back, less one empty last argument. */
  lemma CgiRoundTrip(program: string, arguments: seq<string>)
    requires IsCgi(program) && Unseparated(program)
    requires forall a :: a in arguments ==> Free(a, "&")
    ensures ParseCgi(program + "&" + Joined(arguments, "&")) == Cgier(program, DropEmptyLast(arguments), true)
  {
    var tail := Joined(arguments, "&");
    SeparatorFound(program, tail);
    var path := program + "&" + tail;
    assert path[..|program|] == program && path[|program| + 1..] == tail;
    DelimitersUnbordered();
    SplitJoin(arguments, "&");
    hide Find;
  }

  /** In `program + "&" + tail` the search from the first `cgi-bin` finds that `&`. */
  lemma SeparatorFound(program: string, tail: string)
    requires IsCgi(program) && Unseparated(program)
    ensures var path, from := program + "&" + tail, Find(program, "cgi-bin", 0);
            Find(path, "cgi-bin", 0) == from && Find(path, "&", from.value) == Some(|program|)
  {
    hide Find;
    hide At;
    Regroup(program, "&", tail);
    FindAppend(program, "&" + tail, "cgi-bin");
    FirstSeparator(program, tail, Find(program, "cgi-bin", 0).value);
  }

  lemma FirstSeparator(program: string, tail: string, from: nat)
    requires from <= |program| && forall i: nat :: from <= i ==> !At(program, "&", i)
    ensures Find(program + "&" + tail, "&", from) == Some(|program|)
  {
    hide Find;
    var path := program + "&" + tail;
    assert path == program + ("&" + tail);
    forall i: nat | from <= i < |program|
      ensures !At(path, "&", i)
    {
      AtPrefix(program, "&" + tail, "&", i);
    }
    assert path[|program| + 0] == "&"[0];
    assert At(path, "&", |program|);
    FindFirst(path, "&", from);
  }

  /**
   * What becomes of every CGI path. If an `&` stands at or after the first `cgi-bin`, the first such
   * `&` ends the program and the arguments are the tokens after it; exactly otherwise the program is
   * the whole path, and so are the arguments: its tokens, cut at any `&` before `cgi-bin`.
   */
  lemma CgiArguments(path: string)
    requires IsCgi(path)
    ensures var c := ParseCgi(path);
            && (Unseparated(path) <==> c.path == path)
            && (c.path == path ==> c.arguments == Tokens(path, "&"))
            && (c.path != path ==>
                  && IsCgi(c.path) && Unseparated(c.path) && |c.path| < |path|
                  && path == c.path + "&" + path[|c.path| + 1..]
                  && c.arguments == Tokens(path[|c.path| + 1..], "&"))
  {
    var from := Find(path, "cgi-bin", 0).value;
    FindFirst(path, "&", from);
    match Find(path, "&", from)
    case None =>
    case Some(n) =>
      BeforeSeparator(path, n);
  }

  lemma BeforeSeparator(path: string, n: nat)
    requires IsCgi(path) && Find(path, "&", Find(path, "cgi-bin", 0).value) == Some(n)
    ensures n < |path| && IsCgi(path[..n]) && Unseparated(path[..n]) && path == path[..n] + "&" + path[n + 1..]
  {
    hide Find;
    var from, program := Find(path, "cgi-bin", 0).value, path[..n];
    FindFirst(path, "cgi-bin", 0);
    FindFirst(path, "&", from);
    SeparatorAfter(path, from, n);
    hide At;
    forall i: nat
      ensures At(program, "cgi-bin", i) <==> At(path, "cgi-bin", i) && i + 7 <= n
      ensures At(program, "&", i) <==> At(path, "&", i) && i + 1 <= n
    {
      AtSlice(path, "cgi-bin", 0, n, i);
      AtSlice(path, "&", 0, n, i);
      assert path[0..n] == program;
    }
    FindIs(program, "cgi-bin", from);
  }

  lemma SeparatorAfter(path: string, from: nat, n: nat)
    requires At(path, "cgi-bin", from) && At(path, "&", n) && from <= n
    ensures from + 7 <= n && path == path[..n] + "&" + path[n + 1..]
  {
    assert path[n + 0] == "&"[0];
    forall i | from <= i < from + 7
      ensures path[i] != '&'
    {
      assert path[from + (i - from)] == "cgi-bin"[i - from];
    }
  }

  /** With no `&` at all, the program is given its own path as its only argument. */
  lemma CgiWithoutArguments(program: string)
    requires IsCgi(program) && Free(program, "&")
    ensures ParseCgi(program) == Cgier(program, [program], true)
  {
    CgiArguments(program);
    FindFirst(program, "&", 0);
    CgiAlwaysParses(program);
  }

  /** With an `&` in the directory only, it is given its path cut in two. */
  lemma CgiSplitsDirectory(before: string, after: string)
    requires Free(before, "&") && Free(after, "&") && after != "" && IsCgi(before + "&" + after)
    requires Find(before + "&" + after, "cgi-bin", 0).value > |before|
    ensures var path := before + "&" + after; ParseCgi(path) == Cgier(path, [before, after], true)
  {
    var path := before + "&" + after;
    DelimitersUnbordered();
    forall i: nat | i > |before|
      ensures !At(path, "&", i)
    {
      AtSuffix(before + "&", after, "&", i);
    }
    CgiArguments(path);
    CgiAlwaysParses(path);
    TokensCons(before, "&", after);
    FindFirst(after, "&", 0);
  }

  // ---------------------------------------------------------------- a stream of requests

  datatype Served = Served(replies: seq<Reply>, rest: string, closed: bool)

  /** The replies to the complete requests in `buf`, up to the first that closes. */
  function Serve(site: Site, buf: string): Served
    decreases |buf|
  {
    match PopTill(buf, BLANK_LINE)
    case None => Served([], buf, false)
    case Some((frame, rest)) =>
      var reply := Respond(site, frame);
      if reply.close then Served([reply], rest, true)
      else
        var more := Serve(site, rest);
        Served([reply] + more.replies, more.rest, more.closed)
  }

  /** The bytes of some replies, in order. */
  function Output(replies: seq<Reply>): string {
    if replies == [] then "" else ReplyText(replies[0]) + Output(replies[1..])
  }

  lemma {:induction false} OutputConcat(a: seq<Reply>, b: seq<Reply>)
    ensures Output(a + b) == Output(a) + Output(b)
  {
    if a == [] {
      assert a + b == b;
    } else {
      assert (a + b)[1..] == a[1..] + b;
      OutputConcat(a[1..], b);
      Regroup(ReplyText(a[0]), Output(a[1..]), Output(b));
    }
  }

  /** Serving the input in two pieces is serving it whole. */
  function Continued(first: Served, site: Site, more: string): Served {
    if first.closed then Served(first.replies, first.rest + more, true)
    else
      var next := Serve(site, first.rest + more);
      Served(first.replies + next.replies, next.rest, next.closed)
  }

  lemma {:induction false} ServeInPieces(site: Site, a: string, b: string)
    ensures Serve(site, a + b) == Continued(Serve(site, a), site, b)
    decreases |a|
  {
    match PopTill(a, BLANK_LINE)
    case None =>
      assert [] + Serve(site, a + b).replies == Serve(site, a + b).replies;
    case Some((frame, rest)) =>
      PopTillAppend(a, b, BLANK_LINE);
      if !Respond(site, frame).close {
        ServeInPieces(site, rest, b);
        var first := Serve(site, rest);
        if !first.closed {
          Regroup([Respond(site, frame)], first.replies, Serve(site, first.rest + b).replies);
        }
      }
  }

  // ---------------------------------------------------------------- frames

  /** The complete requests in `buf`, cut at blank lines. */
  function Frames(buf: string): seq<string>
    decreases |buf|
  {
    match PopTill(buf, BLANK_LINE)
    case None => []
    case Some((frame, rest)) => [frame] + Frames(rest)
  }

  /** One reply per request, in order, up to and including the first that closes. */
  ghost predicate Answers(site: Site, s: Served, fs: seq<string>) {
    && |s.replies| <= |fs|
    && (forall i :: 0 <= i < |s.replies| ==> s.replies[i] == Respond(site, fs[i]))
    && (forall i :: 0 <= i < |s.replies| - 1 ==> !s.replies[i].close)
    && (s.closed <==> s.replies != [] && s.replies[|s.replies| - 1].close)
    && (!s.closed ==> |s.replies| == |fs| && Find(s.rest, BLANK_LINE, 0).None?)
  }

  lemma AnswersOneMore(site: Site, frame: string, more: Served, fs: seq<string>)
    requires Answers(site, more, fs) && !Respond(site, frame).close
    ensures Answers(site, Served([Respond(site, frame)] + more.replies, more.rest, more.closed), [frame] + fs)
  {
    hide Respond;
    hide Find;
    var replies, fs' := [Respond(site, frame)] + more.replies, [frame] + fs;
    forall i | 0 <= i < |replies|
      ensures replies[i] == Respond(site, fs'[i]) && (i < |replies| - 1 ==> !replies[i].close)
    {
      if i > 0 {
        assert replies[i] == more.replies[i - 1] && fs'[i] == fs[i - 1];
      }
    }
  }

  lemma {:induction false} OneReplyPerFrame(site: Site, buf: string)
    ensures Answers(site, Serve(site, buf), Frames(buf))
    decreases |buf|
  {
    match PopTill(buf, BLANK_LINE)
    case None =>
    case Some((frame, rest)) =>
      if !Respond(site, frame).close {
        OneReplyPerFrame(site, rest);
        AnswersOneMore(site, frame, Serve(site, rest), Frames(rest));
      }
  }

  /** Requests printed one after the other come out of the stream as they went in. */
  lemma {:induction false} FramesOfHeads(texts: seq<seq<string>>, tail: string)
    requires forall ls :: ls in texts ==> LineBlock(ls)
    requires Find(tail, BLANK_LINE, 0).None?
    ensures Frames(Blocks(texts) + tail) == BlockTexts(texts)
    decreases |texts|
  {
    if texts == [] {
      assert Blocks(texts) + tail == tail;
    } else {
      var first, rest := BlockText(texts[0]), Blocks(texts[1..]) + tail;
      Regroup(first, Blocks(texts[1..]), tail);
      FirstBlankLine(texts[0], rest);
      assert (first + rest)[..|first|] == first && (first + rest)[|first|..] == rest;
      FramesOfHeads(texts[1..], tail);
    }
  }

  function BlockTexts(texts: seq<seq<string>>): seq<string> {
    if texts == [] then [] else [BlockText(texts[0])] + BlockTexts(texts[1..])
  }

  function Blocks(texts: seq<seq<string>>): string {
    if texts == [] then "" else BlockText(texts[0]) + Blocks(texts[1..])
  }

  /** No request cut from the stream is refused for its format. */
  lemma {:induction false} FramesWellFormed(buf: string)
    ensures forall f :: f in Frames(buf) ==> RequestOf(f) != Bad(BadFormat)
    decreases |buf|
  {
    match PopTill(buf, BLANK_LINE)
    case None =>
    case Some((frame, rest)) =>
      PoppedIsCut(buf, BLANK_LINE);
      CutIsWellFormed(frame);
      FramesWellFormed(rest);
  }

  // ---------------------------------------------------------------- replies on the wire

  /** A HEAD request for which a CGI program runs and prints something: the code sends the output all the same. */
  predicate HeadPrints(site: Site, frame: string) {
    var parsed := RequestOf(frame);
    && parsed.Good? && parsed.value.line.method_.HEAD?
    && var path := PathOf(site, parsed.value);
       var cgier := ParseCgi(path);
       IsCgi(path) && cgier.path in site.files && site.cgi(cgier.path, cgier.arguments) != ""
  }

  /** A HEAD request on a file that is there and is not a CGI program. */
  predicate HeadOnFile(site: Site, frame: string) {
    var parsed := RequestOf(frame);
    && parsed.Good? && parsed.value.line.method_.HEAD?
    && !IsCgi(PathOf(site, parsed.value)) && PathOf(site, parsed.value) in site.files
  }

  /** A client expects no body after a HEAD request that was understood. */
  predicate Bodiless(site: Site, frame: string) {
    RequestOf(frame).Good? && RequestOf(frame).value.line.method_.HEAD?
  }

  /**
   * Every reply has one Connection field, which says `Close` exactly when the reply is the last one
   * and `Keep-Alive` exactly when the server goes on.
   */
  lemma CloseIsAnnounced(site: Site, frame: string)
    ensures var r := Respond(site, frame);
            && (Header("Connection", "Close") in r.headers <==> r.close)
            && (Header("Connection", "Keep-Alive") in r.headers <==> !r.close)
            && exists i :: OnlyAt(r.headers, "Connection", i)
  {
    hide RequestOf;
    var r := Respond(site, frame);
    ConnectionIsSecond(r.close, None, map[]);
    if RequestOf(frame).Good? {
      var path := PathOf(site, RequestOf(frame).value);
      ConnectionIsSecond(r.close, Some(path), site.files);
      CgiHeaders(r.close, |site.cgi(ParseCgi(path).path, ParseCgi(path).arguments)|);
    }
    OnlyConnection(r.headers, r.close);
  }

  /** The field at `i` has that key, and no other has. */
  ghost predicate OnlyAt(hs: seq<Header>, key: string, i: nat) {
    i < |hs| && forall j :: 0 <= j < |hs| ==> (hs[j].key == key <==> j == i)
  }

  lemma OnlyConnection(hs: seq<Header>, close: bool)
    requires |hs| > 2 && hs[1] == Header("Connection", if close then "Close" else "Keep-Alive")
    requires forall i :: 0 <= i < |hs| && hs[i].key == "Connection" ==> i == 1
    ensures Header("Connection", "Close") in hs <==> close
    ensures Header("Connection", "Keep-Alive") in hs <==> !close
    ensures OnlyAt(hs, "Connection", 1)
  {
    assert "Close"[0] != "Keep-Alive"[0];
    assert hs[1] in hs;
  }

  /** What is sent for a refused request, line by line. */
  lemma RefusalPrinted(status: string)
    ensures ReplyText(Refusal(status)) ==
            BlockText(["HTTP/1.1 " + status, "Server:Falonlink/1.0", "Connection:Close", "Content-Length:0"])
  {
    var hs := ResponseHeaders(true, None, map[]);
    assert Decimal(0) == "0" && "Content-Length:" + "0" == "Content-Length:0";
    BasePrinted(true, [Header(CONTENT_LENGTH, Decimal(0))]);
    LengthPrinted(0, []);
    assert [Header(CONTENT_LENGTH, Decimal(0))] + [] == [Header(CONTENT_LENGTH, Decimal(0))];
    HeadLines(StatusLine(status), hs);
    assert StatusLine(status) == "HTTP/1.1 " + status;
    assert [StatusLine(status)] + HeaderLines(hs) ==
           ["HTTP/1.1 " + status, "Server:Falonlink/1.0", "Connection:Close", "Content-Length:0"];
    assert ReplyText(Refusal(status)) == HeadText(StatusLine(status), hs) + "";
  }

  function Announced(close: bool): string {
    if close then "Connection:Close" else "Connection:Keep-Alive"
  }

  lemma CgiPrinted(output: string, close: bool)
    ensures ReplyText(CgiReply(output, close)) ==
            BlockText(["HTTP/1.1 200 OK", "Server:Falonlink/1.0", Announced(close), "Content-Length:" + Decimal(|output|)])
            + output
  {
    hide BlockText;
    hide HeadText;
    hide ResponseHeaders;
    hide BaseHeaders;
    hide Changed;
    hide Decimal;
    hide Announced;
    CgiHeaders(close, |output|);
    OkLines(close, |output|, []);
    NoneMore([Header(CONTENT_LENGTH, Decimal(|output|))]);
    NoneMore(["HTTP/1.1 200 OK", "Server:Falonlink/1.0", Announced(close), "Content-Length:" + Decimal(|output|)]);
  }

  lemma FourAndMore<T>(a: T, b: T, c: T, d: T, more: seq<T>)
    ensures [a] + ([b, c] + ([d] + more)) == [a, b, c, d] + more
  {
  }

  lemma NoneMore<T>(s: seq<T>)
    ensures s + [] == s
  {
  }

  /** The head of a 200 answer. */
  lemma OkLines(close: bool, n: nat, types: seq<Header>)
    ensures HeadText(StatusLine(OK), BaseHeaders(close) + ([Header(CONTENT_LENGTH, Decimal(n))] + types)) ==
            BlockText(["HTTP/1.1 200 OK", "Server:Falonlink/1.0", Announced(close), "Content-Length:" + Decimal(n)]
                      + HeaderLines(types))
  {
    var more := [Header(CONTENT_LENGTH, Decimal(n))] + types;
    BasePrinted(close, more);
    LengthPrinted(n, types);
    HeadLines(StatusLine(OK), BaseHeaders(close) + more);
    assert StatusLine(OK) == "HTTP/1.1 200 OK";
    FourAndMore("HTTP/1.1 200 OK", "Server:Falonlink/1.0", Announced(close), "Content-Length:" + Decimal(n), HeaderLines(types));
    hide BlockText;
    hide HeadText;
    hide StatusLine;
    hide Decimal;
    hide BaseHeaders;
    hide HeaderLines;
  }

  lemma FilePrinted(path: string, files: Files, withBody: bool, close: bool)
    requires path in files
    ensures exists types | TypeLines(path, types) ::
              ReplyText(FileReply(path, files, withBody, close)) ==
              BlockText(["HTTP/1.1 200 OK", "Server:Falonlink/1.0", Announced(close), "Content-Length:" + Decimal(|files[path]|)]
                        + types) + if withBody then files[path] else ""
  {
    TypeHeadersPrinted(path);
    OkLines(close, |files[path]|, TypeHeaders(path));
    hide BlockText;
    hide Decimal;
    hide TypeHeaders;
    assert FileReply(path, files, withBody, close).headers ==
           BaseHeaders(close) + ([Header(CONTENT_LENGTH, Decimal(|files[path]|))] + TypeHeaders(path));
    hide BaseHeaders;
    hide HeadText;
    hide TypeLines;
  }

  /** Every reply, byte by byte, and what of the request decides it. */
  lemma RespondPrinted(site: Site, frame: string)
    ensures var text := ReplyText(Respond(site, frame));
            match RequestOf(frame)
            case Bad(_) =>
              text == BlockText(["HTTP/1.1 400 Bad Request", "Server:Falonlink/1.0", "Connection:Close", "Content-Length:0"])
            case Good(request) =>
              var path, c := PathOf(site, request), ParseCgi(PathOf(site, request));
              if Needed(site, request) !in site.files then
                text == BlockText(["HTTP/1.1 404 Not Found", "Server:Falonlink/1.0", "Connection:Close", "Content-Length:0"])
              else if IsCgi(path) then
                text == BlockText(["HTTP/1.1 200 OK", "Server:Falonlink/1.0",
                                   Announced(!AsksToKeep(request.headers)),
                                   "Content-Length:" + Decimal(|site.cgi(c.path, c.arguments)|)])
                        + site.cgi(c.path, c.arguments)
              else
                exists types | TypeLines(path, types) ::
                  text == BlockText(["HTTP/1.1 200 OK", "Server:Falonlink/1.0",
                                     Announced(!AsksToKeep(request.headers)),
                                     "Content-Length:" + Decimal(|site.files[path]|)] + types)
                          + if request.line.method_.GET? then site.files[path] else ""
  {
    ClosesUnlessKept(frame);
    hide RequestOf;
    hide ReplyText;
    hide BlockText;
    hide TypeLines;
    match RequestOf(frame)
    case Bad(_) =>
      RefusalPrinted(BAD_REQUEST);
      assert "HTTP/1.1 " + BAD_REQUEST == "HTTP/1.1 400 Bad Request";
    case Good(request) =>
      KeepsWhenAsked(request.headers);
      hide AsksToKeep;
      hide AnyKeepsAlive;
      var path, c := PathOf(site, request), ParseCgi(PathOf(site, request));
      RefusalPrinted(NOT_FOUND);
      assert "HTTP/1.1 " + NOT_FOUND == "HTTP/1.1 404 Not Found";
      if IsCgi(path) {
        CgiAlwaysParses(path);
        CgiPrinted(site.cgi(c.path, c.arguments), request.shouldClose);
      } else if path in site.files {
        FilePrinted(path, site.files, request.line.method_.GET?, request.shouldClose);
      }
  }

  lemma CgiHeaders(close: bool, n: nat)
    ensures Changed(ResponseHeaders(close, None, map[]), CONTENT_LENGTH, Decimal(n)) ==
            BaseHeaders(close) + [Header(CONTENT_LENGTH, Decimal(n))]
  {
    var hs := ResponseHeaders(close, None, map[]);
    ChangedAt(hs, CONTENT_LENGTH, Decimal(n), 2);
  }

  lemma CgiFramed(output: string, close: bool)
    ensures Framed(CgiReply(output, close), false)
    ensures Framed(CgiReply(output, close), true) <==> output == ""
  {
    CgiHeaders(close, |output|);
    BaseHeadersGood(close);
    LengthHeaderGood(|output|);
    var last := [Header(CONTENT_LENGTH, Decimal(|output|))];
    assert last[1..] == [];
    LengthsConcat(BaseHeaders(close), last);
  }

  lemma RefusalFramed(status: string)
    requires status == BAD_REQUEST || status == NOT_FOUND
    ensures Framed(Refusal(status), false) && Framed(Refusal(status), true)
  {
    ResponseHeadersGood(true, None, map[]);
    LengthHeaderGood(0);
    assert Decimal(0) == "0";
  }

  lemma FileFramed(path: string, files: Files, withBody: bool, close: bool)
    requires path in files
    ensures Framed(FileReply(path, files, withBody, close), !withBody)
  {
    ResponseHeadersGood(close, Some(path), files);
    LengthHeaderGood(|files[path]|);
  }

  /**
   * The only Content-Length of every reply is the number of bytes that follow its head, except for a
   * HEAD request on a file, where it is the length of the file and no byte follows.
   */
  lemma ContentLengthIsExact(site: Site, frame: string)
    ensures Framed(Respond(site, frame), HeadOnFile(site, frame))
  {
    hide RequestOf;
    hide Framed;
    match RequestOf(frame)
    case Bad(_) =>
      RefusalFramed(BAD_REQUEST);
    case Good(request) =>
      var path := PathOf(site, request);
      RefusalFramed(NOT_FOUND);
      if IsCgi(path) {
        CgiAlwaysParses(path);
        var cgier := ParseCgi(path);
        CgiFramed(site.cgi(cgier.path, cgier.arguments), request.shouldClose);
      } else if path in site.files {
        MethodSupported(frame);
        FileFramed(path, site.files, request.line.method_.GET?, request.shouldClose);
      }
  }

  lemma MethodSupported(frame: string)
    ensures RequestOf(frame).Good? ==> !RequestOf(frame).value.line.method_.UnsupportedMethod?
  {
    hide Tokens;
  }

  /**
   * A client that expects no body after HEAD, and otherwise as many bytes as the only Content-Length
   * says, is right about every reply but those to a HEAD request that made a CGI program print.
   */
  lemma RepliesAreFramed(site: Site, frame: string)
    ensures Framed(Respond(site, frame), Bodiless(site, frame)) <==> !HeadPrints(site, frame)
  {
    ContentLengthIsExact(site, frame);
    hide RequestOf;
    match RequestOf(frame)
    case Bad(_) =>
    case Good(request) =>
      var path := PathOf(site, request);
      RefusalFramed(NOT_FOUND);
      if IsCgi(path) {
        CgiAlwaysParses(path);
        var cgier := ParseCgi(path);
        CgiFramed(site.cgi(cgier.path, cgier.arguments), request.shouldClose);
      }
      hide Framed;
  }

  /** What the client is meant to receive. */
  function Intended(r: Reply): Received {
    Received(StatusLine(r.status), r.headers, r.body)
  }

  /**
   * A client that follows section 6.3 of RFC 9112 gets the reply and finds the next one where it
   * starts, exactly when the request was not a HEAD that made a CGI program print something.
   */
  lemma ClientReadsReply(site: Site, frame: string, rest: string)
    ensures var r := Respond(site, frame);
            ReadReply(ReplyText(r) + rest, Bodiless(site, frame)) == Some((Intended(r), rest)) <==>
            !HeadPrints(site, frame)
  {
    hide Framed;
    hide ReadReply;
    var r := Respond(site, frame);
    RepliesAreFramed(site, frame);
    if HeadPrints(site, frame) {
      HeadCgiMisread(site, frame, rest);
    } else {
      hide Respond;
      ReadFramed(r, Bodiless(site, frame), rest);
    }
  }

  /** Otherwise the program's output is left in the stream as if it began the next reply. */
  lemma HeadCgiMisread(site: Site, frame: string, rest: string)
    requires HeadPrints(site, frame)
    ensures var r := Respond(site, frame);
            r.body != "" &&
            ReadReply(ReplyText(r) + rest, true) == Some((Intended(r.(body := "")), r.body + rest))
  {
    hide RequestOf;
    hide ReadReply;
    var r := Respond(site, frame);
    var request := RequestOf(frame).value;
    var cgier := ParseCgi(PathOf(site, request));
    CgiAlwaysParses(PathOf(site, request));
    var output := site.cgi(cgier.path, cgier.arguments);
    CgiFramed(output, request.shouldClose);
    var head := r.(body := "");
    ReadFramed(head, true, r.body + rest);
    assert ReplyText(head) + (r.body + rest) == ReplyText(r) + rest;
  }

  /** The client reads one reply for each request it sent. */
  function ReadReplies(stream: string, bodiless: seq<bool>): Option<(seq<Received>, string)> {
    if bodiless == [] then Some(([], stream))
    else match ReadReply(stream, bodiless[0])
      case None => None
      case Some((first, rest)) =>
        match ReadReplies(rest, bodiless[1..])
        case None => None
        case Some((others, left)) => Some(([first] + others, left))
  }

  function AllIntended(replies: seq<Reply>): seq<Received> {
    if replies == [] then [] else [Intended(replies[0])] + AllIntended(replies[1..])
  }

  function AllBodiless(site: Site, frames: seq<string>): seq<bool> {
    if frames == [] then [] else [Bodiless(site, frames[0])] + AllBodiless(site, frames[1..])
  }

  /** No request of `frames` is a HEAD that made a CGI program print something. */
  ghost predicate NonePrints(site: Site, frames: seq<string>) {
    forall i :: 0 <= i < |frames| ==> !HeadPrints(site, frames[i])
  }

  lemma NonePrintsCons(site: Site, frames: seq<string>)
    requires frames != []
    ensures NonePrints(site, frames) <==> !HeadPrints(site, frames[0]) && NonePrints(site, frames[1..])
  {
    hide HeadPrints;
    assert forall i :: 0 < i < |frames| ==> frames[i] == frames[1..][i - 1];
  }

  /** The client gets every reply in full exactly when none of them answers a HEAD with a program's output. */
  lemma {:induction false} ReadsInOrder(site: Site, replies: seq<Reply>, frames: seq<string>, tail: string)
    requires |replies| == |frames|
    requires forall i :: 0 <= i < |frames| ==> replies[i] == Respond(site, frames[i])
    ensures ReadReplies(Output(replies) + tail, AllBodiless(site, frames)) == Some((AllIntended(replies), tail)) <==>
            NonePrints(site, frames)
    decreases |replies|
  {
    hide HeadPrints;
    hide Bodiless;
    hide Respond;
    hide ReadReply;
    hide ReplyText;
    if replies == [] {
      assert Output(replies) + tail == tail;
    } else {
      var rest := Output(replies[1..]) + tail;
      Regroup(ReplyText(replies[0]), Output(replies[1..]), tail);
      NonePrintsCons(site, frames);
      hide NonePrints;
      assert AllBodiless(site, frames)[1..] == AllBodiless(site, frames[1..]);
      ClientReadsReply(site, frames[0], rest);
      if HeadPrints(site, frames[0]) {
        FirstIsMisread(site, replies, frames, rest, tail);
      } else {
        ReadsInOrder(site, replies[1..], frames[1..], tail);
        assert AllIntended(replies)[1..] == AllIntended(replies[1..]);
      }
    }
  }

  lemma FirstIsMisread(site: Site, replies: seq<Reply>, frames: seq<string>, rest: string, tail: string)
    requires |replies| == |frames| > 0 && replies[0] == Respond(site, frames[0]) && HeadPrints(site, frames[0])
    ensures ReadReplies(ReplyText(replies[0]) + rest, AllBodiless(site, frames)) != Some((AllIntended(replies), tail))
  {
    hide RequestOf;
    hide Respond;
    hide ReadReply;
    hide ReplyText;
    HeadCgiMisread(site, frames[0], rest);
    var stream, bodiless := ReplyText(replies[0]) + rest, AllBodiless(site, frames);
    assert bodiless != [] && bodiless[0];
    FirstRead(stream, bodiless);
    assert AllIntended(replies)[0].body == replies[0].body;
  }

  lemma FirstRead(stream: string, bodiless: seq<bool>)
    requires bodiless != []
    ensures var all, one := ReadReplies(stream, bodiless), ReadReply(stream, bodiless[0]);
            all.Some? ==> one.Some? && all.value.0 != [] && all.value.0[0] == one.value.0
  {
    hide ReadReply;
  }

  /**
   * The whole exchange: whatever a client pipelines, it reads back, in order and each at full length,
   * the answer to every request the server took, with nothing left over, exactly when none of the
   * requests answered is a HEAD that made a CGI program print something.
   */
  lemma ClientReadsStream(site: Site, input: string)
    ensures var s, frames := Serve(site, input), Frames(input);
            |s.replies| <= |frames| &&
            (ReadReplies(Output(s.replies), AllBodiless(site, frames[..|s.replies|])) == Some((AllIntended(s.replies), ""))
             <==> NonePrints(site, frames[..|s.replies|]))
  {
    OneReplyPerFrame(site, input);
    var s := Serve(site, input);
    assert Output(s.replies) + "" == Output(s.replies);
    ReadsInOrder(site, s.replies, Frames(input)[..|s.replies|], "");
  }
}
