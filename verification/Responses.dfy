/** Responses (falconlink/http/response.cpp), and how a client takes them off a byte stream. */
module Responses {
  import opened Options
  import opened Text
  import opened Requests

  /** The files on disk, by full path; they do not change while the server runs. */
  type Files = map<string, string>

  const OK := "200 OK"
  const BAD_REQUEST := "400 Bad Request"
  const NOT_FOUND := "404 Not Found"
  const CONTENT_LENGTH := "Content-Length"

  // ---------------------------------------------------------------- decimal numbers

  function Digit(n: nat): char
    requires n < 10
  {
    ('0' as int + n) as char
  }

  /** `std::to_string` of a size. */
  function Decimal(n: nat): string {
    if n < 10 then [Digit(n)] else Decimal(n / 10) + [Digit(n % 10)]
  }

  predicate AllDigits(s: string) {
    s != "" && forall c :: c in s ==> '0' <= c <= '9'
  }

  function DigitValue(c: char): nat {
    if '0' <= c <= '9' then c as int - '0' as int else 0
  }

  function FromDecimal(s: string): nat {
    if s == "" then 0 else FromDecimal(s[..|s| - 1]) * 10 + DigitValue(s[|s| - 1])
  }

  lemma {:induction false} DecimalRoundTrip(n: nat)
    ensures AllDigits(Decimal(n)) && FromDecimal(Decimal(n)) == n
  {
    var s := Decimal(n);
    if n < 10 {
      assert s[..0] == "";
    } else {
      DecimalRoundTrip(n / 10);
      assert s[..|s| - 1] == Decimal(n / 10);
      assert s[|s| - 1] == Digit(n % 10);
    }
  }

  // ---------------------------------------------------------------- headers of a response

  function LastOf(s: string, c: char): Option<nat>
    ensures LastOf(s, c).Some? ==> LastOf(s, c).value < |s|
  {
    if s == "" then None else if s[|s| - 1] == c then Some(|s| - 1) else LastOf(s[..|s| - 1], c)
  }

  /** `toExtension` followed by `ExtensionToMime`. */
  function Mime(extension: string): string {
    var e := Format(extension);
    if e == "HTML" then "text/html"
    else if e == "CSS" then "text/css"
    else if e == "PNG" then "image/png"
    else if e == "JPG" then "image/jpg"
    else if e == "JPEG" then "image/jpeg"
    else if e == "GIF" then "image/gif"
    else "application/octet-stream"
  }

  function StatusLine(status: string): string {
    "HTTP/1.1" + " " + status
  }

  function ConnectionValue(close: bool): string {
    if close then "Close" else "Keep-Alive"
  }

  function BaseHeaders(close: bool): seq<Header> {
    [Header("Server", "Falonlink/1.0"), Header("Connection", ConnectionValue(close))]
  }

  function TypeHeaders(path: string): seq<Header> {
    match LastOf(path, '.')
    case Some(dot) => [Header("Content-Type", Mime(path[dot + 1..]))]
    case None => []
  }

  /** The headers after the first two: one Content-Length, perhaps a Content-Type. */
  function LengthHeaders(resource: Option<string>, files: Files): seq<Header> {
    if resource.Some? && resource.value in files then
      [Header(CONTENT_LENGTH, Decimal(|files[resource.value]|))] + TypeHeaders(resource.value)
    else [Header(CONTENT_LENGTH, "0")]
  }

  /** The headers the constructor adds, in order. */
  function ResponseHeaders(close: bool, resource: Option<string>, files: Files): seq<Header> {
    BaseHeaders(close) + LengthHeaders(resource, files)
  }

  /** `hs` with the first header of that key given a new value. */
  function Changed(hs: seq<Header>, key: string, value: string): seq<Header> {
    if hs == [] then []
    else if hs[0].key == key then [Header(key, value)] + hs[1..]
    else [hs[0]] + Changed(hs[1..], key, value)
  }

  class Response {
    var statusLine: string
    var shouldClose: bool
    var headers: seq<Header>
    var resourceUrl: Option<string>

    constructor (status: string, close: bool, resource: Option<string>, files: Files)
      ensures statusLine == StatusLine(status) && shouldClose == close
      ensures headers == ResponseHeaders(close, resource, files)
      ensures resourceUrl == if resource.Some? && resource.value in files then resource else None
    {
      shouldClose := close;
      resourceUrl := resource;
      statusLine := "HTTP/1.1" + " " + status;
      var hs := [Header("Server", "Falonlink/1.0")];
      hs := hs + [Header("Connection", if close then "Close" else "Keep-Alive")];
      if resource.Some? && resource.value in files {
        hs := hs + [Header(CONTENT_LENGTH, Decimal(|files[resource.value]|))];
        var lastDot := LastOf(resource.value, '.');
        if lastDot.Some? {
          hs := hs + [Header("Content-Type", Mime(resource.value[lastDot.value + 1..]))];
        }
      } else {
        resourceUrl := None;
        hs := hs + [Header(CONTENT_LENGTH, "0")];
      }
      headers := hs;
    }

    method Serialize(buffer: string) returns (r: string)
      ensures r == buffer + HeadText(statusLine, headers)
    {
      var head := statusLine + CRLF;
      assert headers[0..] == headers;
      for i := 0 to |headers|
        invariant head + SerializeAll(headers[i..]) == statusLine + CRLF + SerializeAll(headers)
      {
        assert headers[i..][1..] == headers[i + 1..];
        Regroup(head, Requests.Serialize(headers[i]), SerializeAll(headers[i + 1..]));
        head := head + Requests.Serialize(headers[i]);
      }
      assert head + SerializeAll(headers[|headers|..]) == head;
      head := head + CRLF;
      r := buffer + head;
    }

    method ChangeHeader(key: string, value: string) returns (changed: bool)
      modifies this`headers
      ensures headers == Changed(old(headers), key, value)
      ensures changed <==> exists h :: h in old(headers) && h.key == key
    {
      for i := 0 to |headers|
        invariant headers == old(headers)
        invariant forall j :: 0 <= j < i ==> headers[j].key != key
        invariant Changed(headers, key, value) == headers[..i] + Changed(headers[i..], key, value)
      {
        ChangedStep(headers, key, value, i);
        hide Changed;
        if headers[i].key == key {
          headers := headers[i := Header(key, value)];
          return true;
        }
      }
      return false;
    }
  }

  lemma ChangedStep(hs: seq<Header>, key: string, value: string, i: nat)
    requires i < |hs|
    ensures hs[..i] + Changed(hs[i..], key, value) ==
            if hs[i].key == key then hs[i := Header(key, value)]
            else hs[..i + 1] + Changed(hs[i + 1..], key, value)
  {
    var rest := hs[i + 1..];
    assert hs[i..] == [hs[i]] + rest && hs[i..][1..] == rest;
    if hs[i].key == key {
      assert hs[i := Header(key, value)] == hs[..i] + ([Header(key, value)] + rest);
    } else {
      Regroup(hs[..i], [hs[i]], Changed(rest, key, value));
      assert hs[..i] + [hs[i]] == hs[..i + 1];
    }
    hide Changed;
  }

  /** After a change, the first header of that key carries the value and everything else is as it was. */
  lemma {:induction false} ChangedAt(hs: seq<Header>, key: string, value: string, n: nat)
    requires n < |hs| && hs[n].key == key && forall i :: 0 <= i < n ==> hs[i].key != key
    ensures Changed(hs, key, value) == hs[n := Header(key, value)]
  {
    if n > 0 {
      ChangedAt(hs[1..], key, value, n - 1);
      assert hs[n := Header(key, value)] == [hs[0]] + hs[1..][n - 1 := Header(key, value)];
    } else {
      assert hs[0 := Header(key, value)] == [Header(key, value)] + hs[1..];
    }
  }

  // ---------------------------------------------------------------- what is printed

  /** The text after the last `c`, if there is one. */
  lemma {:induction false} LastOfIsLast(s: string, c: char)
    ensures LastOf(s, c).Some? <==> c in s
    ensures LastOf(s, c).Some? ==> s[LastOf(s, c).value] == c && c !in s[LastOf(s, c).value + 1..]
    decreases |s|
  {
    if s != "" && s[|s| - 1] != c {
      var init := s[..|s| - 1];
      LastOfIsLast(init, c);
      assert s == init + [s[|s| - 1]];
      if LastOf(init, c).Some? {
        var n := LastOf(init, c).value;
        assert s[n + 1..] == init[n + 1..] + [s[|s| - 1]];
      }
    }
  }

  /** The types by file extension, which may be in any case and have blanks around it. */
  lemma MimeTable(e: string)
    ensures Mime(e) == "text/html" <==> Says(e, "HTML")
    ensures Mime(e) == "text/css" <==> Says(e, "CSS")
    ensures Mime(e) == "image/png" <==> Says(e, "PNG")
    ensures Mime(e) == "image/jpg" <==> Says(e, "JPG")
    ensures Mime(e) == "image/jpeg" <==> Says(e, "JPEG")
    ensures Mime(e) == "image/gif" <==> Says(e, "GIF")
    ensures Mime(e) == "application/octet-stream" <==>
            forall w :: w in ["HTML", "CSS", "PNG", "JPG", "JPEG", "GIF"] ==> !Says(e, w)
  {
    FormatSays(e, "HTML");
    FormatSays(e, "CSS");
    FormatSays(e, "PNG");
    FormatSays(e, "JPG");
    FormatSays(e, "JPEG");
    FormatSays(e, "GIF");
    hide Format;
    hide Says;
    MimesDiffer();
  }

  lemma MimesDiffer()
    ensures "text/html"[5] == 'h' && "text/css"[5] == 'c'
    ensures "image/png"[6] == 'p' && "image/jpg"[6] == 'j' && "image/jpeg"[8] == 'e' && "image/gif"[6] == 'g'
  {
  }

  /** The header line for the type of the file at `path`: that of the text after its last dot. */
  ghost predicate TypeLines(path: string, lines: seq<string>) {
    if '.' !in path then lines == []
    else exists stem: string, e: string :: path == stem + "." + e && '.' !in e && lines == ["Content-Type:" + Mime(e)]
  }

  lemma TypeHeadersPrinted(path: string)
    ensures TypeLines(path, HeaderLines(TypeHeaders(path)))
  {
    LastOfIsLast(path, '.');
    match LastOf(path, '.')
    case None =>
    case Some(dot) =>
      var stem, e := path[..dot], path[dot + 1..];
      assert path == stem + "." + e;
      assert TypeHeaders(path)[1..] == [];
      assert HeaderLine(TypeHeaders(path)[0]) == "Content-Type:" + Mime(e) by {
        assert "Content-Type" + ":" == "Content-Type:";
      }
      hide Mime;
      hide HeaderLine;
      assert HeaderLines(TypeHeaders(path)) == ["Content-Type:" + Mime(e)];
  }

  /** A head, line by line. */
  lemma HeadLines(startLine: string, hs: seq<Header>)
    ensures HeadText(startLine, hs) == BlockText([startLine] + HeaderLines(hs))
  {
    SerializeAllLines(hs);
    assert ([startLine] + HeaderLines(hs))[1..] == HeaderLines(hs);
  }

  /** The first two header lines. */
  lemma BasePrinted(close: bool, more: seq<Header>)
    ensures HeaderLines(BaseHeaders(close) + more) ==
            ["Server:Falonlink/1.0", if close then "Connection:Close" else "Connection:Keep-Alive"] + HeaderLines(more)
  {
    var hs := BaseHeaders(close) + more;
    assert hs[1..][1..] == more;
    assert HeaderLine(hs[0]) == "Server:Falonlink/1.0";
    assert HeaderLine(hs[1]) == if close then "Connection:Close" else "Connection:Keep-Alive";
    hide HeaderLine;
    assert HeaderLines(hs) == [HeaderLine(hs[0])] + ([HeaderLine(hs[1])] + HeaderLines(more));
  }

  lemma LengthPrinted(n: nat, more: seq<Header>)
    ensures HeaderLines([Header(CONTENT_LENGTH, Decimal(n))] + more) == ["Content-Length:" + Decimal(n)] + HeaderLines(more)
  {
    var hs := [Header(CONTENT_LENGTH, Decimal(n))] + more;
    assert hs[1..] == more;
    assert CONTENT_LENGTH + ":" == "Content-Length:";
  }

  // ---------------------------------------------------------------- reading a response

  datatype Reply = Reply(status: string, headers: seq<Header>, body: string, close: bool)

  function ReplyText(r: Reply): string {
    HeadText(StatusLine(r.status), r.headers) + r.body
  }

  datatype Received = Received(statusLine: string, headers: seq<Header>, body: string)

  /** The values of the Content-Length fields. */
  function Lengths(hs: seq<Header>): seq<string> {
    if hs == [] then []
    else (if hs[0].key == CONTENT_LENGTH then [hs[0].value] else []) + Lengths(hs[1..])
  }

  /**
   * A client reading one response (section 6.3 of RFC 9112): the head ends at the first blank line,
   * and the body has the length of its only Content-Length, or none if the request was a HEAD.
   */
  function ReadReply(stream: string, bodiless: bool): Option<(Received, string)> {
    match Find(stream, BLANK_LINE, 0)
    case None => None
    case Some(n) =>
      var lines := Tokens(stream[..n + 4], CRLF);
      if |lines| < 2 then None
      else match HeadersOf(lines[1..|lines| - 1])
        case Bad(_) => None
        case Good(hs) =>
          if |Lengths(hs)| != 1 || !AllDigits(Lengths(hs)[0]) then None
          else
            var end := n + 4 + if bodiless then 0 else FromDecimal(Lengths(hs)[0]);
            if end > |stream| then None
            else Some((Received(lines[0], hs, stream[n + 4..end]), stream[end..]))
  }

  /** The headers are readable and hold one Content-Length: that of the body, or of one not sent. */
  ghost predicate Framed(r: Reply, bodiless: bool) {
    && '\r' !in r.status
    && (forall h :: h in r.headers ==> GoodHeader(h))
    && |Lengths(r.headers)| == 1
    && AllDigits(Lengths(r.headers)[0])
    && |r.body| == if bodiless then 0 else FromDecimal(Lengths(r.headers)[0])
  }

  /** A framed reply is read back whole, and what follows it is left for the next read. */
  lemma ReadFramed(r: Reply, bodiless: bool, rest: string)
    requires Framed(r, bodiless)
    ensures ReadReply(ReplyText(r) + rest, bodiless) ==
            Some((Received(StatusLine(r.status), r.headers, r.body), rest))
  {
    var line := StatusLine(r.status);
    var head := HeadText(line, r.headers);
    var stream := ReplyText(r) + rest;
    Regroup(head, r.body, rest);
    NoReturnIsFree(line);
    HeadIsBlock(line, r.headers);
    FirstBlankLine([line] + HeaderLines(r.headers), r.body + rest);
    hide HeadText;
    hide BlockText;
    hide Find;
    hide Tokens;
    hide HeadersOf;
    hide Lengths;
    assert stream[..|head|] == head;
    ReadHead(line, r.headers);
    assert stream[|head|..|head| + |r.body|] == r.body;
    assert stream[|head| + |r.body|..] == rest;
  }

  lemma ReadHead(line: string, hs: seq<Header>)
    requires Free(line, CRLF) && forall h :: h in hs ==> GoodHeader(h)
    ensures var lines := Tokens(HeadText(line, hs), CRLF);
            |lines| >= 2 && lines[0] == line && HeadersOf(lines[1..|lines| - 1]) == Good(hs)
  {
    HeadIsBlock(line, hs);
    TokensOfBlock([line] + HeaderLines(hs));
    var lines := Tokens(HeadText(line, hs), CRLF);
    assert lines[1..|lines| - 1] == HeaderLines(hs);
    HeadersRoundTrip(hs);
  }

  // ---------------------------------------------------------------- the headers the server writes

  lemma NoReturnIsFree(s: string)
    requires '\r' !in s
    ensures Free(s, CRLF)
  {
    forall i: nat
      ensures !At(s, CRLF, i)
    {
      if i + 2 <= |s| {
        assert s[i + 0] in s && CRLF[0] == '\r';
      }
    }
  }

  lemma PlainHeaderIsGood(h: Header)
    requires ':' !in h.key && '\r' !in h.key && h.value != ""
    requires forall c :: c in h.value ==> c != '\r' && c != ':'
    ensures GoodHeader(h)
  {
    NoCharIsFree(h.key, ':');
    NoReturnIsFree(HeaderLine(h));
    var last := h.value[|h.value| - 1..];
    assert last[0] == h.value[|h.value| - 1] && last[0] in h.value;
    assert last[0] != ":"[0];
  }

  lemma MimeIsPlain(e: string)
    ensures Mime(e) != "" && forall c :: c in Mime(e) ==> c != '\r' && c != ':'
  {
  }

  lemma LengthHeaderGood(n: nat)
    ensures GoodHeader(Header(CONTENT_LENGTH, Decimal(n)))
    ensures AllDigits(Decimal(n)) && FromDecimal(Decimal(n)) == n
  {
    DecimalRoundTrip(n);
    PlainHeaderIsGood(Header(CONTENT_LENGTH, Decimal(n)));
  }

  lemma LengthHeadersGood(resource: Option<string>, files: Files)
    ensures forall h :: h in LengthHeaders(resource, files) ==> GoodHeader(h)
  {
    LengthHeaderGood(0);
    assert Decimal(0) == "0";
    if resource.Some? && resource.value in files {
      LengthHeaderGood(|files[resource.value]|);
      TypeHeadersGood(resource.value);
    }
  }

  lemma LengthHeadersOnce(resource: Option<string>, files: Files)
    ensures Lengths(LengthHeaders(resource, files)) ==
            [if resource.Some? && resource.value in files then Decimal(|files[resource.value]|) else "0"]
  {
    var hs := LengthHeaders(resource, files);
    if resource.Some? && resource.value in files {
      TypeHeadersGood(resource.value);
      assert hs[1..] == TypeHeaders(resource.value);
    } else {
      assert hs[1..] == [];
    }
  }

  /** Every response has readable headers, and one Content-Length. */
  lemma ResponseHeadersGood(close: bool, resource: Option<string>, files: Files)
    ensures forall h :: h in ResponseHeaders(close, resource, files) ==> GoodHeader(h)
    ensures Lengths(ResponseHeaders(close, resource, files)) ==
            [if resource.Some? && resource.value in files then Decimal(|files[resource.value]|) else "0"]
  {
    BaseHeadersGood(close);
    LengthHeadersGood(resource, files);
    LengthHeadersOnce(resource, files);
    LengthsConcat(BaseHeaders(close), LengthHeaders(resource, files));
  }

  /** The second header, and no other, says what happens to the connection. */
  lemma ConnectionIsSecond(close: bool, resource: Option<string>, files: Files)
    ensures var hs := ResponseHeaders(close, resource, files);
            |hs| > 2 && hs[1] == Header("Connection", if close then "Close" else "Keep-Alive") &&
            forall i :: 0 <= i < |hs| && hs[i].key == "Connection" ==> i == 1
  {
    if resource.Some? {
      TypeHeadersGood(resource.value);
    }
  }

  lemma ConnectionHeaderGood(close: bool)
    ensures GoodHeader(Header("Connection", ConnectionValue(close)))
  {
    PlainHeaderIsGood(Header("Connection", ConnectionValue(close)));
  }

  lemma ServerHeaderGood()
    ensures GoodHeader(Header("Server", "Falonlink/1.0"))
  {
    PlainHeaderIsGood(Header("Server", "Falonlink/1.0"));
  }

  lemma BaseHeadersGood(close: bool)
    ensures forall h :: h in BaseHeaders(close) ==> GoodHeader(h)
    ensures Lengths(BaseHeaders(close)) == []
  {
    hide GoodHeader;
    var server, connection := Header("Server", "Falonlink/1.0"), Header("Connection", ConnectionValue(close));
    ServerHeaderGood();
    ConnectionHeaderGood(close);
    NotALength(server);
    NotALength(connection);
    LengthsConcat([server], [connection]);
    hide Lengths;
    assert BaseHeaders(close) == [server] + [connection];
  }

  lemma NotALength(h: Header)
    requires |h.key| != |CONTENT_LENGTH|
    ensures Lengths([h]) == []
  {
    assert [h][1..] == [];
  }

  lemma TypeHeadersGood(path: string)
    ensures forall h :: h in TypeHeaders(path) ==> GoodHeader(h) && h.key == "Content-Type"
    ensures Lengths(TypeHeaders(path)) == []
  {
    hide Mime;
    hide GoodHeader;
    match LastOf(path, '.')
    case Some(dot) =>
      MimeIsPlain(path[dot + 1..]);
      PlainHeaderIsGood(TypeHeaders(path)[0]);
    case None =>
  }

  lemma {:induction false} LengthsConcat(a: seq<Header>, b: seq<Header>)
    ensures Lengths(a + b) == Lengths(a) + Lengths(b)
  {
    if a == [] {
      assert a + b == b;
    } else {
      assert (a + b)[1..] == a[1..] + b;
      LengthsConcat(a[1..], b);
    }
  }
}
