/**
 * Headers and requests (falconlink/http/header.cpp, falconlink/http/request.cpp) and the
 * formatting helpers they use (falconlink/http/http_utils.cpp).
 */
module Requests {
  import opened Options
  import opened Text

  datatype Method = GET | HEAD | UnsupportedMethod

  datatype Version = Http11 | UnsupportedVersion

  datatype Header = Header(key: string, value: string)

  datatype Reason =
    | NoReason
    | BadFormat
    | BadRequestLine(line: string)
    | BadMethod(token: string)
    | BadVersion(token: string)
    | BadHeader(line: string)

  datatype RequestLine = RequestLine(method_: Method, version: Version, target: string)

  datatype Request = Request(line: RequestLine, headers: seq<Header>, shouldClose: bool)

  datatype Parsed<+T> = Good(value: T) | Bad(reason: Reason)

  // ---------------------------------------------------------------- formatting

  function Upper(c: char): char {
    if 'a' <= c <= 'z' then (c as int - 32) as char else c
  }

  function ToUpper(s: string): string {
    seq(|s|, i requires 0 <= i < |s| => Upper(s[i]))
  }

  /** `s` without the characters of `delim` at both ends. */
  function Trim(s: string, delim: string): string {
    if s == "" then ""
    else if s[0] in delim then Trim(s[1..], delim)
    else if s[|s| - 1] in delim then Trim(s[..|s| - 1], delim)
    else s
  }

  function Format(s: string): string {
    ToUpper(Trim(s, " "))
  }

  function ToMethod(s: string): Method {
    if Format(s) == "GET" then GET else if Format(s) == "HEAD" then HEAD else UnsupportedMethod
  }

  function ToVersion(s: string): Version {
    if Format(s) == "HTTP/1.1" then Http11 else UnsupportedVersion
  }

  /** `trim` removes the characters of `delim` at the two ends and nothing else. */
  lemma {:induction false} TrimIsSlice(s: string, delim: string) returns (l: nat, r: nat)
    ensures l <= r <= |s| && Trim(s, delim) == s[l..r]
    ensures forall i :: 0 <= i < l || r <= i < |s| ==> s[i] in delim
    ensures l < r ==> s[l] !in delim && s[r - 1] !in delim
    decreases |s|
  {
    if s == "" {
      l, r := 0, 0;
    } else if s[0] in delim {
      l, r := TrimIsSlice(s[1..], delim);
      assert forall i :: 0 < i < |s| ==> s[i] == s[1..][i - 1];
      l, r := l + 1, r + 1;
    } else if s[|s| - 1] in delim {
      l, r := TrimIsSlice(s[..|s| - 1], delim);
      assert forall i :: 0 <= i < |s| - 1 ==> s[i] == s[..|s| - 1][i];
    } else {
      l, r := 0, |s|;
    }
  }

  /** `u`, or the small letter of a capital `u`. */
  predicate SameLetter(c: char, u: char) {
    c == u || ('A' <= u <= 'Z' && c as int == u as int + 32)
  }

  /** `s` is `word` from `l` on, in letters of either case, with blanks before and after it. */
  predicate SaysAt(s: string, word: string, l: nat) {
    && l + |word| <= |s|
    && (forall k :: 0 <= k < |word| ==> SameLetter(s[l + k], word[k]))
    && forall i :: 0 <= i < |s| && !(l <= i < l + |word|) ==> s[i] == ' '
  }

  ghost predicate Says(s: string, word: string) {
    exists l: nat :: SaysAt(s, word, l)
  }

  /** Words that formatting can give: no small letter, no blank at an end. */
  predicate IsWord(word: string) {
    word != "" && word[0] != ' ' && word[|word| - 1] != ' ' && forall k :: 0 <= k < |word| ==> !('a' <= word[k] <= 'z')
  }

  /** Formatting forgets the blanks at both ends and the case of letters, and nothing else. */
  lemma FormatSays(s: string, word: string)
    requires IsWord(word)
    ensures Format(s) == word <==> Says(s, word)
  {
    var l, r := TrimIsSlice(s, " ");
    if Format(s) == word {
      assert |word| == r - l;
      forall k | 0 <= k < |word|
        ensures SameLetter(s[l + k], word[k])
      {
        assert ToUpper(s[l..r])[k] == word[k] && s[l..r][k] == s[l + k];
      }
      assert SaysAt(s, word, l);
    }
    if Says(s, word) {
      var n: nat :| SaysAt(s, word, n);
      SaysWhere(s, word, n, l, r);
      assert ToUpper(s[l..r]) == word;
    }
  }

  lemma SaysWhere(s: string, word: string, n: nat, l: nat, r: nat)
    requires IsWord(word) && SaysAt(s, word, n) && l <= r <= |s|
    requires forall i :: 0 <= i < l || r <= i < |s| ==> s[i] in " "
    requires l < r ==> s[l] !in " " && s[r - 1] !in " "
    ensures l == n && r == n + |word|
  {
    assert SameLetter(s[n + 0], word[0]);
    var last := |word| - 1;
    assert SameLetter(s[n + last], word[last]);
    assert s[n] != ' ' && s[n + last] != ' ';
  }

  lemma MethodMeans(s: string)
    ensures (ToMethod(s).GET? <==> Says(s, "GET")) && (ToMethod(s).HEAD? <==> Says(s, "HEAD"))
  {
    FormatSays(s, "GET");
    FormatSays(s, "HEAD");
  }

  lemma VersionMeans(s: string)
    ensures ToVersion(s).Http11? <==> Says(s, "HTTP/1.1")
  {
    FormatSays(s, "HTTP/1.1");
  }

  // ---------------------------------------------------------------- headers

  function HeaderLine(h: Header): string {
    h.key + ":" + h.value
  }

  function Serialize(h: Header): string {
    h.key + ":" + h.value + CRLF
  }

  /** What the parsing constructor of a header makes of a line. */
  function HeaderOf(line: string): Option<Header> {
    var tokens := Tokens(line, ":");
    if |tokens| < 2 then None else Some(Header(tokens[0], Joined(tokens[1..], ":")))
  }

  method ParseHeader(line: string) returns (h: Option<Header>)
    ensures h == HeaderOf(line)
  {
    var tokens := Split(line, ":");
    if |tokens| < 2 {
      return None;
    }
    var key := tokens[0];
    tokens := tokens[1..];
    var value;
    if |tokens| == 1 {
      value := tokens[0];
    } else {
      value := Join(tokens, ":");
    }
    h := Some(Header(key, value));
  }

  /** The code's rule: it keeps the connection only when told to. */
  predicate KeepsAlive(h: Header) {
    Format(h.key) == "CONNECTION" && Format(h.value) == "KEEP-ALIVE"
  }

  lemma FormatConstants()
    ensures Format("Connection") == "CONNECTION" && Format("Keep-Alive") == "KEEP-ALIVE"
  {
    assert ToUpper("Connection") == "CONNECTION";
    assert ToUpper("Keep-Alive") == "KEEP-ALIVE";
  }

  /** A field that asks to keep the connection, with any blanks around its key and value and in letters of any case. */
  lemma KeepsAliveMeans(h: Header)
    ensures KeepsAlive(h) <==> Says(h.key, "CONNECTION") && Says(h.value, "KEEP-ALIVE")
  {
    FormatSays(h.key, "CONNECTION");
    FormatSays(h.value, "KEEP-ALIVE");
  }

  predicate AnyKeepsAlive(hs: seq<Header>) {
    exists i :: 0 <= i < |hs| && KeepsAlive(hs[i])
  }

  /** Some header is `Connection` and says `Keep-Alive`. */
  ghost predicate AsksToKeep(hs: seq<Header>) {
    exists h :: h in hs && Says(h.key, "CONNECTION") && Says(h.value, "KEEP-ALIVE")
  }

  lemma KeepsWhenAsked(hs: seq<Header>)
    ensures AnyKeepsAlive(hs) <==> AsksToKeep(hs)
  {
    hide KeepsAlive;
    hide Says;
    forall h
      ensures KeepsAlive(h) <==> Says(h.key, "CONNECTION") && Says(h.value, "KEEP-ALIVE")
    {
      KeepsAliveMeans(h);
    }
    if AnyKeepsAlive(hs) {
      var i :| 0 <= i < |hs| && KeepsAlive(hs[i]);
      assert hs[i] in hs;
    }
  }

  // ---------------------------------------------------------------- what parsing computes

  function WithDefaultRoute(target: string): string {
    if target == "" || target[|target| - 1] == '/' then target + "index.html" else target
  }

  function RequestLineOf(line: string): Parsed<RequestLine> {
    var tokens := Tokens(line, " ");
    if |tokens| != 3 then Bad(BadRequestLine(line))
    else if ToMethod(tokens[0]).UnsupportedMethod? then Bad(BadMethod(tokens[0]))
    else if ToVersion(tokens[2]).UnsupportedVersion? then Bad(BadVersion(tokens[2]))
    else Good(RequestLine(ToMethod(tokens[0]), ToVersion(tokens[2]), WithDefaultRoute(tokens[1])))
  }

  function HeadersOf(lines: seq<string>): Parsed<seq<Header>> {
    if lines == [] then Good([])
    else match HeaderOf(lines[0])
      case None => Bad(BadHeader(lines[0]))
      case Some(h) => Prepend([h], HeadersOf(lines[1..]))
  }

  function Prepend(hs: seq<Header>, r: Parsed<seq<Header>>): Parsed<seq<Header>> {
    match r
    case Bad(_) => r
    case Good(more) => Good(hs + more)
  }

  function RequestOf(text: string): Parsed<Request> {
    var lines := Tokens(text, CRLF);
    if |lines| < 2 || lines[|lines| - 1] != "" then Bad(BadFormat)
    else match RequestLineOf(lines[0])
      case Bad(reason) => Bad(reason)
      case Good(line) =>
        match HeadersOf(lines[1..|lines| - 1])
        case Bad(reason) => Bad(reason)
        case Good(headers) => Good(Request(line, headers, !AnyKeepsAlive(headers)))
  }

  // ---------------------------------------------------------------- the parsing object

  class RequestParser {
    var method_: Method
    var version: Version
    var resourceUrl: string
    var headers: seq<Header>
    var shouldClose: bool
    var isValid: bool
    var invalidReason: Reason

    /** The outcome held in the fields. */
    function View(): Parsed<Request>
      reads this
    {
      if isValid then Good(Request(RequestLine(method_, version, resourceUrl), headers, shouldClose))
      else Bad(invalidReason)
    }

    constructor (text: string)
      ensures View() == RequestOf(text)
    {
      method_, version, resourceUrl, headers := UnsupportedMethod, UnsupportedVersion, "", [];
      shouldClose, isValid, invalidReason := true, false, NoReason;
      new;
      hide Tokens;
      hide RequestLineOf;
      hide HeaderOf;
      var lines := Split(text, CRLF);
      if |lines| < 2 || lines[|lines| - 1] != "" {
        invalidReason := BadFormat;
        return;
      }
      lines := lines[..|lines| - 1];
      var ok := ParseRequestLine(lines[0]);
      if !ok {
        return;
      }
      ghost var all := lines;
      lines := lines[1..];
      assert lines == Tokens(text, CRLF)[1..|Tokens(text, CRLF)| - 1];
      assert lines[0..] == lines;
      PrependNone(HeadersOf(lines));
      for i := 0 to |lines|
        invariant !isValid && RequestLineOf(all[0]) == Good(RequestLine(method_, version, resourceUrl))
        invariant shouldClose == !AnyKeepsAlive(headers)
        invariant HeadersOf(lines) == Prepend(headers, HeadersOf(lines[i..]))
      {
        var h := ParseHeader(lines[i]);
        assert lines[i..][1..] == lines[i + 1..];
        if h.None? {
          invalidReason := BadHeader(lines[i]);
          return;
        }
        ScanHeader(h.value);
        PrependTwice(headers, [h.value], HeadersOf(lines[i + 1..]));
        headers := headers + [h.value];
      }
      assert headers + [] == headers && lines[|lines|..] == [];
      isValid := true;
    }

    method ParseRequestLine(line: string) returns (ok: bool)
      modifies this`method_, this`version, this`resourceUrl, this`invalidReason
      ensures ok ==> RequestLineOf(line) == Good(RequestLine(method_, version, resourceUrl))
      ensures !ok ==> RequestLineOf(line) == Bad(invalidReason)
    {
      var tokens := Split(line, " ");
      if |tokens| != 3 {
        invalidReason := BadRequestLine(line);
        return false;
      }
      method_ := ToMethod(tokens[0]);
      if method_ == UnsupportedMethod {
        invalidReason := BadMethod(tokens[0]);
        return false;
      }
      version := ToVersion(tokens[2]);
      if version == UnsupportedVersion {
        invalidReason := BadVersion(tokens[2]);
        return false;
      }
      resourceUrl := if tokens[1] == "" || tokens[1][|tokens[1]| - 1] == '/' then tokens[1] + "index.html" else tokens[1];
      return true;
    }

    method ScanHeader(h: Header)
      requires shouldClose == !AnyKeepsAlive(headers)
      modifies this`shouldClose
      ensures shouldClose == !AnyKeepsAlive(headers + [h])
    {
      FormatConstants();
      if Format(h.key) == Format("Connection") {
        if Format(h.value) == Format("Keep-Alive") {
          shouldClose := false;
        }
      }
      AnyKeepsAliveSnoc(headers, h);
    }
  }

  lemma AnyKeepsAliveSnoc(hs: seq<Header>, h: Header)
    ensures AnyKeepsAlive(hs + [h]) <==> AnyKeepsAlive(hs) || KeepsAlive(h)
  {
    if AnyKeepsAlive(hs) {
      var i :| 0 <= i < |hs| && KeepsAlive(hs[i]);
      assert KeepsAlive((hs + [h])[i]);
    }
    if KeepsAlive(h) {
      assert KeepsAlive((hs + [h])[|hs|]);
    }
  }

  lemma PrependNone(r: Parsed<seq<Header>>)
    ensures Prepend([], r) == r
  {
    if r.Good? {
      assert [] + r.value == r.value;
    }
  }

  lemma PrependTwice(a: seq<Header>, b: seq<Header>, r: Parsed<seq<Header>>)
    ensures Prepend(a, Prepend(b, r)) == Prepend(a + b, r)
  {
    if r.Good? {
      Regroup(a, b, r.value);
    }
  }

  // ---------------------------------------------------------------- headers: what survives a round trip

  /** A key without `:` is recovered; the value loses one trailing `:`, and an empty value is refused. */
  lemma HeaderOfLine(h: Header)
    requires Free(h.key, ":")
    ensures HeaderOf(HeaderLine(h)) ==
            if h.value == "" then None else Some(Header(h.key, StripOne(h.value, ":")))
  {
    DelimitersUnbordered();
    TokensCons(h.key, ":", h.value);
    JoinSplit(h.value, ":");
    if h.value == "" {
      assert Tokens(h.value, ":") == [];
    }
    assert ([h.key] + Tokens(h.value, ":"))[1..] == Tokens(h.value, ":");
  }

  /** The exact headers whose serialised line parses back to them. */
  lemma HeaderRoundTrip(h: Header)
    ensures HeaderOf(HeaderLine(h)) == Some(h) <==>
            Free(h.key, ":") && h.value != "" && !EndsWith(h.value, ":")
  {
    if Free(h.key, ":") {
      HeaderOfLine(h);
    } else {
      TokensFree(HeaderLine(h), ":");
    }
  }

  /** The exact lines that are taken as headers, and what is read from them. */
  lemma HeaderAccepted(line: string)
    ensures HeaderOf(line).Some? <==> Find(line, ":", 0).Some? && Find(line, ":", 0).value + 1 < |line|
    ensures HeaderOf(line).Some? ==>
              var n := Find(line, ":", 0).value;
              HeaderOf(line).value == Header(line[..n], StripOne(line[n + 1..], ":"))
  {
    match Find(line, ":", 0)
    case None =>
    case Some(n) =>
      SplitAtColon(line, n);
      var h := Header(line[..n], line[n + 1..]);
      HeaderOfLine(h);
      hide HeaderOf;
  }

  lemma SplitAtColon(line: string, n: nat)
    requires Find(line, ":", 0) == Some(n)
    ensures Free(line[..n], ":") && HeaderLine(Header(line[..n], line[n + 1..])) == line
  {
    FindFirst(line, ":", 0);
    TokenFree(line, ":", n);
    assert line[n + 0] == ":"[0];
  }

  // ---------------------------------------------------------------- requests: round trip

  ghost predicate GoodHeader(h: Header) {
    Free(h.key, ":") && h.value != "" && !EndsWith(h.value, ":") && Free(HeaderLine(h), CRLF)
  }

  /** A request line as the client writes it: supported method and version, no blank inside a part. */
  ghost predicate GoodLine(method_: string, target: string, version: string) {
    && Free(method_, " ") && Free(target, " ") && Free(version, " ")
    && !ToMethod(method_).UnsupportedMethod? && ToVersion(version).Http11?
    && Free(method_ + " " + target + " " + version, CRLF)
  }

  function SerializeAll(hs: seq<Header>): string {
    if hs == [] then "" else Serialize(hs[0]) + SerializeAll(hs[1..])
  }

  function HeaderLines(hs: seq<Header>): seq<string> {
    if hs == [] then [] else [HeaderLine(hs[0])] + HeaderLines(hs[1..])
  }

  /** A start line, serialised headers and a final CRLF: requests and response heads alike. */
  function HeadText(startLine: string, hs: seq<Header>): string {
    startLine + CRLF + SerializeAll(hs) + CRLF
  }

  function RequestText(method_: string, target: string, version: string, hs: seq<Header>): string {
    HeadText(method_ + " " + target + " " + version, hs)
  }

  lemma {:induction false} SerializeAllLines(hs: seq<Header>)
    ensures SerializeAll(hs) == Terminated(HeaderLines(hs), CRLF)
    ensures |HeaderLines(hs)| == |hs|
    ensures forall i :: 0 <= i < |hs| ==> HeaderLines(hs)[i] == HeaderLine(hs[i])
  {
    if hs != [] {
      SerializeAllLines(hs[1..]);
      assert HeaderLines(hs)[1..] == HeaderLines(hs[1..]);
    }
  }

  /** A head is a block of lines, none of them blank after the first. */
  lemma HeadIsBlock(startLine: string, hs: seq<Header>)
    requires Free(startLine, CRLF) && forall h :: h in hs ==> Free(HeaderLine(h), CRLF)
    ensures LineBlock([startLine] + HeaderLines(hs))
    ensures HeadText(startLine, hs) == BlockText([startLine] + HeaderLines(hs))
  {
    SerializeAllLines(hs);
    var ls := [startLine] + HeaderLines(hs);
    assert ls[1..] == HeaderLines(hs);
    forall l | l in ls
      ensures Free(l, CRLF)
    {
      if l != startLine {
        var i :| 0 <= i < |ls| && ls[i] == l;
        assert l == HeaderLine(hs[i - 1]);
      }
    }
  }

  lemma {:induction false} HeadersRoundTrip(hs: seq<Header>)
    requires forall h :: h in hs ==> GoodHeader(h)
    ensures HeadersOf(HeaderLines(hs)) == Good(hs)
  {
    if hs == [] {
      assert HeadersOf([]) == Good(hs);
    } else {
      assert GoodHeader(hs[0]);
      HeaderRoundTrip(hs[0]);
      HeadersRoundTrip(hs[1..]);
      var lines := HeaderLines(hs);
      assert lines[0] == HeaderLine(hs[0]) && lines[1..] == HeaderLines(hs[1..]);
      assert HeadersOf(lines) == Prepend([hs[0]], Good(hs[1..]));
      assert [hs[0]] + hs[1..] == hs;
    }
  }

  lemma RequestLineRoundTrip(method_: string, target: string, version: string)
    requires GoodLine(method_, target, version)
    ensures RequestLineOf(method_ + " " + target + " " + version) ==
            Good(RequestLine(ToMethod(method_), Http11, WithDefaultRoute(target)))
  {
    DelimitersUnbordered();
    var ts := [method_, target, version];
    assert ts[1..] == [target, version] && ts[1..][1..] == [version];
    assert Joined(ts[1..], " ") == target + " " + version;
    assert Joined(ts, " ") == method_ + " " + target + " " + version;
    assert version != "" by {
      assert Format("") == "";
    }
    SplitJoin(ts, " ");
  }

  /**
   * A supported request printed by a client parses back to the same method, version, headers in
   * order and target; the connection closes unless some header asks to keep it.
   */
  lemma RequestRoundTrip(method_: string, target: string, version: string, hs: seq<Header>)
    requires GoodLine(method_, target, version) && forall h :: h in hs ==> GoodHeader(h)
    ensures RequestOf(RequestText(method_, target, version, hs)) ==
            Good(Request(RequestLine(ToMethod(method_), Http11, WithDefaultRoute(target)), hs, !AnyKeepsAlive(hs)))
  {
    var line := method_ + " " + target + " " + version;
    HeadIsBlock(line, hs);
    TokensOfBlock([line] + HeaderLines(hs));
    var lines := Tokens(RequestText(method_, target, version, hs), CRLF);
    assert lines[1..|lines| - 1] == HeaderLines(hs);
    RequestLineRoundTrip(method_, target, version);
    HeadersRoundTrip(hs);
  }

  /** The target asked for: `index.html` stands for an empty name at its end. */
  ghost predicate Routed(token: string, target: string) {
    if token == "" || EndsWith(token, "/") then target == token + "index.html" else target == token
  }

  /** What every request line is taken for, or why it is refused. */
  lemma RequestLineAccepted(line: string)
    ensures var ts := Tokens(line, " ");
            match RequestLineOf(line)
            case Good(r) =>
              && |ts| == 3 && Says(ts[2], "HTTP/1.1") && Routed(ts[1], r.target) && r.version.Http11?
              && Says(ts[0], if r.method_.GET? then "GET" else "HEAD") && !r.method_.UnsupportedMethod?
            case Bad(reason) =>
              if |ts| != 3 then reason == BadRequestLine(line)
              else if !Says(ts[0], "GET") && !Says(ts[0], "HEAD") then reason == BadMethod(ts[0])
              else reason == BadVersion(ts[2]) && !Says(ts[2], "HTTP/1.1")
  {
    var ts := Tokens(line, " ");
    hide Tokens;
    if |ts| == 3 {
      MethodMeans(ts[0]);
      VersionMeans(ts[2]);
      hide Says;
      hide Format;
    }
  }

  /**
   * A block of lines is a valid request exactly when its first line and each of its headers are. It
   * then holds what they say, and closes the connection unless one of the headers asks to keep it.
   */
  lemma RequestAccepted(ls: seq<string>)
    requires LineBlock(ls)
    ensures RequestOf(BlockText(ls)).Good? <==>
            RequestLineOf(ls[0]).Good? && forall i :: 0 < i < |ls| ==> HeaderOf(ls[i]).Some?
    ensures RequestOf(BlockText(ls)).Good? ==>
              var r := RequestOf(BlockText(ls)).value;
              && RequestLineOf(ls[0]) == Good(r.line) && |r.headers| == |ls| - 1
              && (forall i :: 0 < i < |ls| ==> HeaderOf(ls[i]) == Some(r.headers[i - 1]))
              && (!r.shouldClose <==> AsksToKeep(r.headers))
  {
    hide HeaderOf;
    hide RequestLineOf;
    TokensOfBlock(ls);
    var lines := Tokens(BlockText(ls), CRLF);
    assert lines[1..|lines| - 1] == ls[1..];
    HeadersAccepted(ls[1..]);
    assert forall i :: 0 < i < |ls| ==> ls[1..][i - 1] == ls[i];
    if RequestOf(BlockText(ls)).Good? {
      KeepsWhenAsked(RequestOf(BlockText(ls)).value.headers);
    }
    hide AsksToKeep;
    hide AnyKeepsAlive;
  }

  /** Otherwise the reason is that of the first line, or names the first line that is no header. */
  lemma RequestRefused(ls: seq<string>)
    requires LineBlock(ls) && RequestOf(BlockText(ls)).Bad?
    ensures var reason := RequestOf(BlockText(ls)).reason;
            if RequestLineOf(ls[0]).Bad? then reason == RequestLineOf(ls[0]).reason
            else exists n :: 0 < n < |ls| && HeaderOf(ls[n]).None? && reason == BadHeader(ls[n]) &&
                   forall i :: 0 < i < n ==> HeaderOf(ls[i]).Some?
  {
    hide HeaderOf;
    hide RequestLineOf;
    TokensOfBlock(ls);
    var lines := Tokens(BlockText(ls), CRLF);
    assert lines[0] == ls[0] && lines[1..|lines| - 1] == ls[1..];
    hide Tokens;
    if RequestLineOf(ls[0]).Good? {
      var n := FirstBadHeader(ls[1..]);
      assert ls[n + 1] == ls[1..][n];
      assert forall i :: 0 < i < |ls| ==> ls[1..][i - 1] == ls[i];
    }
  }

  lemma {:induction false} FirstBadHeader(lines: seq<string>) returns (n: nat)
    requires HeadersOf(lines).Bad?
    ensures n < |lines| && HeaderOf(lines[n]).None? && HeadersOf(lines) == Bad(BadHeader(lines[n]))
    ensures forall i :: 0 <= i < n ==> HeaderOf(lines[i]).Some?
  {
    hide HeaderOf;
    if HeaderOf(lines[0]).None? {
      n := 0;
    } else {
      n := FirstBadHeader(lines[1..]);
      assert forall i :: 0 < i < |lines| ==> lines[i] == lines[1..][i - 1];
      n := n + 1;
    }
  }

  lemma {:induction false} HeadersAccepted(lines: seq<string>)
    ensures HeadersOf(lines).Good? <==> forall i :: 0 <= i < |lines| ==> HeaderOf(lines[i]).Some?
    ensures HeadersOf(lines).Good? ==>
              var hs := HeadersOf(lines).value;
              |hs| == |lines| && forall i :: 0 <= i < |lines| ==> HeaderOf(lines[i]) == Some(hs[i])
    decreases |lines|
  {
    hide HeaderOf;
    if lines != [] {
      HeadersAccepted(lines[1..]);
      assert forall i :: 0 < i < |lines| ==> lines[i] == lines[1..][i - 1];
      assert forall i :: 0 <= i < |lines| - 1 ==> lines[1..][i] == lines[i + 1];
    }
  }

  /** The format check never refuses a text cut after its first blank line. */
  lemma CutIsWellFormed(f: string)
    requires |f| >= 4 && Find(f, BLANK_LINE, 0) == Some(|f| - 4)
    ensures var lines := Tokens(f, CRLF);
            && |lines| >= 2 && lines[|lines| - 1] == ""
            && (forall i :: 0 < i < |lines| - 1 ==> lines[i] != "")
    ensures RequestOf(f) != Bad(BadFormat)
  {
    var ls := CutIsBlock(f);
    assert forall i :: 0 < i < |ls| ==> (ls + [""])[i] == ls[i];
    HeadersNeverBadFormat(Tokens(f, CRLF)[1..|Tokens(f, CRLF)| - 1]);
  }

  lemma {:induction false} HeadersNeverBadFormat(lines: seq<string>)
    ensures HeadersOf(lines) != Bad(BadFormat)
  {
    if lines != [] {
      HeadersNeverBadFormat(lines[1..]);
    }
  }
}
