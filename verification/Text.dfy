/**
 * Searching, splitting and joining text (falconlink/http/http_utils.cpp).
 * A `char` stands for one byte of a `std::string`.
 */
module Text {
  import opened Options

  lemma Regroup<T>(a: seq<T>, b: seq<T>, c: seq<T>)
    ensures a + (b + c) == a + b + c
  {
  }

  const CRLF := "\r\n"
  const BLANK_LINE := "\r\n\r\n"

  /** `d` occurs in `s` at offset `i`. */
  predicate At(s: string, d: string, i: nat) {
    i + |d| <= |s| && forall k :: 0 <= k < |d| ==> s[i + k] == d[k]
  }

  /** `d` occurs nowhere in `s`. */
  ghost predicate Free(s: string, d: string) {
    forall i: nat :: !At(s, d, i)
  }

  /** No proper non-empty prefix of `d` is also a suffix of it: `d` cannot overlap itself. */
  ghost predicate Unbordered(d: string) {
    |d| > 0 && forall b :: 0 < b < |d| ==> d[..b] != d[|d| - b..]
  }

  predicate EndsWith(s: string, d: string) {
    |d| <= |s| && s[|s| - |d|..] == d
  }

  /** `std::string::find`: the first occurrence at or after `from`. */
  function Find(s: string, d: string, from: nat): (r: Option<nat>)
    ensures r.Some? ==> from <= r.value <= |s| - |d|
    decreases |s| - from
  {
    if from + |d| > |s| then None
    else if At(s, d, from) then Some(from)
    else Find(s, d, from + 1)
  }

  /** What `Find` returns is the first occurrence, and `None` means there is none. */
  lemma {:induction false} FindFirst(s: string, d: string, from: nat)
    ensures var r := Find(s, d, from);
            && (r.Some? ==> At(s, d, r.value) && forall j :: from <= j < r.value ==> !At(s, d, j))
            && (r.None? ==> forall j :: from <= j ==> !At(s, d, j))
    decreases |s| - from
  {
    if from + |d| <= |s| && !At(s, d, from) {
      FindFirst(s, d, from + 1);
    }
  }

  /** The first occurrence is what `Find` returns. */
  lemma FindIs(s: string, d: string, n: nat)
    requires At(s, d, n) && forall j: nat :: j < n ==> !At(s, d, j)
    ensures Find(s, d, 0) == Some(n)
  {
    FindFirst(s, d, 0);
  }

  /** The tokens of `s`; a delimiter that ends `s` adds no empty token after it. */
  function Tokens(s: string, d: string): seq<string>
    requires |d| > 0
    decreases |s|
  {
    match Find(s, d, 0)
    case Some(n) => [s[..n]] + Tokens(s[n + |d|..], d)
    case None => if s == "" then [] else [s]
  }

  /** Tokens separated by `d`. */
  function Joined(ts: seq<string>, d: string): string {
    if ts == [] then ""
    else if |ts| == 1 then ts[0]
    else ts[0] + d + Joined(ts[1..], d)
  }

  /** Tokens each followed by `d`. */
  function Terminated(ts: seq<string>, d: string): string {
    if ts == [] then "" else ts[0] + d + Terminated(ts[1..], d)
  }

  /** `s` without one trailing `d`. */
  function StripOne(s: string, d: string): string {
    if EndsWith(s, d) then s[..|s| - |d|] else s
  }

  /** `ts` without one trailing empty token. */
  function DropEmptyLast(ts: seq<string>): seq<string> {
    if ts != [] && ts[|ts| - 1] == "" then ts[..|ts| - 1] else ts
  }

  // ---------------------------------------------------------------- the loops

  lemma FindSuffix(s: string, d: string, k: nat)
    requires k <= |s|
    ensures Find(s, d, k) == (match Find(s[k..], d, 0) case Some(n) => Some(n + k) case None => None)
    decreases |s| - k
  {
    FindShift(s, d, k, 0);
  }

  lemma {:induction false} FindShift(s: string, d: string, k: nat, from: nat)
    requires k <= |s|
    ensures Find(s, d, k + from) == (match Find(s[k..], d, from) case Some(n) => Some(n + k) case None => None)
    decreases |s| - k - from
  {
    if k + from + |d| <= |s| {
      assert s[k..][from..from + |d|] == s[k + from..k + from + |d|];
      if !At(s, d, k + from) {
        FindShift(s, d, k, from + 1);
      }
    }
  }

  /** One turn of the splitting loop, seen from offset `curr`. */
  lemma TokensStep(s: string, d: string, curr: nat)
    requires |d| > 0 && curr <= |s|
    ensures var f := Find(s, d, curr);
            Tokens(s[curr..], d) ==
            if f.Some? then [s[curr..f.value]] + Tokens(s[f.value + |d|..], d)
            else if curr == |s| then [] else [s[curr..]]
  {
    FindSuffix(s, d, curr);
    var f := Find(s[curr..], d, 0);
    if f.Some? {
      assert s[curr..][..f.value] == s[curr..f.value + curr];
      assert s[curr..][f.value + |d|..] == s[f.value + curr + |d|..];
    }
  }

  method Split(s: string, d: string) returns (tokens: seq<string>)
    requires |d| > 0
    ensures tokens == Tokens(s, d)
  {
    tokens := [];
    assert Tokens("", d) == [];
    if s == "" {
      return;
    }
    hide Find;
    hide Tokens;
    var curr := 0;
    assert s[0..] == s;
    var next := Find(s, d, curr);
    while next.Some?
      invariant curr <= |s|
      invariant next == Find(s, d, curr)
      invariant tokens + Tokens(s[curr..], d) == Tokens(s, d)
      decreases |s| - curr
    {
      TokensStep(s, d, curr);
      Regroup(tokens, [s[curr..next.value]], Tokens(s[next.value + |d|..], d));
      tokens := tokens + [s[curr..next.value]];
      curr := next.value + |d|;
      next := Find(s, d, curr);
    }
    TokensStep(s, d, curr);
    if curr != |s| {
      tokens := tokens + [s[curr..]];
    }
  }

  method Join(tokens: seq<string>, d: string) returns (r: string)
    ensures r == Joined(tokens, d)
  {
    if tokens == [] {
      return "";
    }
    if |tokens| == 1 {
      return tokens[0];
    }
    r := "";
    assert tokens[0..] == tokens;
    for i := 0 to |tokens| - 1
      invariant r + Joined(tokens[i..], d) == Joined(tokens, d)
    {
      JoinStep(tokens, d, i);
      ghost var before := r;
      r := r + tokens[i] + d;
      assert before + (tokens[i] + d + Joined(tokens[i + 1..], d)) == r + Joined(tokens[i + 1..], d);
    }
    r := r + tokens[|tokens| - 1];
  }

  lemma JoinStep(ts: seq<string>, d: string, i: nat)
    requires i + 1 < |ts|
    ensures Joined(ts[i..], d) == ts[i] + d + Joined(ts[i + 1..], d)
  {
    assert ts[i..][1..] == ts[i + 1..];
  }

  // ---------------------------------------------------------------- occurrences

  lemma AtSlice(s: string, d: string, i: nat, j: nat, k: nat)
    requires i <= j <= |s|
    ensures At(s[i..j], d, k) <==> At(s, d, i + k) && i + k + |d| <= j
  {
    if At(s, d, i + k) && i + k + |d| <= j {
      forall m | 0 <= m < |d|
        ensures s[i..j][k + m] == d[m]
      {
        assert s[i + k + m] == d[m];
      }
    }
  }

  /** An occurrence that ends inside the prefix of a text is an occurrence in that prefix. */
  lemma AtPrefix(s: string, rest: string, d: string, i: nat)
    requires i + |d| <= |s|
    ensures At(s + rest, d, i) <==> At(s, d, i)
  {
    AtSlice(s + rest, d, 0, |s|, i);
    assert (s + rest)[0..|s|] == s;
  }

  lemma AtSuffix(pre: string, s: string, d: string, i: nat)
    requires |pre| <= i
    ensures At(pre + s, d, i) <==> At(s, d, i - |pre|)
  {
    AtSlice(pre + s, d, |pre|, |pre + s|, i - |pre|);
    assert (pre + s)[|pre|..|pre + s|] == s;
  }

  /** Two overlapping occurrences give `d` a border. */
  lemma OverlapIsBorder(s: string, d: string, i: nat, j: nat)
    requires At(s, d, i) && At(s, d, j) && i < j < i + |d|
    ensures var b := i + |d| - j; 0 < b < |d| && d[..b] == d[|d| - b..]
  {
    var b := i + |d| - j;
    forall k | 0 <= k < b
      ensures d[k] == d[|d| - b + k]
    {
      assert s[j + k] == d[k] && s[i + (j - i + k)] == d[j - i + k];
    }
  }

  /** In `t + d + rest` with `t` free of an unbordered `d`, the first `d` is the one after `t`. */
  lemma FirstAfterToken(t: string, d: string, rest: string)
    requires Unbordered(d) && Free(t, d)
    ensures Find(t + d + rest, d, 0) == Some(|t|)
    ensures forall j: nat :: j < |t| ==> !At(t + d + rest, d, j)
  {
    var s := t + d + rest;
    assert At(s, d, |t|);
    forall j: nat | j < |t|
      ensures !At(s, d, j)
    {
      if j + |d| <= |t| {
        AtPrefix(t, d + rest, d, j);
        assert s == t + (d + rest);
      } else if At(s, d, j) {
        OverlapIsBorder(s, d, j, |t|);
      }
    }
    FindIs(s, d, |t|);
  }

  // ---------------------------------------------------------------- split and join are inverse

  lemma TokenFree(s: string, d: string, n: nat)
    requires |d| > 0 && Find(s, d, 0) == Some(n)
    ensures Free(s[..n], d)
  {
    FindFirst(s, d, 0);
    forall k: nat
      ensures !At(s[..n], d, k)
    {
      AtSlice(s, d, 0, n, k);
      assert s[..n] == s[0..n];
    }
  }

  lemma {:induction false} TokensFree(s: string, d: string)
    requires |d| > 0
    ensures forall t :: t in Tokens(s, d) ==> Free(t, d)
    decreases |s|
  {
    match Find(s, d, 0)
    case Some(n) =>
      TokenFree(s, d, n);
      TokensFree(s[n + |d|..], d);
    case None =>
      FindFirst(s, d, 0);
  }

  /** A free token and a delimiter are taken off the front. */
  lemma TokensCons(t: string, d: string, rest: string)
    requires Unbordered(d) && Free(t, d)
    ensures Tokens(t + d + rest, d) == [t] + Tokens(rest, d)
  {
    FirstAfterToken(t, d, rest);
    var s := t + d + rest;
    assert s[..|t|] == t && s[|t| + |d|..] == rest;
  }

  lemma {:induction false} TokensOfTerminated(ts: seq<string>, last: string, d: string)
    requires Unbordered(d) && Free(last, d) && forall t :: t in ts ==> Free(t, d)
    ensures Tokens(Terminated(ts, d) + last, d) == if last == "" then ts else ts + [last]
  {
    if ts == [] {
      assert Terminated(ts, d) + last == last;
      FindFirst(last, d, 0);
    } else {
      var rest := Terminated(ts[1..], d) + last;
      assert Terminated(ts, d) + last == ts[0] + d + rest;
      TokensCons(ts[0], d, rest);
      TokensOfTerminated(ts[1..], last, d);
      assert ts == [ts[0]] + ts[1..];
    }
  }

  lemma {:induction false} JoinedIsTerminated(ts: seq<string>, d: string)
    requires ts != []
    ensures Joined(ts, d) == Terminated(ts[..|ts| - 1], d) + ts[|ts| - 1]
    ensures Terminated(ts, d) == Joined(ts, d) + d
  {
    if |ts| == 1 {
      assert Terminated(ts[1..], d) == "";
    } else {
      JoinedIsTerminated(ts[1..], d);
      assert ts[..|ts| - 1][1..] == ts[1..][..|ts| - 2];
      Regroup(ts[0] + d, Terminated(ts[1..][..|ts| - 2], d), ts[|ts| - 1]);
      Regroup(ts[0] + d, Joined(ts[1..], d), d);
    }
  }

  lemma {:induction false} TerminatedConcat(a: seq<string>, b: seq<string>, d: string)
    ensures Terminated(a + b, d) == Terminated(a, d) + Terminated(b, d)
  {
    if a == [] {
      assert a + b == b;
    } else {
      assert (a + b)[1..] == a[1..] + b;
      TerminatedConcat(a[1..], b, d);
    }
  }

  lemma EndsWithAt(s: string, d: string)
    ensures EndsWith(s, d) <==> |d| <= |s| && At(s, d, |s| - |d|)
  {
    if |d| <= |s| && At(s, d, |s| - |d|) {
      assert s[|s| - |d|..] == d;
    }
  }

  /** After the first delimiter, what is left ends in `d` exactly when the whole does, or is empty. */
  lemma EndsWithRest(s: string, d: string, n: nat)
    requires Unbordered(d) && At(s, d, n)
    ensures EndsWith(s, d) <==> s[n + |d|..] == "" || EndsWith(s[n + |d|..], d)
  {
    var rest := s[n + |d|..];
    EndsWithAt(s, d);
    EndsWithAt(rest, d);
    if |rest| >= |d| {
      AtSlice(s, d, n + |d|, |s|, |rest| - |d|);
    } else if rest != "" && At(s, d, |s| - |d|) {
      OverlapIsBorder(s, d, n, |s| - |d|);
    }
  }

  /** A text is rebuilt from its tokens: each followed by `d` if it ends in `d`, else separated by `d`. */
  lemma {:induction false} TokensRebuild(s: string, d: string)
    requires Unbordered(d)
    ensures EndsWith(s, d) ==> s == Terminated(Tokens(s, d), d)
    ensures !EndsWith(s, d) ==> s == Joined(Tokens(s, d), d)
    decreases |s|
  {
    FindFirst(s, d, 0);
    match Find(s, d, 0)
    case Some(n) =>
      var rest := s[n + |d|..];
      assert s == s[..n] + d + rest;
      EndsWithRest(s, d, n);
      TokensRebuild(rest, d);
      assert Tokens(s, d)[1..] == Tokens(rest, d);
    case None =>
      EndsWithAt(s, d);
  }

  /** `join` undoes `split`, up to one trailing delimiter. */
  lemma JoinSplit(s: string, d: string)
    requires Unbordered(d)
    ensures Joined(Tokens(s, d), d) == StripOne(s, d)
  {
    TokensRebuild(s, d);
    if EndsWith(s, d) {
      JoinedIsTerminated(Tokens(s, d), d);
      var j := Joined(Tokens(s, d), d);
      assert s[..|s| - |d|] == (j + d)[..|j|] == j;
    }
  }

  /** `split` undoes `join`, up to one trailing empty token. */
  lemma SplitJoin(ts: seq<string>, d: string)
    requires Unbordered(d) && forall t :: t in ts ==> Free(t, d)
    ensures Tokens(Joined(ts, d), d) == DropEmptyLast(ts)
  {
    if ts == [] {
      assert Find("", d, 0) == None;
    } else {
      JoinedIsTerminated(ts, d);
      TokensOfTerminated(ts[..|ts| - 1], ts[|ts| - 1], d);
      assert ts == ts[..|ts| - 1] + [ts[|ts| - 1]];
    }
  }

  /** The round trip holds on every text exactly when the delimiter cannot overlap itself. */
  lemma JoinSplitExactly(d: string)
    requires |d| > 0
    ensures (forall s :: Joined(Tokens(s, d), d) == StripOne(s, d)) <==> Unbordered(d)
  {
    if Unbordered(d) {
      forall s
        ensures Joined(Tokens(s, d), d) == StripOne(s, d)
      {
        JoinSplit(s, d);
      }
    } else {
      var b :| 0 < b < |d| && d[..b] == d[|d| - b..];
      OverlapLoses(d, b);
      var s := d + d[b..];
      assert Joined(Tokens(s, d), d) != StripOne(s, d);
    }
  }

  /** A delimiter with border `b` written twice, overlapping: the tail is not seen as a delimiter. */
  lemma OverlapLoses(d: string, b: nat)
    requires 0 < b < |d| && d[..b] == d[|d| - b..]
    ensures |StripOne(d + d[b..], d)| < |Joined(Tokens(d + d[b..], d), d)|
  {
    var s, tail := d + d[b..], d[b..];
    assert At(s, d, 0);
    assert s[..0] == "" && s[0 + |d|..] == tail;
    assert Tokens(tail, d) == [tail];
    assert Tokens(s, d) == ["", tail];
    assert ["", tail][1..] == [tail];
    assert s[|s| - |d|..] == d[|d| - b..] + d[b..] == d;
  }

  lemma DelimitersUnbordered()
    ensures Unbordered(CRLF) && Unbordered(":") && Unbordered(" ") && Unbordered("&")
  {
    assert CRLF[..1] == "\r" && CRLF[2 - 1..] == "\n";
  }

  lemma NoCharIsFree(s: string, c: char)
    requires c !in s
    ensures Free(s, [c])
  {
    forall i: nat
      ensures !At(s, [c], i)
    {
      if i + 1 <= |s| {
        assert s[i + 0] in s && [c][0] == c;
      }
    }
  }

  // ---------------------------------------------------------------- blocks ended by a blank line

  /** A first line, then non-empty lines; no line holds a CRLF. */
  ghost predicate LineBlock(ls: seq<string>) {
    |ls| > 0 && (forall l :: l in ls ==> Free(l, CRLF)) && forall i :: 0 < i < |ls| ==> ls[i] != ""
  }

  /** The lines of a block, each ended by CRLF, then an empty line. */
  function BlockText(ls: seq<string>): string {
    Terminated(ls, CRLF) + CRLF
  }

  lemma BlankLineIsTwo(s: string, j: nat)
    ensures At(s, BLANK_LINE, j) <==> At(s, CRLF, j) && At(s, CRLF, j + 2)
  {
    assert BLANK_LINE == CRLF + CRLF;
    if At(s, BLANK_LINE, j) {
      forall k | 0 <= k < 2
        ensures s[j + k] == CRLF[k] && s[j + 2 + k] == CRLF[k]
      {
        assert BLANK_LINE[k] == CRLF[k] && BLANK_LINE[2 + k] == CRLF[k];
      }
    }
  }

  /** `tail` after a first line: a blank line starts at that line's end only if `tail` starts with CRLF. */
  lemma BlankLineAfterFirst(l: string, tail: string, j: nat)
    requires Free(l, CRLF)
    ensures At(l + CRLF + tail, BLANK_LINE, j) <==>
            (j == |l| && At(tail, CRLF, 0)) || (j >= |l| + 2 && At(tail, BLANK_LINE, j - |l| - 2))
  {
    DelimitersUnbordered();
    var s := l + CRLF + tail;
    FirstAfterToken(l, CRLF, tail);
    BlankLineIsTwo(s, j);
    assert At(s, CRLF, |l|);
    if j == |l| {
      AtSuffix(l + CRLF, tail, CRLF, j + 2);
    } else if j == |l| + 1 {
      assert s[j] == '\n' && CRLF[0] == '\r';
    } else if j >= |l| + 2 {
      AtSuffix(l + CRLF, tail, BLANK_LINE, j);
    }
  }

  /** Whatever follows a block, its first blank line is the one that ends it. */
  lemma {:induction false} FirstBlankLine(ls: seq<string>, rest: string)
    requires LineBlock(ls)
    ensures |BlockText(ls)| >= 4
    ensures Find(BlockText(ls) + rest, BLANK_LINE, 0) == Some(|BlockText(ls)| - 4)
    decreases |ls|
  {
    hide Find;
    hide At;
    var s := BlockText(ls) + rest;
    var tail := Terminated(ls[1..], CRLF) + CRLF + rest;
    assert s == ls[0] + CRLF + tail;
    forall j: nat
      ensures At(s, BLANK_LINE, j) <==>
              (j == |ls[0]| && At(tail, CRLF, 0)) || (j >= |ls[0]| + 2 && At(tail, BLANK_LINE, j - |ls[0]| - 2))
    {
      BlankLineAfterFirst(ls[0], tail, j);
    }
    if |ls| == 1 {
      assert tail == CRLF + rest;
      AtStart(CRLF, rest);
      FindIs(s, BLANK_LINE, |ls[0]|);
    } else {
      FirstBlankLine(ls[1..], rest);
      assert BlockText(ls[1..]) + rest == tail;
      SecondLineStarts(ls, rest);
      FindFirst(tail, BLANK_LINE, 0);
      FindIs(s, BLANK_LINE, |BlockText(ls)| - 4);
    }
  }

  lemma AtStart(d: string, rest: string)
    ensures At(d + rest, d, 0)
  {
  }

  lemma SecondLineStarts(ls: seq<string>, rest: string)
    requires LineBlock(ls) && |ls| > 1
    ensures !At(Terminated(ls[1..], CRLF) + CRLF + rest, CRLF, 0)
  {
    DelimitersUnbordered();
    var tail2 := Terminated(ls[1..][1..], CRLF) + CRLF + rest;
    assert Terminated(ls[1..], CRLF) + CRLF + rest == ls[1] + CRLF + tail2;
    FirstAfterToken(ls[1], CRLF, tail2);
  }

  /** Every text cut just after its first blank line is a block: no other shape can be popped. */
  lemma CutIsBlock(f: string) returns (ls: seq<string>)
    requires |f| >= 4 && Find(f, BLANK_LINE, 0) == Some(|f| - 4)
    ensures LineBlock(ls) && f == BlockText(ls)
    ensures Tokens(f, CRLF) == ls + [""]
  {
    var g := f[..|f| - 2];
    CutEndsTwice(f);
    DelimitersUnbordered();
    hide Find;
    hide Tokens;
    hide EndsWith;
    hide Unbordered;
    ls := Tokens(g, CRLF);
    TokensRebuild(g, CRLF);
    TokensFree(g, CRLF);
    NoEmptyMiddle(ls);
    TokensOfBlock(ls);
  }

  lemma CutEndsTwice(f: string)
    requires |f| >= 4 && Find(f, BLANK_LINE, 0) == Some(|f| - 4)
    ensures f == f[..|f| - 2] + CRLF && EndsWith(f[..|f| - 2], CRLF)
  {
    FindFirst(f, BLANK_LINE, 0);
    hide Find;
    BlankLineIsTwo(f, |f| - 4);
    EndsWithAt(f, CRLF);
    var g := f[..|f| - 2];
    assert f == g + f[|f| - 2..];
    AtPrefix(g, f[|f| - 2..], CRLF, |f| - 4);
    hide At;
    EndsWithAt(g, CRLF);
  }

  lemma TokensOfBlock(ls: seq<string>)
    requires forall l :: l in ls ==> Free(l, CRLF)
    ensures Tokens(BlockText(ls), CRLF) == ls + [""]
  {
    DelimitersUnbordered();
    TerminatedConcat(ls, [""], CRLF);
    assert Terminated([""], CRLF) == CRLF by {
      assert [""][1..] == [];
    }
    var block := Terminated(ls + [""], CRLF);
    assert block + "" == block;
    TokensOfTerminated(ls + [""], "", CRLF);
  }

  lemma NoEmptyMiddle(ls: seq<string>)
    requires |BlockText(ls)| >= 4 && Find(BlockText(ls), BLANK_LINE, 0) == Some(|BlockText(ls)| - 4)
    ensures forall i :: 0 < i < |ls| ==> ls[i] != ""
  {
    FindFirst(BlockText(ls), BLANK_LINE, 0);
    forall i | 0 < i < |ls|
      ensures ls[i] != ""
    {
      if ls[i] == "" {
        EmptyLineIsBlank(ls, i);
      }
    }
  }

  lemma EmptyLineIsBlank(ls: seq<string>, i: nat)
    requires 0 < i < |ls| && ls[i] == ""
    ensures exists p: nat :: p < |BlockText(ls)| - 4 && At(BlockText(ls), BLANK_LINE, p)
  {
    var a, b := Terminated(ls[..i], CRLF), Terminated(ls[i + 1..], CRLF);
    assert ls == ls[..i] + ls[i..] && ls[i..][1..] == ls[i + 1..];
    TerminatedConcat(ls[..i], ls[i..], CRLF);
    JoinedIsTerminated(ls[..i], CRLF);
    var c := Joined(ls[..i], CRLF);
    var s := BlockText(ls);
    assert s == c + (CRLF + CRLF) + (b + CRLF);
    assert BLANK_LINE == CRLF + CRLF;
    assert At(s, BLANK_LINE, |c|);
  }
}
