/** Balanced brackets of the three kinds, and what it means for two of them to match. */
module Brackets {
  import opened Options

  predicate IsOpen(c: char) {
    c == '(' || c == '[' || c == '{'
  }

  predicate IsClose(c: char) {
    c == ')' || c == ']' || c == '}'
  }

  predicate IsBracket(c: char) {
    IsOpen(c) || IsClose(c)
  }

  /** The bracket on the other side; other characters are their own. */
  function Flip(c: char): char {
    match c
    case '(' => ')'
    case ')' => '('
    case '[' => ']'
    case ']' => '['
    case '{' => '}'
    case '}' => '{'
    case _ => c
  }

  /** A plain matcher with a stack of opening brackets; `None` is a mismatch. */
  function Step(st: seq<char>, c: char): Option<seq<char>> {
    if IsOpen(c) then Some(st + [c])
    else if IsClose(c) then
      if st != [] && st[|st| - 1] == Flip(c) then Some(st[..|st| - 1]) else None
    else Some(st)
  }

  function Run(st: seq<char>, w: string): Option<seq<char>> {
    if w == "" then Some(st)
    else match Run(st, w[..|w| - 1])
      case None => None
      case Some(t) => Step(t, w[|w| - 1])
  }

  /** `w` is an opening bracket, balanced text, and the bracket that closes it. */
  ghost predicate Pair(w: string) {
    |w| >= 2 && IsOpen(w[0]) && w[|w| - 1] == Flip(w[0]) && Run([], w[1..|w| - 1]) == Some([])
  }

  /** The bracket at `b` closes the one at `a`. */
  ghost predicate IsPair(t: string, a: nat, b: nat) {
    a < b < |t| && Pair(t[a..b + 1])
  }

  // ---------------------------------------------------------------- runs

  lemma RunSnoc(st: seq<char>, w: string, c: char)
    ensures Run(st, w + [c]) == match Run(st, w) case None => None case Some(t) => Step(t, c)
  {
    assert (w + [c])[..|w|] == w;
  }

  lemma {:induction false} RunConcat(st: seq<char>, u: string, w: string)
    ensures Run(st, u + w) == match Run(st, u) case None => None case Some(t) => Run(t, w)
    decreases |w|
  {
    if w == "" {
      assert u + w == u;
    } else {
      RunConcat(st, u, w[..|w| - 1]);
      assert (u + w)[..|u + w| - 1] == u + w[..|w| - 1];
    }
  }

  /** A mismatch is never recovered from. */
  lemma RunPrefix(st: seq<char>, w: string, n: nat)
    requires n <= |w| && Run(st, w).Some?
    ensures Run(st, w[..n]).Some?
  {
    RunConcat(st, w[..n], w[n..]);
    assert w == w[..n] + w[n..];
  }

  /** What lies under the stack does not matter to a run that never reaches it. */
  lemma {:induction false} RunOver(base: seq<char>, st: seq<char>, w: string)
    requires Run(st, w).Some?
    ensures Run(base + st, w) == Some(base + Run(st, w).value)
    decreases |w|
  {
    if w != "" {
      RunOver(base, st, w[..|w| - 1]);
      var t := Run(st, w[..|w| - 1]).value;
      assert t != [] ==> (base + t)[|base + t| - 1] == t[|t| - 1] && (base + t)[..|base + t| - 1] == base + t[..|t| - 1];
      assert base + (t + [w[|w| - 1]]) == base + t + [w[|w| - 1]];
    }
  }

  // ---------------------------------------------------------------- the first time the stack is empty

  /** After each character of `w` the stack is there and not empty. */
  ghost predicate Alive(st: seq<char>, w: string) {
    forall n :: 0 < n <= |w| ==> Run(st, w[..n]).Some? && Run(st, w[..n]).value != []
  }

  /** The scan of `u` from stack `p` ends at its `n`-th character: the stack empties there for the first time. */
  ghost predicate EndsAt(p: seq<char>, u: string, n: nat) {
    0 < n <= |u| && Alive(p, u[..n - 1]) && Run(p, u[..n]) == Some([])
  }

  /** The scan of `u` from stack `p` fails at its `n`-th character. */
  ghost predicate FailsAt(p: seq<char>, u: string, n: nat) {
    0 < n <= |u| && Alive(p, u[..n - 1]) && Run(p, u[..n]) == None
  }

  lemma AliveAt(st: seq<char>, w: string, n: nat)
    requires Alive(st, w) && 0 < n <= |w|
    ensures Run(st, w[..n]).Some? && Run(st, w[..n]).value != []
  {
  }

  lemma AlivePrefix(st: seq<char>, w: string, n: nat)
    requires Alive(st, w) && n <= |w|
    ensures Alive(st, w[..n])
  {
    forall k | 0 < k <= n
      ensures Run(st, w[..n][..k]).Some? && Run(st, w[..n][..k]).value != []
    {
      assert w[..n][..k] == w[..k];
    }
  }

  lemma AliveSnoc(st: seq<char>, w: string, c: char)
    requires Alive(st, w) && Run(st, w + [c]).Some? && Run(st, w + [c]).value != []
    ensures Alive(st, w + [c])
  {
    forall k | 0 < k <= |w| + 1
      ensures Run(st, (w + [c])[..k]).Some? && Run(st, (w + [c])[..k]).value != []
    {
      if k <= |w| {
        assert (w + [c])[..k] == w[..k];
      } else {
        assert (w + [c])[..k] == w + [c];
      }
    }
  }

  lemma AliveConcat(u: string, st: seq<char>, w: string)
    requires Alive([], u) && Run([], u) == Some(st) && Alive(st, w)
    ensures Alive([], u + w)
  {
    forall k | 0 < k <= |u| + |w|
      ensures Run([], (u + w)[..k]).Some? && Run([], (u + w)[..k]).value != []
    {
      if k <= |u| {
        assert (u + w)[..k] == u[..k];
      } else {
        assert (u + w)[..k] == u + w[..k - |u|];
        RunConcat([], u, w[..k - |u|]);
      }
    }
  }

  /** A scan has one outcome: it ends at one place, or fails at one place, or neither. */
  lemma OneOutcome(u: string, n: nat, m: nat)
    requires EndsAt([], u, m)
    ensures EndsAt([], u, n) ==> n == m
    ensures !FailsAt([], u, n)
    ensures !Alive([], u)
  {
    if 0 < n < m && n <= |u| {
      AliveAt([], u[..m - 1], n);
      assert u[..m - 1][..n] == u[..n];
    } else if m < n <= |u| {
      assert u[..n - 1][..m] == u[..m];
      if Alive([], u[..n - 1]) {
        AliveAt([], u[..n - 1], m);
      }
    }
    if Alive([], u) {
      AliveAt([], u, m);
    }
  }

  lemma StepOverBottom(o: char, t: seq<char>, c: char)
    requires IsOpen(o) && Step([o] + t, c).Some? && Step([o] + t, c).value != []
    ensures Step(t, c).Some? && Step([o] + t, c).value == [o] + Step(t, c).value
  {
    if IsOpen(c) {
      assert [o] + (t + [c]) == [o] + t + [c];
    } else if IsClose(c) {
      assert t != [];
      assert ([o] + t)[|t|] == t[|t| - 1] && ([o] + t)[..|t|] == [o] + t[..|t| - 1];
    }
  }

  /** A run that stays alive over its first bracket keeps it at the bottom, and the rest runs without it. */
  lemma {:induction false} AliveKeepsBottom(o: char, w: string)
    requires IsOpen(o) && Alive([o], w)
    ensures Run([], w).Some? && Run([o], w) == Some([o] + Run([], w).value)
    decreases |w|
  {
    hide Step;
    if w == "" {
      assert [o] + [] == [o];
    } else {
      AlivePrefix([o], w, |w| - 1);
      AliveAt([o], w, |w|);
      assert w[..|w|] == w;
      hide Alive;
      AliveKeepsBottom(o, w[..|w| - 1]);
      StepOverBottom(o, Run([], w[..|w| - 1]).value, w[|w| - 1]);
    }
  }

  /** The scan that starts on an opening bracket ends exactly where a pair is complete. */
  lemma PairIsFirstEmpty(w: string)
    requires w != "" && IsOpen(w[0])
    ensures Pair(w) <==> EndsAt([], w, |w|)
  {
    var o := w[0];
    assert w[..|w|] == w;
    if |w| == 1 {
      OneBracket(o);
    } else {
      var mid, c := w[1..|w| - 1], w[|w| - 1];
      assert w[..|w| - 1] == [o] + mid && w == [o] + mid + [c];
      LastBracket(o, mid, c);
      hide Run;
      hide Alive;
    }
  }

  /** `c` empties the stack for the first time exactly when it closes `o` over balanced text. */
  lemma LastBracket(o: char, mid: string, c: char)
    requires IsOpen(o)
    ensures c == Flip(o) && Run([], mid) == Some([]) <==>
            Alive([], [o] + mid) && Run([], [o] + mid + [c]) == Some([])
  {
    RunSnoc([], [o] + mid, c);
    OneBracket(o);
    RunConcat([], [o], mid);
    if c == Flip(o) && Run([], mid) == Some([]) {
      PairStaysAlive(o, mid);
      assert [o][..0] == [];
    }
    if Alive([], [o] + mid) {
      AliveDrop(o, mid);
      AliveKeepsBottom(o, mid);
      hide Run;
      hide Alive;
      BottomPopped(o, Run([], mid).value, c);
    }
  }

  lemma BottomPopped(o: char, t: seq<char>, c: char)
    requires IsOpen(o)
    ensures Step([o] + t, c) == Some([]) ==> t == [] && c == Flip(o)
  {
    assert |[o] + t| == 1 + |t|;
  }

  lemma OneBracket(o: char)
    requires IsOpen(o)
    ensures Run([], [o]) == Some([o])
  {
    assert [o][..0] == "";
    assert [] + [o] == [o];
  }

  lemma AliveDrop(o: char, mid: string)
    requires IsOpen(o) && Alive([], [o] + mid)
    ensures Alive([o], mid)
  {
    OneBracket(o);
    forall k | 0 < k <= |mid|
      ensures Run([o], mid[..k]).Some? && Run([o], mid[..k]).value != []
    {
      assert ([o] + mid)[..k + 1] == [o] + mid[..k];
      RunConcat([], [o], mid[..k]);
      AliveAt([], [o] + mid, k + 1);
    }
  }

  lemma PairStaysAlive(o: char, mid: string)
    requires IsOpen(o) && Run([], mid) == Some([])
    ensures Alive([], [o] + mid) && Run([], [o] + mid) == Some([o])
  {
    OneBracket(o);
    forall k | 0 < k <= |mid| + 1
      ensures Run([], ([o] + mid)[..k]).Some? && Run([], ([o] + mid)[..k]).value != []
    {
      assert ([o] + mid)[..k] == [o] + mid[..k - 1];
      RunPrefix([], mid, k - 1);
      RunConcat([], [o], mid[..k - 1]);
      RunOver([o], [], mid[..k - 1]);
      assert [o] + [] == [o];
    }
    RunConcat([], [o], mid);
    RunOver([o], [], mid);
    assert [o] + [] == [o];
  }

  // ---------------------------------------------------------------- reading backwards

  /** The text read from right to left with the brackets turned round. */
  function Mirror(w: string): string {
    if w == "" then "" else Mirror(w[1..]) + [Flip(w[0])]
  }

  lemma {:induction false} MirrorAt(w: string)
    ensures |Mirror(w)| == |w| && forall i :: 0 <= i < |w| ==> Mirror(w)[i] == Flip(w[|w| - 1 - i])
  {
    if w != "" {
      MirrorAt(w[1..]);
    }
  }

  lemma MirrorTwice(w: string)
    ensures Mirror(Mirror(w)) == w
  {
    MirrorAt(w);
    MirrorAt(Mirror(w));
  }

  lemma MirrorSnoc(w: string, c: char)
    ensures Mirror(w + [c]) == [Flip(c)] + Mirror(w)
  {
    MirrorAt(w);
    MirrorAt(w + [c]);
    assert forall i :: 0 <= i <= |w| ==> Mirror(w + [c])[i] == ([Flip(c)] + Mirror(w))[i];
  }

  ghost predicate AllOpen(st: seq<char>) {
    forall i :: 0 <= i < |st| ==> IsOpen(st[i])
  }

  lemma {:induction false} RunAllOpen(st: seq<char>, w: string)
    requires AllOpen(st) && Run(st, w).Some?
    ensures AllOpen(Run(st, w).value)
    decreases |w|
  {
    if w != "" {
      RunAllOpen(st, w[..|w| - 1]);
    }
  }

  /** A run read backwards takes the stack it ended with to the stack it began with. */
  lemma {:induction false} RunMirror(st: seq<char>, w: string)
    requires AllOpen(st) && Run(st, w).Some?
    ensures Run(Run(st, w).value, Mirror(w)) == Some(st)
    decreases |w|
  {
    if w != "" {
      var init, c := w[..|w| - 1], w[|w| - 1];
      var t, t' := Run(st, init).value, Run(st, w).value;
      RunMirror(st, init);
      RunAllOpen(st, init);
      assert w == init + [c];
      MirrorSnoc(init, c);
      StepMirror(t, c);
      RunConcat(t', [Flip(c)], Mirror(init));
      assert [Flip(c)][..0] == "";
      assert Run(t', [Flip(c)]) == Some(t);
    }
  }

  lemma StepMirror(t: seq<char>, c: char)
    requires AllOpen(t) && Step(t, c).Some?
    ensures Step(Step(t, c).value, Flip(c)) == Some(t)
  {
    if IsOpen(c) {
      assert (t + [c])[..|t|] == t;
    } else if IsClose(c) {
      assert t[..|t| - 1] + [t[|t| - 1]] == t;
    }
  }

  /** A pair read backwards is a pair. */
  lemma PairMirror(w: string)
    ensures Pair(Mirror(w)) <==> Pair(w)
  {
    PairMirrorOneWay(w);
    PairMirrorOneWay(Mirror(w));
    MirrorTwice(w);
  }

  lemma MirrorEnds(w: string)
    requires |w| >= 2
    ensures var m := Mirror(w);
            |m| == |w| && m[0] == Flip(w[|w| - 1]) && m[|m| - 1] == Flip(w[0]) && m[1..|m| - 1] == Mirror(w[1..|w| - 1])
  {
    MirrorAt(w);
    MirrorAt(w[1..|w| - 1]);
    hide Mirror;
    hide Flip;
  }

  lemma PairMirrorOneWay(w: string)
    ensures Pair(w) ==> Pair(Mirror(w))
  {
    if Pair(w) {
      RunMirror([], w[1..|w| - 1]);
      MirrorEnds(w);
      hide Run;
      hide Mirror;
    }
  }

  /** An opening bracket has at most one partner. */
  lemma OneCloser(t: string, a: nat, b: nat, b': nat)
    requires IsPair(t, a, b) && IsPair(t, a, b')
    ensures b == b'
  {
    hide Pair;
    hide EndsAt;
    var u := t[a..];
    assert u[..b + 1 - a] == t[a..b + 1] && u[..b' + 1 - a] == t[a..b' + 1];
    PairEndsAt(u, b + 1 - a);
    PairEndsAt(u, b' + 1 - a);
    OneOutcome(u, b + 1 - a, b' + 1 - a);
  }

  /** A closing bracket has at most one partner. */
  lemma OneOpener(t: string, a: nat, a': nat, b: nat)
    requires IsPair(t, a, b) && IsPair(t, a', b)
    ensures a == a'
  {
    hide Pair;
    hide EndsAt;
    var u := Mirror(t[..b + 1]);
    MirrorCut(t, a, b);
    MirrorCut(t, a', b);
    PairMirror(t[a..b + 1]);
    PairMirror(t[a'..b + 1]);
    PairEndsAt(u, b + 1 - a);
    PairEndsAt(u, b + 1 - a');
    OneOutcome(u, b + 1 - a, b + 1 - a');
  }

  lemma MirrorCut(t: string, a: nat, b: nat)
    requires a <= b < |t|
    ensures |Mirror(t[..b + 1])| == b + 1 && Mirror(t[..b + 1])[..b + 1 - a] == Mirror(t[a..b + 1])
  {
    MirrorAt(t[..b + 1]);
    MirrorAt(t[a..b + 1]);
  }

  lemma PairEndsAt(u: string, n: nat)
    requires 0 < n <= |u| && Pair(u[..n])
    ensures EndsAt([], u, n)
  {
    PairIsFirstEmpty(u[..n]);
    assert u[..n][..n] == u[..n] && u[..n][..n - 1] == u[..n - 1];
  }

  // ---------------------------------------------------------------- balanced text by its grammar

  /** Balanced text: brackets of three kinds around balanced text, among characters that are no brackets. */
  datatype Tree =
    | Nil
    | Plain(c: char, rest: Tree)
    | Round(inner: Tree, rest: Tree)
    | Square(inner: Tree, rest: Tree)
    | Curly(inner: Tree, rest: Tree)

  function TextOf(t: Tree): string {
    match t
    case Nil => ""
    case Plain(c, rest) => [c] + TextOf(rest)
    case Round(inner, rest) => "(" + TextOf(inner) + ")" + TextOf(rest)
    case Square(inner, rest) => "[" + TextOf(inner) + "]" + TextOf(rest)
    case Curly(inner, rest) => "{" + TextOf(inner) + "}" + TextOf(rest)
  }

  predicate WellFormed(t: Tree) {
    match t
    case Nil => true
    case Plain(c, rest) => c !in ['(', ')', '[', ']', '{', '}'] && WellFormed(rest)
    case Round(inner, rest) => WellFormed(inner) && WellFormed(rest)
    case Square(inner, rest) => WellFormed(inner) && WellFormed(rest)
    case Curly(inner, rest) => WellFormed(inner) && WellFormed(rest)
  }

  /** `open + inner + close` takes a stack back to where it was. */
  lemma NestRuns(st: seq<char>, open: char, inner: string, close: char)
    requires IsOpen(open) && close == Flip(open)
    requires Run(st + [open], inner) == Some(st + [open])
    ensures Run(st, [open] + inner + [close]) == Some(st)
  {
    RunSnoc(st, [open] + inner, close);
    RunConcat(st, [open], inner);
    RunSnoc(st, "", open);
    assert "" + [open] == [open];
    assert (st + [open])[..|st|] == st;
  }

  lemma {:induction false} TreeRuns(st: seq<char>, t: Tree)
    requires WellFormed(t)
    ensures Run(st, TextOf(t)) == Some(st)
    decreases t
  {
    hide Step;
    match t
    case Nil =>
    case Plain(c, rest) =>
      TreeRuns(st, rest);
      PlainRuns(st, c);
      RunConcat(st, [c], TextOf(rest));
    case Round(inner, rest) =>
      TreeRuns(st + ['('], inner);
      TreeRuns(st, rest);
      NestRuns(st, '(', TextOf(inner), ')');
      RunConcat(st, "(" + TextOf(inner) + ")", TextOf(rest));
    case Square(inner, rest) =>
      TreeRuns(st + ['['], inner);
      TreeRuns(st, rest);
      NestRuns(st, '[', TextOf(inner), ']');
      RunConcat(st, "[" + TextOf(inner) + "]", TextOf(rest));
    case Curly(inner, rest) =>
      TreeRuns(st + ['{'], inner);
      TreeRuns(st, rest);
      NestRuns(st, '{', TextOf(inner), '}');
      RunConcat(st, "{" + TextOf(inner) + "}", TextOf(rest));
  }

  lemma PlainRuns(st: seq<char>, c: char)
    requires !IsBracket(c)
    ensures Run(st, [c]) == Some(st)
  {
    RunSnoc(st, "", c);
    assert "" + [c] == [c];
  }

  ghost function FirstEmpty(w: string, k: nat): (n: nat)
    requires 0 < k <= |w| && Run([], w) == Some([])
    ensures k <= n <= |w| && Run([], w[..n]) == Some([])
    ensures forall m :: k <= m < n ==> Run([], w[..m]) != Some([])
    decreases |w| - k
  {
    assert w[..|w|] == w;
    if Run([], w[..k]) == Some([]) then k else FirstEmpty(w, k + 1)
  }

  /** A text that starts with an opening bracket and runs to the end starts with a pair. */
  lemma PairFirst(w: string) returns (n: nat)
    requires w != "" && IsOpen(w[0]) && Run([], w) == Some([])
    ensures 2 <= n <= |w| && Pair(w[..n]) && Run([], w[n..]) == Some([])
  {
    n := FirstEmpty(w, 1);
    var u := w[..n];
    var v := u[..n - 1];
    forall m | 0 < m <= |v|
      ensures Run([], v[..m]).Some? && Run([], v[..m]).value != []
    {
      assert v[..m] == w[..m];
      RunPrefix([], w, m);
    }
    assert Alive([], v);
    assert u[..n] == u;
    PairIsFirstEmpty(u);
    RunConcat([], u, w[n..]);
    assert w == u + w[n..];
  }

  lemma FirstRuns(w: string)
    requires w != "" && Run([], w) == Some([])
    ensures !IsClose(w[0]) && (!IsBracket(w[0]) ==> Run([], w[1..]) == Some([]))
  {
    assert w == [w[0]] + w[1..] && "" + [w[0]] == [w[0]];
    RunConcat([], [w[0]], w[1..]);
    RunSnoc([], "", w[0]);
  }

  lemma {:induction false} Parsed(w: string) returns (t: Tree)
    requires Run([], w) == Some([])
    ensures WellFormed(t) && TextOf(t) == w
    decreases |w|
  {
    hide Run;
    if w == "" {
      return Nil;
    }
    FirstRuns(w);
    var c := w[0];
    if !IsBracket(c) {
      var rest := Parsed(w[1..]);
      return Plain(c, rest);
    }
    var n := PairFirst(w);
    var inner := Parsed(w[..n][1..n - 1]);
    var rest := Parsed(w[n..]);
    assert w == [c] + w[..n][1..n - 1] + [Flip(c)] + w[n..];
    t := if c == '(' then Round(inner, rest) else if c == '[' then Square(inner, rest) else Curly(inner, rest);
  }

  /** The plain matcher accepts exactly the balanced texts. */
  lemma BalancedExactly(w: string)
    ensures Run([], w) == Some([]) <==> exists t :: WellFormed(t) && TextOf(t) == w
  {
    if Run([], w) == Some([]) {
      var t := Parsed(w);
      assert WellFormed(t) && TextOf(t) == w;
    } else if exists t :: WellFormed(t) && TextOf(t) == w {
      var t :| WellFormed(t) && TextOf(t) == w;
      TreeRuns([], t);
    }
  }

  /** So a pair is balanced text between an opening bracket and the closing one of its kind. */
  lemma PairExactly(w: string)
    ensures Pair(w) <==>
            exists t :: WellFormed(t) && w in ["(" + TextOf(t) + ")", "[" + TextOf(t) + "]", "{" + TextOf(t) + "}"]
  {
    hide Run;
    if Pair(w) {
      BalancedExactly(w[1..|w| - 1]);
      var t :| WellFormed(t) && TextOf(t) == w[1..|w| - 1];
      assert w == [w[0]] + TextOf(t) + [Flip(w[0])];
      assert w in ["(" + TextOf(t) + ")", "[" + TextOf(t) + "]", "{" + TextOf(t) + "}"];
    }
    if exists t :: WellFormed(t) && w in ["(" + TextOf(t) + ")", "[" + TextOf(t) + "]", "{" + TextOf(t) + "}"] {
      var t :| WellFormed(t) && w in ["(" + TextOf(t) + ")", "[" + TextOf(t) + "]", "{" + TextOf(t) + "}"];
      assert w[1..|w| - 1] == TextOf(t);
      BalancedExactly(w[1..|w| - 1]);
    }
  }
}
