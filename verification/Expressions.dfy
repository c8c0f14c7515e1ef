/** Matching brackets across the lines of a file (build_support/cpplint.py). */
module Expressions {
  import opened Options
  import opened Brackets
  import opened Scanner

  /** The lines put end to end. */
  function Doc(lines: seq<string>): string {
    if lines == [] then "" else Doc(lines[..|lines| - 1]) + lines[|lines| - 1]
  }

  /** Where line `l` starts in the document. */
  function Offset(lines: seq<string>, l: nat): nat
    requires l <= |lines|
  {
    |Doc(lines[..l])|
  }

  lemma DocStep(lines: seq<string>, l: nat)
    requires l < |lines|
    ensures Doc(lines[..l + 1]) == Doc(lines[..l]) + lines[l]
    ensures Offset(lines, l + 1) == Offset(lines, l) + |lines[l]|
  {
    assert lines[..l + 1][..l] == lines[..l];
  }

  lemma {:induction false} DocPrefix(lines: seq<string>, l: nat)
    requires l <= |lines|
    ensures Offset(lines, l) <= |Doc(lines)| && Doc(lines)[..Offset(lines, l)] == Doc(lines[..l])
    decreases |lines| - l
  {
    if l == |lines| {
      assert lines[..l] == lines;
    } else {
      DocPrefix(lines, l + 1);
      DocStep(lines, l);
      var d := Doc(lines);
      assert d[..Offset(lines, l)] == d[..Offset(lines, l + 1)][..Offset(lines, l)];
    }
  }

  /** A line is the stretch of the document between its offset and the next line's. */
  lemma LineInDoc(lines: seq<string>, l: nat)
    requires l < |lines|
    ensures Offset(lines, l) <= Offset(lines, l + 1) <= |Doc(lines)|
    ensures Doc(lines)[Offset(lines, l)..Offset(lines, l + 1)] == lines[l]
    ensures Offset(lines, l + 1) == Offset(lines, l) + |lines[l]|
  {
    DocStep(lines, l);
    DocPrefix(lines, l);
    DocPrefix(lines, l + 1);
    var d := Doc(lines);
    assert d[Offset(lines, l)..Offset(lines, l + 1)] == d[..Offset(lines, l + 1)][Offset(lines, l)..];
  }

  lemma {:induction false} OffsetsGrow(lines: seq<string>, k: nat, l: nat)
    requires k < l <= |lines|
    ensures Offset(lines, k + 1) <= Offset(lines, l)
    decreases l - k
  {
    if k + 1 < l {
      OffsetsGrow(lines, k, l - 1);
      DocStep(lines, l - 1);
    }
  }

  /** A place in the document is in one line, at one position. */
  lemma PlaceUnique(lines: seq<string>, k: nat, i: nat, l: nat, j: nat)
    requires k < |lines| && i < |lines[k]| && l < |lines| && j < |lines[l]|
    requires Offset(lines, k) + i == Offset(lines, l) + j
    ensures k == l && i == j
  {
    DocStep(lines, k);
    DocStep(lines, l);
    if k < l {
      OffsetsGrow(lines, k, l);
    } else if l < k {
      OffsetsGrow(lines, l, k);
    }
  }

  // ---------------------------------------------------------------- scans put together

  function Later(o: Outcome, n: nat): Outcome {
    match o
    case Ended(m) => Ended(n + m)
    case _ => o
  }

  /** Scanning one more piece from where the last one stopped is scanning both. */
  lemma ScanOn(u: string, q: seq<char>, w: string, o: Outcome)
    requires Scanned([], u, StillOpen(q)) && Scanned(q, w, o)
    ensures Scanned([], u + w, Later(o, |u|))
  {
    match o
    case Ended(n) =>
      ScanUpTo(u, q, w, n);
    case Failed =>
      var n: nat :| FailsAt(q, w, n);
      ScanUpTo(u, q, w, n);
      var k := |u| + n;
      assert FailsAt([], u + w, k);
    case StillOpen(q') =>
      RunConcat([], u, w);
      AliveConcat(u, q, w);
  }

  lemma ScanUpTo(u: string, q: seq<char>, w: string, n: nat)
    requires Scanned([], u, StillOpen(q)) && 0 < n <= |w| && Alive(q, w[..n - 1])
    ensures Alive([], (u + w)[..|u| + n - 1]) && Run([], (u + w)[..|u| + n]) == Run(q, w[..n])
  {
    assert (u + w)[..|u| + n] == u + w[..n] && (u + w)[..|u| + n - 1] == u + w[..n - 1];
    RunConcat([], u, w[..n]);
    AliveConcat(u, q, w[..n - 1]);
  }

  /** The outcome on a first part of a text decides where, if anywhere, its scan ends. */
  lemma Decided(text: string, u: string, o: Outcome)
    requires u <= text && Scanned([], u, o)
    ensures o.Ended? ==> EndsAt([], text, o.n)
    ensures o.Failed? ==> forall m: nat :: !EndsAt([], text, m)
    ensures o.StillOpen? && u == text ==> forall m: nat :: !EndsAt([], text, m)
  {
    match o
    case Ended(n) =>
      assert text[..n] == u[..n] && text[..n - 1] == u[..n - 1];
    case Failed =>
      var n: nat :| FailsAt([], u, n);
      assert text[..n] == u[..n] && text[..n - 1] == u[..n - 1];
      assert FailsAt([], text, n);
      forall m: nat
        ensures !EndsAt([], text, m)
      {
        if EndsAt([], text, m) {
          OneOutcome(text, n, m);
        }
      }
    case StillOpen(_) =>
      forall m: nat
        ensures u == text ==> !EndsAt([], text, m)
      {
        if EndsAt([], text, m) {
          OneOutcome(text, m, m);
        }
      }
  }

  lemma PairForward(d: string, a: nat, b: nat)
    requires a < |d| && IsOpen(d[a])
    ensures IsPair(d, a, b) <==> a < b && b + 1 - a <= |d| - a && EndsAt([], d[a..], b + 1 - a)
  {
    var u := d[a..];
    if a < b < |d| {
      assert u[..b + 1 - a] == d[a..b + 1];
      var w := u[..b + 1 - a];
      PairIsFirstEmpty(w);
      assert w[..|w|] == w && w[..|w| - 1] == u[..b - a];
    }
  }

  lemma PairBackward(d: string, a: nat, b: nat)
    requires b < |d| && IsClose(d[b])
    ensures IsPair(d, a, b) <==> a < b && EndsAt([], Mirror(d[..b + 1]), b + 1 - a)
  {
    var u := Mirror(d[..b + 1]);
    MirrorAt(d[..b + 1]);
    if a < b {
      MirrorCut(d, a, b);
      PairMirror(d[a..b + 1]);
      var w := u[..b + 1 - a];
      assert w[0] == Flip(d[b]);
      PairIsFirstEmpty(w);
      assert w[..|w|] == w && w[..|w| - 1] == u[..b - a];
    }
  }

  /** A lone bracket does not end a scan. */
  lemma NotAtOne(u: string)
    requires u != "" && IsOpen(u[0])
    ensures !EndsAt([], u, 1)
  {
    assert u[..1] == [u[0]];
    OneBracket(u[0]);
  }

  // ---------------------------------------------------------------- from an opening bracket to its end

  /** `(m, e)` is just past the bracket that closes the one at `(l, i)`; `e < 0` says that none does. */
  ghost predicate ClosedAt(lines: seq<string>, l: nat, i: nat, m: nat, e: int)
    requires l < |lines|
  {
    var d, a := Doc(lines), Offset(lines, l) + i;
    if e < 0 then forall b: nat :: !IsPair(d, a, b)
    else m < |lines| && 0 < e <= |lines[m]| && IsPair(d, a, Offset(lines, m) + e - 1)
  }

  /** Lines up to `m` have been scanned from `(l, i)` and the stack is what the plain matcher has. */
  ghost predicate ScannedTo(lines: seq<string>, l: nat, i: nat, m: nat, rest: Option<seq<char>>)
    requires l <= m < |lines|
  {
    var d, a := Doc(lines), Offset(lines, l) + i;
    && a <= Offset(lines, m + 1) <= |d|
    && match rest
       case None => Scanned([], d[a..Offset(lines, m + 1)], Failed)
       case Some(st) => Scanned([], d[a..Offset(lines, m + 1)], StillOpen(Solid(st))) && Stacked(st, '<')
  }

  lemma StartInDoc(lines: seq<string>, l: nat, i: nat)
    requires l < |lines| && i < |lines[l]|
    ensures var d, a := Doc(lines), Offset(lines, l) + i;
            a < Offset(lines, l + 1) <= |d| && d[a] == lines[l][i] && d[a..Offset(lines, l + 1)] == lines[l][i..]
  {
    LineInDoc(lines, l);
    var d, o := Doc(lines), Offset(lines, l);
    assert d[o..Offset(lines, l + 1)][i..] == d[o + i..Offset(lines, l + 1)];
  }

  lemma EndedInLine(lines: seq<string>, l: nat, i: nat, m: nat, e: nat)
    requires l <= m < |lines| && i < |lines[l]| && IsOpen(lines[l][i]) && 0 < e <= |lines[m]|
    requires var d, a := Doc(lines), Offset(lines, l) + i;
             a <= Offset(lines, m + 1) <= |d| && Offset(lines, m) + e >= a &&
             Scanned([], d[a..Offset(lines, m + 1)], Ended(Offset(lines, m) + e - a))
    ensures ClosedAt(lines, l, i, m, e)
  {
    hide Scanned;
    hide IsPair;
    hide Doc;
    hide Offset;
    var d, a := Doc(lines), Offset(lines, l) + i;
    StartInDoc(lines, l, i);
    EndedFrom(d, a, Offset(lines, m + 1), Offset(lines, m) + e - a);
  }

  lemma EndedFrom(d: string, a: nat, o: nat, n: nat)
    requires a < |d| && a <= o <= |d| && IsOpen(d[a]) && Scanned([], d[a..o], Ended(n))
    ensures n > 0 && IsPair(d, a, a + n - 1)
  {
    var u := d[a..o];
    assert n > 0;
    hide Scanned;
    hide EndsAt;
    hide IsPair;
    assert d[a..] == u + d[o..];
    Decided(d[a..], u, Ended(n));
    NotAtOne(d[a..]);
    PairForward(d, a, a + n - 1);
  }

  lemma FirstLineScanned(lines: seq<string>, l: nat, i: nat, e: int, rest: Option<seq<char>>)
    requires l < |lines| && i < |lines[l]| && IsOpen(lines[l][i]) && (e == -1 || i < e <= |lines[l]|)
    requires Returned([], '<', lines[l][i..], if e < 0 then -1 else e - i, rest)
    ensures if e >= 0 then ClosedAt(lines, l, i, l, e) else ScannedTo(lines, l, i, l, rest)
  {
    StartInDoc(lines, l, i);
    LineInDoc(lines, l);
    if e >= 0 {
      EndedInLine(lines, l, i, l, e);
    }
  }

  lemma NextLineScanned(lines: seq<string>, l: nat, i: nat, m: nat, st: seq<char>, e: int, rest: Option<seq<char>>)
    requires l <= m < |lines| - 1 && i < |lines[l]| && IsOpen(lines[l][i]) && (e == -1 || 0 < e <= |lines[m + 1]|)
    requires ScannedTo(lines, l, i, m, Some(st))
    requires Returned(st, '<', lines[m + 1], if e < 0 then -1 else e, rest)
    ensures if e >= 0 then ClosedAt(lines, l, i, m + 1, e) else ScannedTo(lines, l, i, m + 1, rest)
  {
    hide Doc;
    hide Offset;
    var d, a := Doc(lines), Offset(lines, l) + i;
    LineInDoc(lines, m + 1);
    var u, w := d[a..Offset(lines, m + 1)], lines[m + 1];
    assert u + w == d[a..Offset(lines, m + 2)];
    hide Scanned;
    if e >= 0 {
      ScanOn(u, Solid(st), w, Ended(e));
      EndedInLine(lines, l, i, m + 1, e);
    } else if rest.None? {
      ScanOn(u, Solid(st), w, Failed);
    } else {
      ScanOn(u, Solid(st), w, StillOpen(Solid(rest.value)));
    }
  }

  lemma NeverCloses(lines: seq<string>, l: nat, i: nat, m: nat, rest: Option<seq<char>>)
    requires l <= m < |lines| && i < |lines[l]| && IsOpen(lines[l][i]) && ScannedTo(lines, l, i, m, rest)
    requires rest.None? || m == |lines| - 1
    ensures ClosedAt(lines, l, i, |lines|, -1)
  {
    var d, a := Doc(lines), Offset(lines, l) + i;
    StartInDoc(lines, l, i);
    assert lines[..|lines|] == lines;
    var u := d[a..Offset(lines, m + 1)];
    Decided(d[a..], u, if rest.None? then Failed else StillOpen(Solid(rest.value)));
    forall b: nat
      ensures !IsPair(d, a, b)
    {
      PairForward(d, a, b);
    }
  }

  /** An opening bracket, or a `<` that is no shift or comparison. */
  predicate Starts(line: string, pos: nat)
    requires pos < |line|
  {
    IsOpen(line[pos]) || (line[pos] == '<' && (pos + 1 == |line| || (line[pos + 1] != '<' && line[pos + 1] != '=')))
  }

  /** Started on `(`, `[` or `{`, it finds the bracket that closes it, or tells that none does. */
  method CloseExpression(r: Rules, lines: seq<string>, start: nat, pos: nat)
    returns (line: string, linenum: nat, endpos: int)
    requires start < |lines| && pos < |lines[start]|
    ensures endpos == -1 ==> linenum == |lines|
    ensures endpos != -1 ==> start <= linenum < |lines| && line == lines[linenum] && 0 < endpos <= |line|
    ensures IsOpen(lines[start][pos]) ==> ClosedAt(lines, start, pos, linenum, endpos)
    ensures Starts(lines[start], pos) && ScanForward(r, lines[start], pos, []).0 >= 0 ==>
              linenum == start && endpos == ScanForward(r, lines[start], pos, []).0
  {
    hide Scanned;
    hide Stacked;
    hide ClosedAt;
    linenum := start;
    line := lines[linenum];
    if line[pos] !in "({[<" || (line[pos] == '<' && pos + 1 < |line| && (line[pos + 1] == '<' || line[pos + 1] == '=')) {
      return line, |lines|, -1;
    }
    ghost var open := IsOpen(line[pos]);
    var end, stack := FindEndOfExpressionInLine(r, line, pos, []);
    if open {
      FirstLineScanned(lines, start, pos, end, stack);
    }
    if end > -1 {
      return line, linenum, end;
    }
    while stack.Some? && stack.value != [] && linenum < |lines| - 1
      invariant start <= linenum < |lines| && line == lines[linenum]
      invariant open ==> ScannedTo(lines, start, pos, linenum, stack)
      decreases |lines| - linenum
    {
      ghost var before := stack.value;
      linenum := linenum + 1;
      line := lines[linenum];
      assert line[0..] == line;
      end, stack := FindEndOfExpressionInLine(r, line, 0, stack.value);
      if open {
        NextLineScanned(lines, start, pos, linenum - 1, before, end, stack);
      }
      if end > -1 {
        return line, linenum, end;
      }
    }
    if open {
      if stack.Some? {
        StackedNotEmpty(stack.value, '<');
      }
      NeverCloses(lines, start, pos, linenum, stack);
    }
    return line, |lines|, -1;
  }

  // ---------------------------------------------------------------- from a closing bracket to its start

  /** `(m, e)` is the bracket that the one at `(l, i)` closes; `e < 0` says that there is none. */
  ghost predicate OpenedAt(lines: seq<string>, l: nat, i: nat, m: nat, e: int)
    requires l < |lines|
  {
    var d, b := Doc(lines), Offset(lines, l) + i;
    if e < 0 then forall a: nat :: !IsPair(d, a, b)
    else m < |lines| && e < |lines[m]| && IsPair(d, Offset(lines, m) + e, b)
  }

  /** Lines down to `m` have been scanned back from `(l, i)`. */
  ghost predicate ScannedBack(lines: seq<string>, l: nat, i: nat, m: nat, rest: Option<seq<char>>)
    requires m <= l < |lines|
  {
    var d, b := Doc(lines), Offset(lines, l) + i;
    && Offset(lines, m) <= b < |d|
    && match rest
       case None => Scanned([], Mirror(d[Offset(lines, m)..b + 1]), Failed)
       case Some(st) =>
         Scanned([], Mirror(d[Offset(lines, m)..b + 1]), StillOpen(Facing(Solid(st), '>'))) && Stacked(st, '>')
  }

  lemma LineBeforeInDoc(lines: seq<string>, l: nat, i: nat)
    requires l < |lines| && i < |lines[l]|
    ensures var d, b := Doc(lines), Offset(lines, l) + i;
            b < |d| && d[b] == lines[l][i] && d[Offset(lines, l)..b + 1] == lines[l][..i + 1]
  {
    LineInDoc(lines, l);
    var d, o := Doc(lines), Offset(lines, l);
    assert d[o..Offset(lines, l + 1)][..i + 1] == d[o..o + i + 1];
  }

  lemma MirrorConcat(x: string, y: string)
    ensures Mirror(x + y) == Mirror(y) + Mirror(x)
  {
    MirrorAt(x);
    MirrorAt(y);
    MirrorAt(x + y);
    assert forall k :: 0 <= k < |x + y| ==> Mirror(x + y)[k] == (Mirror(y) + Mirror(x))[k];
  }

  /** What is scanned first, going back from `b`, is the text just before it. */
  lemma MirrorStart(d: string, o: nat, b: nat)
    requires o <= b < |d|
    ensures Mirror(d[o..b + 1]) <= Mirror(d[..b + 1]) && |Mirror(d[o..b + 1])| == b + 1 - o
    ensures Mirror(d[o..b + 1])[0] == Flip(d[b])
  {
    assert d[..b + 1] == d[..o] + d[o..b + 1];
    MirrorConcat(d[..o], d[o..b + 1]);
    MirrorAt(d[o..b + 1]);
  }

  lemma StartedInLine(lines: seq<string>, l: nat, i: nat, m: nat, e: nat)
    requires m <= l < |lines| && i < |lines[l]| && IsClose(lines[l][i]) && e < |lines[m]|
    requires var d, b := Doc(lines), Offset(lines, l) + i;
             Offset(lines, m) + e <= b < |d| &&
             Scanned([], Mirror(d[Offset(lines, m)..b + 1]), Ended(b + 1 - Offset(lines, m) - e))
    ensures OpenedAt(lines, l, i, m, e)
  {
    hide Scanned;
    hide EndsAt;
    hide IsPair;
    var d, b := Doc(lines), Offset(lines, l) + i;
    LineBeforeInDoc(lines, l, i);
    var a := Offset(lines, m) + e;
    MirrorStart(d, Offset(lines, m), b);
    Decided(Mirror(d[..b + 1]), Mirror(d[Offset(lines, m)..b + 1]), Ended(b + 1 - a));
    NotAtOne(Mirror(d[..b + 1]));
    PairBackward(d, a, b);
  }

  lemma LastLineScanned(lines: seq<string>, l: nat, i: nat, e: int, rest: Option<seq<char>>)
    requires l < |lines| && i < |lines[l]| && IsClose(lines[l][i]) && -1 <= e <= i
    requires Returned([], '>', Mirror(lines[l][..i + 1]), if e < 0 then -1 else i + 1 - e, rest)
    ensures if e >= 0 then OpenedAt(lines, l, i, l, e) else ScannedBack(lines, l, i, l, rest)
  {
    LineBeforeInDoc(lines, l, i);
    MirrorAt(lines[l][..i + 1]);
    assert Facing([], '>') == [];
    hide Scanned;
    if e >= 0 {
      StartedInLine(lines, l, i, l, e);
    }
  }

  lemma PreviousLineScanned(lines: seq<string>, l: nat, i: nat, m: nat, st: seq<char>, e: int, rest: Option<seq<char>>)
    requires 0 < m <= l < |lines| && i < |lines[l]| && IsClose(lines[l][i]) && -1 <= e < |lines[m - 1]|
    requires ScannedBack(lines, l, i, m, Some(st))
    requires Returned(st, '>', Mirror(lines[m - 1]), if e < 0 then -1 else |lines[m - 1]| - e, rest)
    ensures if e >= 0 then OpenedAt(lines, l, i, m - 1, e) else ScannedBack(lines, l, i, m - 1, rest)
  {
    hide Doc;
    hide Offset;
    var d, b := Doc(lines), Offset(lines, l) + i;
    LineInDoc(lines, m - 1);
    var x, w := d[Offset(lines, m)..b + 1], lines[m - 1];
    assert w + x == d[Offset(lines, m - 1)..b + 1];
    MirrorConcat(w, x);
    MirrorAt(x);
    hide Scanned;
    hide Facing;
    if e >= 0 {
      ScanOn(Mirror(x), Facing(Solid(st), '>'), Mirror(w), Ended(|w| - e));
      StartedInLine(lines, l, i, m - 1, e);
    } else if rest.None? {
      ScanOn(Mirror(x), Facing(Solid(st), '>'), Mirror(w), Failed);
    } else {
      ScanOn(Mirror(x), Facing(Solid(st), '>'), Mirror(w), StillOpen(Facing(Solid(rest.value), '>')));
    }
  }

  lemma NeverOpens(lines: seq<string>, l: nat, i: nat, m: nat, rest: Option<seq<char>>)
    requires m <= l < |lines| && i < |lines[l]| && IsClose(lines[l][i]) && ScannedBack(lines, l, i, m, rest)
    requires rest.None? || m == 0
    ensures OpenedAt(lines, l, i, 0, -1)
  {
    hide Scanned;
    var d, b := Doc(lines), Offset(lines, l) + i;
    LineBeforeInDoc(lines, l, i);
    MirrorStart(d, Offset(lines, m), b);
    assert d[0..b + 1] == d[..b + 1];
    Decided(Mirror(d[..b + 1]), Mirror(d[Offset(lines, m)..b + 1]),
            if rest.None? then Failed else StillOpen(Facing(Solid(rest.value), '>')));
    forall a: nat
      ensures !IsPair(d, a, b)
    {
      PairBackward(d, a, b);
    }
  }

  /** Started on `)`, `]` or `}`, it finds the bracket that this one closes, or tells that there is none. */
  method ReverseCloseExpression(r: Rules, lines: seq<string>, start: nat, pos: nat)
    returns (line: string, linenum: nat, startpos: int)
    requires start < |lines| && pos < |lines[start]|
    ensures startpos < 0 ==> startpos == -1 && linenum == 0
    ensures startpos >= 0 ==> linenum <= start && line == lines[linenum] && startpos < |line|
    ensures Sound(r) && IsClose(lines[start][pos]) ==> OpenedAt(lines, start, pos, linenum, startpos)
    ensures lines[start][pos] in ")}]>" && ScanBack(r, lines[start], pos, []).0 >= 0 ==>
              linenum == start && startpos == ScanBack(r, lines[start], pos, []).0
  {
    hide Scanned;
    hide Stacked;
    hide OpenedAt;
    hide Sound;
    hide Returned;
    hide Mirror;
    linenum := start;
    line := lines[linenum];
    if line[pos] !in ")}]>" {
      return line, 0, -1;
    }
    ghost var close := Sound(r) && IsClose(line[pos]);
    var at, stack := FindStartOfExpressionInLine(r, line, pos, []);
    if close {
      LastLineScanned(lines, start, pos, at, stack);
    }
    if at > -1 {
      return line, linenum, at;
    }
    while stack.Some? && stack.value != [] && linenum > 0
      invariant linenum <= start && line == lines[linenum]
      invariant close ==> ScannedBack(lines, start, pos, linenum, stack)
      decreases linenum
    {
      ghost var before := stack.value;
      linenum := linenum - 1;
      line := lines[linenum];
      assert line[..|line|] == line;
      at, stack := FindStartOfExpressionInLine(r, line, |line| - 1, stack.value);
      if close {
        PreviousLineScanned(lines, start, pos, linenum + 1, before, at, stack);
      }
      if at > -1 {
        return line, linenum, at;
      }
    }
    if close {
      if stack.Some? {
        StackedNotEmpty(stack.value, '>');
      }
      NeverOpens(lines, start, pos, linenum, stack);
    }
    return line, 0, -1;
  }

  // ---------------------------------------------------------------- inverse of each other

  /** The two searches agree on every pair: what one may answer, the other answers back. */
  lemma SearchesInverse(lines: seq<string>, l: nat, i: nat, m: nat, j: nat, ln: nat, e: int, ls: nat, s: int)
    requires l < |lines| && i < |lines[l]| && IsOpen(lines[l][i])
    requires m < |lines| && j < |lines[m]| && IsClose(lines[m][j])
    requires ClosedAt(lines, l, i, ln, e) && OpenedAt(lines, m, j, ls, s)
    ensures (e >= 0 && ln == m && e == j + 1) <==> (s >= 0 && ls == l && s == i)
  {
    hide IsPair;
    var d, a, b := Doc(lines), Offset(lines, l) + i, Offset(lines, m) + j;
    if e >= 0 && ln == m && e == j + 1 {
      assert IsPair(d, a, b);
      assert s >= 0;
      OneOpener(d, a, Offset(lines, ls) + s, b);
      PlaceUnique(lines, l, i, ls, s);
    }
    if s >= 0 && ls == l && s == i {
      assert IsPair(d, a, b);
      assert e >= 0;
      OneCloser(d, a, b, Offset(lines, ln) + e - 1);
      PlaceUnique(lines, m, j, ln, e - 1);
    }
  }

  /** Going to the end of an expression and back returns to where it began. */
  method ThereAndBack(r: Rules, lines: seq<string>, start: nat, pos: nat) returns (found: bool, linenum: nat, at: int)
    requires Sound(r) && start < |lines| && pos < |lines[start]| && IsOpen(lines[start][pos])
    ensures found ==> linenum == start && at == pos
    ensures var d, a := Doc(lines), Offset(lines, start) + pos; found <==> exists b: nat :: IsPair(d, a, b)
  {
    hide IsPair;
    var line, ln, e := CloseExpression(r, lines, start, pos);
    if e < 0 {
      return false, 0, -1;
    }
    ghost var b := Offset(lines, ln) + e - 1;
    PairCloses(Doc(lines), Offset(lines, start) + pos, b);
    LineBeforeInDoc(lines, ln, e - 1);
    var line', ls, s := ReverseCloseExpression(r, lines, ln, e - 1);
    SearchesInverse(lines, start, pos, ln, e - 1, ln, e, ls, s);
    return true, ls, s;
  }

  lemma PairCloses(d: string, a: nat, b: nat)
    requires IsPair(d, a, b)
    ensures b < |d| && IsClose(d[b])
  {
    var w := d[a..b + 1];
    assert w[|w| - 1] == d[b];
  }

  // ---------------------------------------------------------------- the text inside

  /**
   * The text between the bracket at `at` and its partner, `None` if it has none. The stack holds the
   * closing brackets still expected.
   */
  method TextAfterBracket(text: string, at: nat) returns (inside: Option<string>)
    requires at < |text| && IsOpen(text[at])
    ensures match inside
            case Some(t) => exists b: nat :: IsPair(text, at, b) && t == text[at + 1..b]
            case None => forall b: nat :: !IsPair(text, at, b)
  {
    ghost var u := text[at..];
    var stack := [Flip(text[at])];
    var position := at + 1;
    assert u[..1] == [text[at]];
    OneBracket(text[at]);
    Expecting(stack);
    while stack != [] && position < |text|
      invariant at < position <= |text|
      invariant forall k :: 0 <= k < |stack| ==> IsClose(stack[k])
      invariant Scanned([], u[..position - at], StillOpen(Facing(stack, '>'))) && stack != []
      decreases |text| - position
    {
      hide Scanned;
      var c := text[position];
      assert u[position - at] == c;
      ScanStep([], u, position - at, Facing(stack, '>'));
      ExpectedStep(stack, c);
      if c == stack[|stack| - 1] {
        stack := stack[..|stack| - 1];
        if stack == [] {
          assert Facing(stack, '>') == [];
          InsideFound(text, at, position);
          return Some(text[at + 1..position]);
        }
      } else if IsClose(c) {
        InsideMissing(text, at, Failed);
        return None;
      } else if IsOpen(c) {
        stack := stack + [Flip(c)];
      }
      position := position + 1;
    }
    assert u[..|u|] == u;
    InsideMissing(text, at, StillOpen(Facing(stack, '>')));
    return None;
  }

  /**
   * `start` is where the match of the start pattern ends, if it has one; the code demands that it
   * ends with an opening bracket.
   */
  method GetTextInside(text: string, start: Option<nat>) returns (inside: Option<string>)
    requires start.Some? ==> 0 < start.value <= |text| && IsOpen(text[start.value - 1])
    ensures match inside
            case Some(t) => start.Some? && var a := start.value - 1; exists b: nat :: IsPair(text, a, b) && t == text[a + 1..b]
            case None => start.None? || var a := start.value - 1; forall b: nat :: !IsPair(text, a, b)
  {
    if start.None? {
      return None;
    }
    inside := TextAfterBracket(text, start.value - 1);
  }

  lemma Expecting(stack: seq<char>)
    requires |stack| == 1
    ensures Facing(stack, '>') == [Flip(stack[0])]
  {
  }

  /** One character against the expected brackets is a step of the plain matcher. */
  lemma ExpectedStep(stack: seq<char>, c: char)
    requires stack != [] && forall k :: 0 <= k < |stack| ==> IsClose(stack[k])
    ensures Step(Facing(stack, '>'), c) ==
            if c == stack[|stack| - 1] then Some(Facing(stack[..|stack| - 1], '>'))
            else if IsClose(c) then None
            else if IsOpen(c) then Some(Facing(stack + [Flip(c)], '>'))
            else Some(Facing(stack, '>'))
  {
    var init, top := stack[..|stack| - 1], stack[|stack| - 1];
    assert stack == init + [top];
    FacingSnoc(init, '>', top);
    FacingSnoc(stack, '>', Flip(c));
    assert (Facing(init, '>') + [Flip(top)])[..|init|] == Facing(init, '>');
  }

  lemma InsideFound(text: string, at: nat, b: nat)
    requires at < b < |text| && IsOpen(text[at])
    requires Scanned([], text[at..], Ended(b - at + 1))
    ensures IsPair(text, at, b)
  {
    hide IsPair;
    Decided(text[at..], text[at..], Ended(b - at + 1));
    PairForward(text, at, b);
  }

  lemma InsideMissing(text: string, at: nat, o: Outcome)
    requires at < |text| && IsOpen(text[at])
    requires Scanned([], text[at..], o) && !o.Ended?
    ensures forall b: nat :: !IsPair(text, at, b)
  {
    hide Scanned;
    Decided(text[at..], text[at..], o);
    forall b: nat
      ensures !IsPair(text, at, b)
    {
      PairForward(text, at, b);
    }
  }
}
