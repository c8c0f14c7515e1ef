/**
 * The bracket scanners of build_support/cpplint.py. Their stacks also hold `<` or `>`, pushed and
 * dropped by rules of thumb about templates and operators.
 */
module Scanner {
  import opened Options
  import opened Brackets

  /**
   * The regular expressions the scanners ask about: `operatorEnd` is a search for `operator` at the
   * end of a text, `spacedGe` a match of `>=` between blanks.
   */
  datatype Rules = Rules(operatorEnd: string -> bool, spacedGe: string -> bool)

  /** The character next to what a rule has matched, which the backward scanner skips, is no bracket. */
  ghost predicate Sound(r: Rules) {
    && (forall s :: r.operatorEnd(s) ==> s != "" && !IsBracket(s[|s| - 1]))
    && (forall s :: r.spacedGe(s) ==> s != "" && !IsBracket(s[0]))
  }

  /** `\boperator\s*$` and `\s>=\s`, for given notions of blank and of word character. */
  function PythonRules(blank: char -> bool, word: char -> bool): Rules {
    Rules(s => EndsInOperator(s, blank, word), s => |s| >= 4 && blank(s[0]) && s[1] == '>' && s[2] == '=' && blank(s[3]))
  }

  predicate EndsInOperator(s: string, blank: char -> bool, word: char -> bool) {
    if s == "" then false
    else if blank(s[|s| - 1]) then EndsInOperator(s[..|s| - 1], blank, word)
    else |s| >= 8 && s[|s| - 8..] == "operator" && (|s| == 8 || !word(s[|s| - 9]))
  }

  lemma OperatorEndIsPlain(s: string, blank: char -> bool, word: char -> bool)
    requires EndsInOperator(s, blank, word)
    ensures s != "" && (blank(s[|s| - 1]) || s[|s| - 1] == 'r')
  {
    if !blank(s[|s| - 1]) {
      var tail := s[|s| - 8..];
      assert tail[7] == "operator"[7] == 'r';
      assert s[|s| - 1] == tail[7];
    }
  }

  /** The scanners' own expressions are sound as soon as no bracket is a blank. */
  lemma PythonRulesSound(blank: char -> bool, word: char -> bool)
    requires forall c :: IsBracket(c) ==> !blank(c)
    ensures Sound(PythonRules(blank, word))
  {
    hide EndsInOperator;
    var r := PythonRules(blank, word);
    forall s | r.operatorEnd(s)
      ensures s != "" && !IsBracket(s[|s| - 1])
    {
      OperatorEndIsPlain(s, blank, word);
    }
  }

  /** The brackets of a scanner's stack, without the tentative `<` or `>`. */
  function Solid(st: seq<char>): seq<char> {
    if st == [] then []
    else if IsBracket(st[|st| - 1]) then Solid(st[..|st| - 1]) + [st[|st| - 1]]
    else Solid(st[..|st| - 1])
  }

  lemma {:induction false} SolidBottom(st: seq<char>)
    requires st != [] && IsBracket(st[0])
    ensures Solid(st) != [] && Solid(st)[0] == st[0]
  {
    if |st| > 1 {
      SolidBottom(st[..|st| - 1]);
    }
  }

  lemma SolidSnoc(st: seq<char>, c: char)
    ensures Solid(st + [c]) == if IsBracket(c) then Solid(st) + [c] else Solid(st)
  {
    assert (st + [c])[..|st|] == st;
  }

  /** The stack with its pending `c`s removed, as a closing bracket or a semicolon does. */
  function DropPending(st: seq<char>, c: char): seq<char> {
    if st != [] && st[|st| - 1] == c then DropPending(st[..|st| - 1], c) else st
  }

  method PopPending(stack: seq<char>, c: char) returns (r: seq<char>)
    ensures r == DropPending(stack, c)
  {
    r := stack;
    while r != [] && r[|r| - 1] == c
      invariant DropPending(r, c) == DropPending(stack, c)
      decreases |r|
    {
      r := r[..|r| - 1];
    }
  }

  // ---------------------------------------------------------------- one character

  /** What one character does to a scanner: go on, stop at the end, or give up. */
  datatype Move = Go(st: seq<char>) | Stop | Fail

  /** A stack of opening brackets and `<`, or backwards of closing brackets and `>`, on a bracket. */
  ghost predicate Stacked(st: seq<char>, angle: char) {
    && st != [] && IsBracket(st[0]) && !IsBracket(angle)
    && forall i :: 0 <= i < |st| ==> st[i] == angle || (if angle == '<' then IsOpen(st[i]) else IsClose(st[i]))
  }

  /** Brackets turned to the side a forward matcher keeps on its stack. */
  function Facing(st: seq<char>, angle: char): seq<char> {
    if angle == '<' then st else seq(|st|, i requires 0 <= i < |st| => Flip(st[i]))
  }

  /** The move does to the brackets of the stack what the plain matcher does on reading `c`. */
  ghost predicate Follows(stack: seq<char>, angle: char, c: char, m: Move) {
    var p := Facing(Solid(stack), angle);
    match m
    case Go(st) => Step(p, c) == Some(Facing(Solid(st), angle)) && Stacked(st, angle)
    case Stop => Step(p, c) == Some([])
    case Fail => Step(p, c) == None
  }

  lemma KeepFollows(stack: seq<char>, angle: char, c: char, st: seq<char>)
    requires Stacked(stack, angle) && Stacked(st, angle) && Solid(st) == Solid(stack) && !IsBracket(c)
    ensures Follows(stack, angle, c, Go(st))
  {
  }

  lemma PushFollows(stack: seq<char>, angle: char, c: char)
    requires stack == [] || Stacked(stack, angle)
    requires angle == '<' || angle == '>'
    requires if angle == '<' then IsOpen(c) else IsClose(c)
    ensures Follows(stack, angle, if angle == '<' then c else Flip(c), Go(stack + [c]))
  {
    SolidSnoc(stack, c);
    FacingSnoc(Solid(stack), angle, c);
  }

  /** Dropping one pending angle never empties a stack that rests on a bracket. */
  lemma AngleAbove(stack: seq<char>, angle: char)
    requires Stacked(stack, angle) && stack[|stack| - 1] == angle
    ensures |stack| > 1 && Stacked(stack[..|stack| - 1], angle) && Solid(stack[..|stack| - 1]) == Solid(stack)
  {
  }

  lemma AnglePushed(stack: seq<char>, angle: char)
    requires Stacked(stack, angle)
    ensures Stacked(stack + [angle], angle) && Solid(stack + [angle]) == Solid(stack)
  {
    SolidSnoc(stack, angle);
  }

  lemma {:induction false} DropStacked(stack: seq<char>, angle: char)
    requires Stacked(stack, angle)
    ensures Stacked(DropPending(stack, angle), angle) && Solid(DropPending(stack, angle)) == Solid(stack)
    ensures DropPending(stack, angle)[|DropPending(stack, angle)| - 1] != angle
  {
    if stack[|stack| - 1] == angle {
      AngleAbove(stack, angle);
      DropStacked(stack[..|stack| - 1], angle);
    }
  }

  /** A closing bracket, or backwards an opening one, met with no angle pending. */
  lemma CloseFollows(stack: seq<char>, angle: char, c: char, st: seq<char>)
    requires Stacked(stack, angle) && Stacked(st, angle) && Solid(st) == Solid(stack)
    requires st[|st| - 1] != angle && (angle == '<' || angle == '>')
    requires if angle == '<' then IsClose(c) else IsOpen(c)
    ensures Follows(stack, angle, if angle == '<' then c else Flip(c),
                    if st[|st| - 1] != Flip(c) then Fail else if |st| == 1 then Stop else Go(st[..|st| - 1]))
  {
    ClosePlain(st, angle, c);
    assert |st| > 1 ==> Stacked(st[..|st| - 1], angle);
    hide Solid;
    hide Facing;
    hide Step;
    hide Flip;
    hide Stacked;
  }

  lemma ClosePlain(st: seq<char>, angle: char, c: char)
    requires Stacked(st, angle) && st[|st| - 1] != angle && (angle == '<' || angle == '>')
    requires if angle == '<' then IsClose(c) else IsOpen(c)
    ensures Step(Facing(Solid(st), angle), if angle == '<' then c else Flip(c)) ==
            if st[|st| - 1] == Flip(c) then Some(Facing(Solid(st[..|st| - 1]), angle)) else None
    ensures |st| == 1 ==> Facing(Solid(st[..|st| - 1]), angle) == []
  {
    var init, top := st[..|st| - 1], st[|st| - 1];
    assert st == init + [top];
    SolidSnoc(init, top);
    FacingSnoc(Solid(init), angle, top);
    CloseStep(Facing(Solid(init), angle), if angle == '<' then top else Flip(top), if angle == '<' then c else Flip(c));
    FlipSides(top, c);
  }

  lemma FacingSnoc(st: seq<char>, angle: char, c: char)
    ensures Facing(st + [c], angle) == Facing(st, angle) + [if angle == '<' then c else Flip(c)]
  {
  }

  lemma CloseStep(p: seq<char>, t: char, d: char)
    requires IsClose(d)
    ensures Step(p + [t], d) == if t == Flip(d) then Some(p) else None
  {
    assert (p + [t])[..|p|] == p;
  }

  lemma FlipSides(a: char, b: char)
    ensures a == Flip(b) <==> Flip(a) == Flip(Flip(b))
  {
  }

  // ---------------------------------------------------------------- the forward scanner

  /** What the forward scanner does at `i`. */
  function Forward(r: Rules, line: string, i: nat, stack: seq<char>): Move
    requires i < |line|
  {
    var c := line[i];
    var top := if stack == [] then ' ' else stack[|stack| - 1];
    if IsOpen(c) then Go(stack + [c])
    else if c == '<' then
      if i > 0 && line[i - 1] == '<' then if top == '<' then Popped(stack, Fail) else Go(stack)
      else if i > 0 && r.operatorEnd(line[..i]) then Go(stack)
      else Go(stack + ['<'])
    else if IsClose(c) then
      var st := DropPending(stack, '<');
      if st == [] || st[|st| - 1] != Flip(c) then Fail else Popped(st, Stop)
    else if c == '>' then
      if i > 0 && (line[i - 1] == '-' || r.operatorEnd(line[..i - 1])) then Go(stack)
      else if top == '<' then Popped(stack, Stop) else Go(stack)
    else if c == ';' then
      var st := DropPending(stack, '<');
      if st == [] then Fail else Go(st)
    else Go(stack)
  }

  /** The stack without its top, or `last` if nothing is left. */
  function Popped(stack: seq<char>, last: Move): Move
    requires stack != []
  {
    if |stack| == 1 then last else Go(stack[..|stack| - 1])
  }

  /** What the forward scanner returns from `i` on. */
  function ScanForward(r: Rules, line: string, i: nat, stack: seq<char>): (int, Option<seq<char>>)
    requires i <= |line|
    decreases |line| - i
  {
    if i == |line| then (-1, Some(stack))
    else match Forward(r, line, i, stack)
      case Go(st) => ScanForward(r, line, i + 1, st)
      case Stop => (i + 1, None)
      case Fail => (-1, None)
  }

  /** The body of the forward loop, for the character at `i`. */
  method ForwardMove(r: Rules, line: string, i: nat, stack: seq<char>) returns (m: Move)
    requires i < |line|
    ensures m == Forward(r, line, i, stack)
    ensures Stacked(stack, '<') || (stack == [] && IsOpen(line[i])) ==> Follows(stack, '<', line[i], m)
  {
    var c := line[i];
    ghost var ok := Stacked(stack, '<');
    hide Follows;
    hide Stacked;
    hide Solid;
    hide DropPending;
    if ok && !IsBracket(c) {
      KeepFollows(stack, '<', c, stack);
    }
    if IsOpen(c) {
      if ok || stack == [] {
        PushFollows(stack, '<', c);
      }
      return Go(stack + [c]);
    } else if c == '<' {
      if i > 0 && line[i - 1] == '<' {
        if stack != [] && stack[|stack| - 1] == '<' {
          if ok {
            AngleAbove(stack, '<');
            KeepFollows(stack, '<', c, stack[..|stack| - 1]);
          }
          if |stack| == 1 {
            return Fail;
          }
          return Go(stack[..|stack| - 1]);
        }
      } else if i > 0 && r.operatorEnd(line[..i]) {
        return Go(stack);
      } else {
        if ok {
          AnglePushed(stack, '<');
          KeepFollows(stack, '<', c, stack + ['<']);
        }
        return Go(stack + ['<']);
      }
    } else if IsClose(c) {
      var st := PopPending(stack, '<');
      if ok {
        DropStacked(stack, '<');
        CloseFollows(stack, '<', c, st);
        StackedNotEmpty(st, '<');
      }
      if st == [] {
        return Fail;
      }
      if (st[|st| - 1] == '(' && c == ')') || (st[|st| - 1] == '[' && c == ']') || (st[|st| - 1] == '{' && c == '}') {
        if |st| == 1 {
          return Stop;
        }
        return Go(st[..|st| - 1]);
      }
      return Fail;
    } else if c == '>' {
      if i > 0 && (line[i - 1] == '-' || r.operatorEnd(line[..i - 1])) {
        return Go(stack);
      }
      if stack != [] && stack[|stack| - 1] == '<' {
        if ok {
          AngleAbove(stack, '<');
          KeepFollows(stack, '<', c, stack[..|stack| - 1]);
        }
        if |stack| == 1 {
          return Stop;
        }
        return Go(stack[..|stack| - 1]);
      }
    } else if c == ';' {
      var st := PopPending(stack, '<');
      if ok {
        DropStacked(stack, '<');
        KeepFollows(stack, '<', c, st);
        StackedNotEmpty(st, '<');
      }
      if st == [] {
        return Fail;
      }
      return Go(st);
    }
    return Go(stack);
  }

  lemma StackedNotEmpty(st: seq<char>, angle: char)
    requires Stacked(st, angle)
    ensures st != []
  {
  }

  // ---------------------------------------------------------------- one line

  /** How a scan of some text from stack `p` comes out. */
  datatype Outcome = Ended(n: nat) | Failed | StillOpen(p: seq<char>)

  /** What the plain matcher says of `w`, started with `p`. */
  ghost predicate Scanned(p: seq<char>, w: string, o: Outcome) {
    match o
    case Ended(n) => EndsAt(p, w, n)
    case Failed => exists n: nat :: FailsAt(p, w, n)
    case StillOpen(q) => Alive(p, w) && Run(p, w) == Some(q)
  }

  lemma ScannedNothing(p: seq<char>)
    ensures Scanned(p, "", StillOpen(p))
  {
  }

  lemma ScanStep(p: seq<char>, w: string, k: nat, q: seq<char>)
    requires k < |w| && Scanned(p, w[..k], StillOpen(q))
    ensures match Step(q, w[k])
            case None => Scanned(p, w, Failed)
            case Some(q') => if q' == [] then Scanned(p, w, Ended(k + 1)) else Scanned(p, w[..k + 1], StillOpen(q'))
  {
    assert w[..k + 1] == w[..k] + [w[k]];
    RunSnoc(p, w[..k], w[k]);
    var n := k + 1;
    assert w[..n - 1] == w[..k];
    match Step(q, w[k])
    case None =>
      assert FailsAt(p, w, n);
    case Some(q') =>
      if q' != [] {
        AliveSnoc(p, w[..k], w[k]);
      }
  }

  /** The scan goes on over a character, as the scanner's move says. */
  lemma ScanMove(p: seq<char>, w: string, k: nat, stack: seq<char>, angle: char, m: Move)
    requires k < |w| && Scanned(p, w[..k], StillOpen(Facing(Solid(stack), angle))) && Follows(stack, angle, w[k], m)
    ensures match m
            case Go(st) => Scanned(p, w[..k + 1], StillOpen(Facing(Solid(st), angle))) && Stacked(st, angle)
            case Stop => Scanned(p, w, Ended(k + 1))
            case Fail => Scanned(p, w, Failed)
  {
    ScanStep(p, w, k, Facing(Solid(stack), angle));
    if m.Go? {
      SolidBottom(m.st);
    }
  }

  /** The stack the caller passes, or the bracket the scan starts on. */
  ghost predicate Ready(stack: seq<char>, angle: char, start: string) {
    Stacked(stack, angle) || (stack == [] && start != "" && (if angle == '<' then IsOpen(start[0]) else IsClose(start[0])))
  }

  /** What a line scanner returns, read as an outcome; `n` is how far its position is from its start. */
  ghost predicate Returned(stack: seq<char>, angle: char, w: string, n: int, rest: Option<seq<char>>) {
    var p := Facing(Solid(stack), angle);
    if n >= 0 then rest == None && Scanned(p, w, Ended(n))
    else match rest
      case None => Scanned(p, w, Failed)
      case Some(st) => Scanned(p, w, StillOpen(Facing(Solid(st), angle))) && (w != "" || stack != [] ==> Stacked(st, angle))
  }

  method FindEndOfExpressionInLine(r: Rules, line: string, startpos: nat, stack: seq<char>)
    returns (endpos: int, rest: Option<seq<char>>)
    requires startpos <= |line|
    ensures endpos == -1 || startpos < endpos <= |line|
    ensures (endpos, rest) == ScanForward(r, line, startpos, stack)
    ensures Ready(stack, '<', line[startpos..]) ==>
              Returned(stack, '<', line[startpos..], if endpos < 0 then -1 else endpos - startpos, rest)
  {
    ghost var w, p := line[startpos..], Facing(Solid(stack), '<');
    ghost var ok := Ready(stack, '<', w);
    ScannedNothing(p);
    hide Solid;
    hide Facing;
    hide Scanned;
    hide Follows;
    hide Stacked;
    hide Forward;
    var st := stack;
    assert w[..0] == "";
    for i := startpos to |line|
      invariant ScanForward(r, line, i, st) == ScanForward(r, line, startpos, stack)
      invariant ok ==> Scanned(p, w[..i - startpos], StillOpen(Facing(Solid(st), '<')))
      invariant ok ==> Stacked(st, '<') || (st == [] && i == startpos && w != "" && IsOpen(w[0]))
    {
      var m := ForwardMove(r, line, i, st);
      if ok {
        ScanMove(p, w, i - startpos, st, '<', m);
      }
      match m {
        case Go(next) => st := next;
        case Stop => return i + 1, None;
        case Fail => return -1, None;
      }
    }
    assert w[..|w|] == w;
    return -1, Some(st);
  }

  // ---------------------------------------------------------------- the backward scanner

  /** What the backward scanner does at `i`, and whether it then skips the character before. */
  function Backward(r: Rules, line: string, i: nat, stack: seq<char>): (p: (Move, bool))
    requires i < |line|
    ensures p.1 ==> i > 0 && p.0.Go?
  {
    var c := line[i];
    if IsClose(c) then (Go(stack + [c]), false)
    else if c == '>' then
      if i > 0 && (line[i - 1] == '-' || r.spacedGe(line[i - 1..]) || r.operatorEnd(line[..i])) then (Go(stack), true)
      else (Go(stack + ['>']), false)
    else if c == '<' then
      if i > 0 && line[i - 1] == '<' then (Go(stack), true)
      else if stack != [] && stack[|stack| - 1] == '>' then (Popped(stack, Stop), false)
      else (Go(stack), false)
    else if IsOpen(c) then
      var st := DropPending(stack, '>');
      if st == [] || st[|st| - 1] != Flip(c) then (Fail, false) else (Popped(st, Stop), false)
    else if c == ';' then
      var st := DropPending(stack, '>');
      if st == [] then (Fail, false) else (Go(st), false)
    else (Go(stack), false)
  }

  /** What the backward scanner returns from `i` on. */
  function ScanBack(r: Rules, line: string, i: int, stack: seq<char>): (int, Option<seq<char>>)
    requires -1 <= i < |line|
    decreases i + 1
  {
    if i < 0 then (-1, Some(stack))
    else
      var (m, skip) := Backward(r, line, i, stack);
      match m
      case Go(st) => ScanBack(r, line, if skip then i - 2 else i - 1, st)
      case Stop => (i, None)
      case Fail => (-1, None)
  }

  lemma ScanBackEnd(r: Rules, line: string)
    ensures forall stack :: ScanBack(r, line, -1, stack) == (-1, Some(stack))
  {
  }

  lemma ScanBackStep(r: Rules, line: string, i: nat, stack: seq<char>)
    requires i < |line|
    ensures var (m, skip) := Backward(r, line, i, stack);
            ScanBack(r, line, i, stack) ==
            match m
            case Go(st) => ScanBack(r, line, if skip then i - 2 else i - 1, st)
            case Stop => (i, None)
            case Fail => (-1, None)
  {
  }

  /** The body of the backward loop, for the character at `i`; `skip` steps over the one before it too. */
  method BackwardMove(r: Rules, line: string, i: nat, stack: seq<char>) returns (m: Move, skip: bool)
    requires i < |line|
    ensures skip ==> i > 0 && m.Go?
    ensures (m, skip) == Backward(r, line, i, stack)
    ensures Sound(r) && (Stacked(stack, '>') || (stack == [] && IsClose(line[i]))) ==>
              Follows(stack, '>', Flip(line[i]), m) && (skip ==> !IsBracket(line[i - 1]))
  {
    var c := line[i];
    skip := false;
    ghost var ok := Sound(r) && Stacked(stack, '>');
    ghost var sound := Sound(r);
    hide Follows;
    hide Stacked;
    hide Solid;
    hide DropPending;
    if ok && !IsBracket(c) {
      KeepFollows(stack, '>', c, stack);
    }
    if IsClose(c) {
      if ok || stack == [] {
        PushFollows(stack, '>', c);
      }
      return Go(stack + [c]), false;
    } else if c == '>' {
      if i > 0 && (line[i - 1] == '-' || r.spacedGe(line[i - 1..]) || r.operatorEnd(line[..i])) {
        return Go(stack), true;
      }
      if ok {
        AnglePushed(stack, '>');
        KeepFollows(stack, '>', c, stack + ['>']);
      }
      return Go(stack + ['>']), false;
    } else if c == '<' {
      if i > 0 && line[i - 1] == '<' {
        return Go(stack), true;
      }
      if stack != [] && stack[|stack| - 1] == '>' {
        if ok {
          AngleAbove(stack, '>');
          KeepFollows(stack, '>', c, stack[..|stack| - 1]);
        }
        if |stack| == 1 {
          return Stop, false;
        }
        return Go(stack[..|stack| - 1]), false;
      }
    } else if IsOpen(c) {
      var st := PopPending(stack, '>');
      if ok {
        DropStacked(stack, '>');
        CloseFollows(stack, '>', c, st);
        StackedNotEmpty(st, '>');
      }
      if st == [] {
        return Fail, false;
      }
      if (c == '(' && st[|st| - 1] == ')') || (c == '[' && st[|st| - 1] == ']') || (c == '{' && st[|st| - 1] == '}') {
        if |st| == 1 {
          return Stop, false;
        }
        return Go(st[..|st| - 1]), false;
      }
      return Fail, false;
    } else if c == ';' {
      var st := PopPending(stack, '>');
      if ok {
        DropStacked(stack, '>');
        KeepFollows(stack, '>', c, st);
        StackedNotEmpty(st, '>');
      }
      if st == [] {
        return Fail, false;
      }
      return Go(st), false;
    }
    return Go(stack), false;
  }

  /** The characters after `i`, up to `endpos`, have been scanned backwards and the stack is `st`. */
  ghost predicate Backed(stack: seq<char>, line: string, endpos: int, i: int, st: seq<char>) {
    && -1 <= i <= endpos < |line|
    && |Mirror(line[..endpos + 1])| == endpos + 1
    && Scanned(Facing(Solid(stack), '>'), Mirror(line[..endpos + 1])[..endpos - i], StillOpen(Facing(Solid(st), '>')))
    && (Stacked(st, '>') || (st == [] && i == endpos && i >= 0 && IsClose(line[i])))
  }

  lemma BackedStart(stack: seq<char>, line: string, endpos: int)
    requires -1 <= endpos < |line| && Ready(stack, '>', if endpos < 0 then "" else [line[endpos]])
    ensures Backed(stack, line, endpos, endpos, stack)
  {
    MirrorAt(line[..endpos + 1]);
    ScannedNothing(Facing(Solid(stack), '>'));
    assert Mirror(line[..endpos + 1])[..0] == "";
  }

  /** The move, and the character it may skip, carry the scan on. */
  lemma BackedStep(stack: seq<char>, line: string, endpos: nat, i: nat, st: seq<char>, m: Move, skip: bool)
    requires Backed(stack, line, endpos, i, st) && (skip ==> i > 0 && m.Go? && !IsBracket(line[i - 1]))
    requires Follows(st, '>', Flip(line[i]), m)
    ensures var w := Mirror(line[..endpos + 1]);
            match m
            case Go(st') => Backed(stack, line, endpos, if skip then i - 2 else i - 1, st')
            case Stop => Returned(stack, '>', w, endpos + 1 - i, None)
            case Fail => Returned(stack, '>', w, -1, None)
  {
    var w, p := Mirror(line[..endpos + 1]), Facing(Solid(stack), '>');
    MirrorAt(line[..endpos + 1]);
    assert w[endpos - i] == Flip(line[i]);
    hide Scanned;
    hide Follows;
    hide Stacked;
    ScanMove(p, w, endpos - i, st, '>', m);
    if skip {
      assert w[endpos - i + 1] == Flip(line[i - 1]) == line[i - 1];
      KeepFollows(m.st, '>', line[i - 1], m.st);
      ScanMove(p, w, endpos - i + 1, m.st, '>', Go(m.st));
    }
  }

  lemma BackedReady(stack: seq<char>, line: string, endpos: int, i: nat, st: seq<char>)
    requires Backed(stack, line, endpos, i, st)
    ensures Stacked(st, '>') || (st == [] && IsClose(line[i]))
  {
  }

  lemma BackedEnd(stack: seq<char>, line: string, endpos: int, st: seq<char>)
    requires Backed(stack, line, endpos, -1, st)
    ensures Returned(stack, '>', Mirror(line[..endpos + 1]), -1, Some(st))
  {
    var w := Mirror(line[..endpos + 1]);
    assert w[..endpos + 1] == w;
  }

  method FindStartOfExpressionInLine(r: Rules, line: string, endpos: int, stack: seq<char>)
    returns (startpos: int, rest: Option<seq<char>>)
    requires -1 <= endpos < |line|
    ensures -1 <= startpos <= endpos
    ensures (startpos, rest) == ScanBack(r, line, endpos, stack)
    ensures Sound(r) && Ready(stack, '>', if endpos < 0 then "" else [line[endpos]]) ==>
              Returned(stack, '>', Mirror(line[..endpos + 1]), if startpos < 0 then -1 else endpos + 1 - startpos, rest)
  {
    ghost var ok := Sound(r) && Ready(stack, '>', if endpos < 0 then "" else [line[endpos]]);
    if ok {
      BackedStart(stack, line, endpos);
    }
    hide Sound;
    hide Ready;
    hide Mirror;
    hide Flip;
    hide Returned;
    hide Scanned;
    hide Follows;
    hide Stacked;
    hide Backed;
    hide Backward;
    ScanBackEnd(r, line);
    hide ScanBack;
    var st := stack;
    var i := endpos;
    while i >= 0
      invariant -1 <= i <= endpos
      invariant ScanBack(r, line, i, st) == ScanBack(r, line, endpos, stack)
      invariant ok ==> Backed(stack, line, endpos, i, st)
    {
      ScanBackStep(r, line, i, st);
      var m, skip := BackwardMove(r, line, i, st);
      if ok {
        BackedReady(stack, line, endpos, i, st);
        BackedStep(stack, line, endpos, i, st, m, skip);
      }
      match m {
        case Stop => return i, None;
        case Fail => return -1, None;
        case Go(next) =>
          st := next;
          i := if skip then i - 2 else i - 1;
      }
    }
    if ok {
      BackedEnd(stack, line, endpos, st);
    }
    return -1, Some(st);
  }
}
