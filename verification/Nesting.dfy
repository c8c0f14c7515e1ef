/**
 * The nesting stack of build_support/cpplint.py: blocks opened and closed line by line, with
 * checkpoints taken and restored at preprocessor conditionals.
 */
module Nesting {
  import opened Options

  datatype Asm = NoAsm | InsideAsm | EndAsm | BlockAsm

  datatype Kind = Plain | ExternC | Namespace(name: string) | Class(name: string)

  /** One entry of the stack. */
  datatype Block = Block(kind: Kind, seenOpenBrace: bool, openParentheses: int, inlineAsm: Asm, isDerived: bool,
                         access: string)

  type Stack = seq<Block>

  datatype Directive = NoDirective | If | ElseOrElif | Endif

  /** A brace, semicolon or closing parenthesis, with what the line looks like from there on. */
  datatype Token = OpenBrace(externC: bool, asm: bool) | Semicolon | CloseParen | CloseBrace

  datatype NamespaceDecl = NamespaceDecl(name: string, braceOnLine: bool)

  datatype ClassDecl = ClassDecl(name: string, isStruct: bool)

  /** What the regular expressions find in what is left of a line. */
  datatype Rest = Rest(access: Option<string>, tokens: seq<Token>)

  /**
   * What the regular expressions find in a line: the directive, how many more parentheses it opens
   * than it closes, whether it starts like inline assembly, the namespaces it declares, the class
   * head after them and whether that is a template argument, a bare colon, and the rest of the line
   * without and with the class head taken off.
   */
  datatype Line = Line(directive: Directive, parens: int, asmStart: bool, namespaces: seq<NamespaceDecl>,
                       classDecl: Option<ClassDecl>, inTemplate: bool, bareColon: bool, rest: Rest, restAfterClass: Rest)

  /** A checkpoint: the stack before `#if`, the one before the first `#else` or `#elif`, and if there was one. */
  datatype Checkpoint = Checkpoint(beforeIf: Stack, beforeElse: Stack, seenElse: bool)

  // ---------------------------------------------------------------- what one line does

  predicate SeenOpenBrace(stack: Stack) {
    stack == [] || stack[|stack| - 1].seenOpenBrace
  }

  function WithTop(stack: Stack, top: Block): Stack
    requires stack != []
  {
    stack[..|stack| - 1] + [top]
  }

  function CountParens(stack: Stack, line: Line): Stack {
    if stack == [] then stack
    else
      var top := stack[|stack| - 1];
      var open := top.openParentheses + line.parens;
      var asm :=
        if top.inlineAsm.NoAsm? || top.inlineAsm.EndAsm? then
          if line.parens != 0 && open == 1 && line.asmStart then InsideAsm else NoAsm
        else if top.inlineAsm.InsideAsm? && open == 0 then EndAsm
        else top.inlineAsm;
      WithTop(stack, top.(openParentheses := open, inlineAsm := asm))
  }

  function NewBlock(kind: Kind, seenOpenBrace: bool): Block {
    Block(kind, seenOpenBrace, 0, NoAsm, false, "")
  }

  function PushNamespaces(stack: Stack, ns: seq<NamespaceDecl>): Stack
    decreases |ns|
  {
    if ns == [] then stack
    else PushNamespaces(stack + [NewBlock(Namespace(ns[0].name), ns[0].braceOnLine)], ns[1..])
  }

  predicate TakesClass(stack: Stack, line: Line) {
    line.classDecl.Some? && (stack == [] || stack[|stack| - 1].openParentheses == 0) && !line.inTemplate
  }

  function PushClass(stack: Stack, line: Line): Stack {
    if !TakesClass(stack, line) then stack
    else
      var access := if line.classDecl.value.isStruct then "public" else "private";
      stack + [NewBlock(Class(line.classDecl.value.name), false).(access := access)]
  }

  /** The head of a class may still be open, and an access label may follow. */
  function CheckHead(stack: Stack, bareColon: bool, access: Option<string>): Stack {
    if stack == [] || !stack[|stack| - 1].kind.Class? then stack
    else
      var top := stack[|stack| - 1];
      var derived := top.isDerived || (!top.seenOpenBrace && bareColon);
      WithTop(stack, top.(isDerived := derived, access := if access.Some? then access.value else top.access))
  }

  function OneToken(stack: Stack, t: Token): Stack {
    match t
    case OpenBrace(externC, asm) =>
      if !SeenOpenBrace(stack) then WithTop(stack, stack[|stack| - 1].(seenOpenBrace := true))
      else if externC then stack + [NewBlock(ExternC, true)]
      else stack + [NewBlock(Plain, true).(inlineAsm := if asm then BlockAsm else NoAsm)]
    case CloseBrace => if stack == [] then stack else stack[..|stack| - 1]
    case _ => if SeenOpenBrace(stack) then stack else stack[..|stack| - 1]
  }

  function AllTokens(stack: Stack, ts: seq<Token>): Stack
    decreases |ts|
  {
    if ts == [] then stack else AllTokens(OneToken(stack, ts[0]), ts[1..])
  }

  /** Everything a line does to the stack besides its directive. */
  function LineUpdate(stack: Stack, line: Line): Stack {
    var s1 := PushNamespaces(CountParens(stack, line), line.namespaces);
    var rest := if TakesClass(s1, line) then line.restAfterClass else line.rest;
    AllTokens(CheckHead(PushClass(s1, line), line.bareColon, rest.access), rest.tokens)
  }

  // ---------------------------------------------------------------- the object

  datatype View = View(stack: Stack, pp: seq<Checkpoint>)

  /** What a directive does. A stray `#else` or `#endif` does nothing. */
  function Preprocess(v: View, d: Directive): View {
    match d
    case NoDirective => v
    case If => v.(pp := v.pp + [Checkpoint(v.stack, [], false)])
    case ElseOrElif =>
      if v.pp == [] then v
      else
        var top := v.pp[|v.pp| - 1];
        var top' := if top.seenElse then top else top.(seenElse := true, beforeElse := v.stack);
        View(top.beforeIf, v.pp[..|v.pp| - 1] + [top'])
    case Endif =>
      if v.pp == [] then v
      else
        var top := v.pp[|v.pp| - 1];
        View(if top.seenElse then top.beforeElse else v.stack, v.pp[..|v.pp| - 1])
  }

  function Updated(v: View, line: Line): View {
    var v' := Preprocess(v, line.directive);
    v'.(stack := LineUpdate(v'.stack, line))
  }

  class NestingState {
    var stack: Stack
    var ppStack: seq<Checkpoint>

    constructor ()
      ensures Now() == View([], [])
    {
      stack, ppStack := [], [];
    }

    function Now(): View
      reads this
    {
      View(stack, ppStack)
    }

    method UpdatePreprocessor(d: Directive)
      modifies this
      ensures Now() == Preprocess(old(Now()), d)
    {
      match d {
        case NoDirective =>
        case If =>
          ppStack := ppStack + [Checkpoint(stack, [], false)];
        case ElseOrElif =>
          if ppStack != [] {
            var n := |ppStack| - 1;
            if !ppStack[n].seenElse {
              ppStack := ppStack[..n] + [ppStack[n].(seenElse := true, beforeElse := stack)];
            }
            assert ppStack[..n] + [ppStack[n]] == ppStack;
            stack := ppStack[n].beforeIf;
          }
        case Endif =>
          if ppStack != [] {
            var n := |ppStack| - 1;
            if ppStack[n].seenElse {
              stack := ppStack[n].beforeElse;
            }
            ppStack := ppStack[..n];
          }
      }
    }

    /** Parentheses, and with them inline assembly, are counted in the innermost block. */
    method CountParentheses(line: Line)
      modifies this`stack
      ensures stack == CountParens(old(stack), line)
    {
      if stack != [] {
        var top := stack[|stack| - 1];
        top := top.(openParentheses := top.openParentheses + line.parens);
        if top.inlineAsm.NoAsm? || top.inlineAsm.EndAsm? {
          if line.parens != 0 && top.openParentheses == 1 && line.asmStart {
            top := top.(inlineAsm := InsideAsm);
          } else {
            top := top.(inlineAsm := NoAsm);
          }
        } else if top.inlineAsm.InsideAsm? && top.openParentheses == 0 {
          top := top.(inlineAsm := EndAsm);
        }
        stack := WithTop(stack, top);
      }
    }

    method ConsumeNamespaces(decls: seq<NamespaceDecl>)
      modifies this`stack
      ensures stack == PushNamespaces(old(stack), decls)
    {
      var ns := decls;
      while ns != []
        invariant PushNamespaces(stack, ns) == PushNamespaces(old(stack), decls)
        decreases |ns|
      {
        stack := stack + [NewBlock(Namespace(ns[0].name), ns[0].braceOnLine)];
        ns := ns[1..];
      }
    }

    method ConsumeTokens(tokens: seq<Token>)
      modifies this`stack
      ensures stack == AllTokens(old(stack), tokens)
    {
      var ts := tokens;
      while ts != []
        invariant AllTokens(stack, ts) == AllTokens(old(stack), tokens)
        decreases |ts|
      {
        match ts[0] {
          case OpenBrace(externC, asm) =>
            if !SeenOpenBrace(stack) {
              stack := WithTop(stack, stack[|stack| - 1].(seenOpenBrace := true));
            } else if externC {
              stack := stack + [NewBlock(ExternC, true)];
            } else {
              var block := NewBlock(Plain, true);
              if asm {
                block := block.(inlineAsm := BlockAsm);
              }
              stack := stack + [block];
            }
          case CloseBrace =>
            if stack != [] {
              stack := stack[..|stack| - 1];
            }
          case _ =>
            if !SeenOpenBrace(stack) {
              stack := stack[..|stack| - 1];
            }
        }
        ts := ts[1..];
      }
    }

    method Update(line: Line)
      modifies this
      ensures Now() == Updated(old(Now()), line)
    {
      UpdatePreprocessor(line.directive);
      CountParentheses(line);
      ConsumeNamespaces(line.namespaces);
      var rest := line.rest;
      if TakesClass(stack, line) {
        stack := PushClass(stack, line);
        rest := line.restAfterClass;
      }
      stack := CheckHead(stack, line.bareColon, rest.access);
      ConsumeTokens(rest.tokens);
    }

    /** A whole file, or any part of it: only the first branches of its conditionals have left a trace. */
    method UpdateAll(lines: seq<Line>)
      modifies this
      ensures Now() == Exec(old(Now()), lines)
      ensures Nested(lines, 0) ==> Now() == View(ApplyAll(old(stack), FirstBranches(lines, 0)), old(ppStack))
    {
      if Nested(lines, 0) {
        OnlyFirstBranches(Now(), lines);
      }
      hide Updated;
      assert lines[0..] == lines;
      for i := 0 to |lines|
        invariant Exec(Now(), lines[i..]) == Exec(old(Now()), lines)
      {
        assert lines[i..][1..] == lines[i + 1..];
        Update(lines[i]);
      }
    }
  }

  // ---------------------------------------------------------------- nested conditionals

  /** The state after some lines. */
  function Exec(v: View, lines: seq<Line>): View
    decreases |lines|
  {
    if lines == [] then v else Exec(Updated(v, lines[0]), lines[1..])
  }

  /** Properly nested directives, starting inside `depth` conditionals and ending outside all of them. */
  predicate Nested(lines: seq<Line>, depth: nat)
    decreases |lines|
  {
    if lines == [] then depth == 0
    else match lines[0].directive
      case NoDirective => Nested(lines[1..], depth)
      case If => Nested(lines[1..], depth + 1)
      case ElseOrElif => depth > 0 && Nested(lines[1..], depth)
      case Endif => depth > 0 && Nested(lines[1..], depth - 1)
  }

  /**
   * The lines of first branches, with their `#if` and `#endif`; `skip` counts the conditionals open
   * since the `#else` or `#elif` we are behind, that one included.
   */
  function FirstBranches(lines: seq<Line>, skip: nat): seq<Line>
    decreases |lines|
  {
    if lines == [] then []
    else
      var rest := lines[1..];
      match lines[0].directive
      case NoDirective => if skip == 0 then [lines[0]] + FirstBranches(rest, 0) else FirstBranches(rest, skip)
      case If => if skip == 0 then [lines[0]] + FirstBranches(rest, 0) else FirstBranches(rest, skip + 1)
      case ElseOrElif => FirstBranches(rest, if skip == 0 then 1 else skip)
      case Endif => if skip <= 1 then [lines[0]] + FirstBranches(rest, 0) else FirstBranches(rest, skip - 1)
  }

  /** The stack after some lines read with no regard to directives. */
  function ApplyAll(stack: Stack, lines: seq<Line>): Stack
    decreases |lines|
  {
    if lines == [] then stack else ApplyAll(LineUpdate(stack, lines[0]), lines[1..])
  }

  /**
   * `depth` conditionals have been opened on top of `pp`, and the first branches read so far have
   * made the stack `kept`. While behind an `#else`, that stack waits in the checkpoint of its `#if`.
   */
  ghost predicate Tracks(v: View, pp: seq<Checkpoint>, kept: Stack, depth: nat, skip: nat) {
    && skip <= depth && |v.pp| == |pp| + depth && v.pp[..|pp|] == pp
    && (forall j :: |pp| <= j < |v.pp| - skip ==> !v.pp[j].seenElse)
    && (skip == 0 ==> v.stack == kept)
    && (skip > 0 ==> v.pp[|v.pp| - skip].seenElse && v.pp[|v.pp| - skip].beforeElse == kept)
  }

  lemma TracksOrdinary(v: View, pp: seq<Checkpoint>, kept: Stack, depth: nat, skip: nat, line: Line)
    requires Tracks(v, pp, kept, depth, skip) && line.directive.NoDirective?
    ensures Tracks(Updated(v, line), pp, if skip == 0 then LineUpdate(kept, line) else kept, depth, skip)
  {
    hide LineUpdate;
  }

  lemma TracksIf(v: View, pp: seq<Checkpoint>, kept: Stack, depth: nat, skip: nat, line: Line)
    requires Tracks(v, pp, kept, depth, skip) && line.directive.If?
    ensures Tracks(Updated(v, line), pp, if skip == 0 then LineUpdate(kept, line) else kept, depth + 1,
                   if skip == 0 then 0 else skip + 1)
  {
    hide LineUpdate;
    assert Updated(v, line).pp[..|pp|] == v.pp[..|pp|];
  }

  lemma TracksElse(v: View, pp: seq<Checkpoint>, kept: Stack, depth: nat, skip: nat, line: Line)
    requires Tracks(v, pp, kept, depth, skip) && line.directive.ElseOrElif? && depth > 0
    ensures Tracks(Updated(v, line), pp, kept, depth, if skip == 0 then 1 else skip)
  {
    hide LineUpdate;
    assert Updated(v, line).pp[..|pp|] == v.pp[..|pp|];
  }

  lemma TracksEndif(v: View, pp: seq<Checkpoint>, kept: Stack, depth: nat, skip: nat, line: Line)
    requires Tracks(v, pp, kept, depth, skip) && line.directive.Endif? && depth > 0
    ensures Tracks(Updated(v, line), pp, if skip <= 1 then LineUpdate(kept, line) else kept, depth - 1,
                   if skip <= 1 then 0 else skip - 1)
  {
    hide LineUpdate;
    assert Updated(v, line).pp[..|pp|] == v.pp[..|pp|];
  }

  lemma TracksOutside(v: View, pp: seq<Checkpoint>, kept: Stack, skip: nat)
    requires Tracks(v, pp, kept, 0, skip)
    ensures v == View(kept, pp)
  {
    assert v.pp[..|pp|] == v.pp;
  }

  lemma ApplyCons(stack: Stack, line: Line, lines: seq<Line>)
    ensures ApplyAll(stack, [line] + lines) == ApplyAll(LineUpdate(stack, line), lines)
  {
    assert ([line] + lines)[1..] == lines;
  }

  lemma {:induction false} TracksToTheEnd(v: View, pp: seq<Checkpoint>, kept: Stack, depth: nat, skip: nat, lines: seq<Line>)
    requires Tracks(v, pp, kept, depth, skip) && Nested(lines, depth)
    ensures Exec(v, lines) == View(ApplyAll(kept, FirstBranches(lines, skip)), pp)
    decreases |lines|
  {
    hide Tracks;
    hide LineUpdate;
    hide Updated;
    if lines == [] {
      TracksOutside(v, pp, kept, skip);
    } else {
      var line, rest := lines[0], lines[1..];
      var v' := Updated(v, line);
      var on := LineUpdate(kept, line);
      match line.directive
      case NoDirective =>
        TracksOrdinary(v, pp, kept, depth, skip, line);
        TracksToTheEnd(v', pp, if skip == 0 then on else kept, depth, skip, rest);
        ApplyCons(kept, line, FirstBranches(rest, 0));
      case If =>
        TracksIf(v, pp, kept, depth, skip, line);
        TracksToTheEnd(v', pp, if skip == 0 then on else kept, depth + 1, if skip == 0 then 0 else skip + 1, rest);
        ApplyCons(kept, line, FirstBranches(rest, 0));
      case ElseOrElif =>
        TracksElse(v, pp, kept, depth, skip, line);
        TracksToTheEnd(v', pp, kept, depth, if skip == 0 then 1 else skip, rest);
      case Endif =>
        TracksEndif(v, pp, kept, depth, skip, line);
        TracksToTheEnd(v', pp, if skip <= 1 then on else kept, depth - 1, if skip <= 1 then 0 else skip - 1, rest);
        ApplyCons(kept, line, FirstBranches(rest, 0));
    }
  }

  /**
   * After properly nested lines, of any depth and with any number of branches, the stack is what the
   * first branches alone produce, whatever the others open or close, and every checkpoint is gone.
   */
  lemma OnlyFirstBranches(v: View, lines: seq<Line>)
    requires Nested(lines, 0)
    ensures Exec(v, lines) == View(ApplyAll(v.stack, FirstBranches(lines, 0)), v.pp)
  {
    assert v.pp[..|v.pp|] == v.pp;
    TracksToTheEnd(v, v.pp, v.stack, 0, 0, lines);
  }

  // ---------------------------------------------------------------- directive lines

  /** A line with no brace, semicolon or parenthesis, no declaration and no label; it may have a bare colon. */
  predicate Quiet(line: Line) {
    line.parens == 0 && line.namespaces == [] && line.classDecl.None? && line.rest == Rest(None, [])
  }

  /** The innermost block is not at the end of inline assembly, where the next line moves it on. */
  predicate Settled(stack: Stack) {
    stack == [] ||
    var top := stack[|stack| - 1];
    top.inlineAsm.NoAsm? || top.inlineAsm.BlockAsm? || (top.inlineAsm.InsideAsm? && top.openParentheses != 0)
  }

  /** The innermost block is the head of a class that still waits for its brace and is not known to be derived. */
  predicate AwaitsColon(stack: Stack) {
    stack != [] &&
    var top := stack[|stack| - 1];
    top.kind.Class? && !top.seenOpenBrace && !top.isDerived
  }

  lemma QuietLineUpdate(stack: Stack, line: Line)
    requires Quiet(line)
    ensures LineUpdate(stack, line) == CheckHead(CountParens(stack, line), line.bareColon, None)
  {
  }

  /** Such a line leaves the stack alone exactly when the innermost block is settled and awaits no colon of it. */
  lemma QuietLineKeeps(stack: Stack, line: Line)
    requires Quiet(line)
    ensures LineUpdate(stack, line) == stack <==> Settled(stack) && !(line.bareColon && AwaitsColon(stack))
  {
    QuietLineUpdate(stack, line);
    hide LineUpdate;
    if stack != [] {
      assert WithTop(stack, stack[|stack| - 1]) == stack;
      var s1 := CountParens(stack, line);
      assert s1[..|stack| - 1] == stack[..|stack| - 1];
      assert WithTop(s1, s1[|stack| - 1]) == s1;
    }
  }

  predicate QuietDirectives(lines: seq<Line>) {
    forall i :: 0 <= i < |lines| && !lines[i].directive.NoDirective? ==> Quiet(lines[i])
  }

  function Ordinary(lines: seq<Line>): seq<Line> {
    if lines == [] then []
    else (if lines[0].directive.NoDirective? then [lines[0]] else []) + Ordinary(lines[1..])
  }

  /** A block inside inline assembly has a parenthesis open. */
  predicate AsmOpen(stack: Stack) {
    forall i :: 0 <= i < |stack| && stack[i].inlineAsm.InsideAsm? ==> stack[i].openParentheses != 0
  }

  /** The stack and all its checkpoints are such. */
  predicate AllAsmOpen(v: View) {
    AsmOpen(v.stack) && forall c :: c in v.pp ==> AsmOpen(c.beforeIf) && AsmOpen(c.beforeElse)
  }

  lemma {:induction false} NamespacesKeepAsm(stack: Stack, ns: seq<NamespaceDecl>)
    requires AsmOpen(stack)
    ensures AsmOpen(PushNamespaces(stack, ns))
    decreases |ns|
  {
    if ns != [] {
      NamespacesKeepAsm(stack + [NewBlock(Namespace(ns[0].name), ns[0].braceOnLine)], ns[1..]);
    }
  }

  lemma {:induction false} TokensKeepAsm(stack: Stack, ts: seq<Token>)
    requires AsmOpen(stack)
    ensures AsmOpen(AllTokens(stack, ts))
    decreases |ts|
  {
    if ts != [] {
      TokensKeepAsm(OneToken(stack, ts[0]), ts[1..]);
    }
  }

  lemma CountKeepsAsm(stack: Stack, line: Line)
    requires AsmOpen(stack)
    ensures AsmOpen(CountParens(stack, line))
  {
  }

  lemma HeadKeepsAsm(stack: Stack, line: Line, access: Option<string>)
    requires AsmOpen(stack)
    ensures AsmOpen(CheckHead(PushClass(stack, line), line.bareColon, access))
  {
    assert AsmOpen(PushClass(stack, line));
    hide PushClass;
  }

  lemma LineKeepsAsm(stack: Stack, line: Line)
    requires AsmOpen(stack)
    ensures AsmOpen(LineUpdate(stack, line))
  {
    hide AsmOpen;
    hide CountParens;
    hide PushNamespaces;
    hide PushClass;
    hide CheckHead;
    hide AllTokens;
    var s1 := PushNamespaces(CountParens(stack, line), line.namespaces);
    CountKeepsAsm(stack, line);
    NamespacesKeepAsm(CountParens(stack, line), line.namespaces);
    var rest := if TakesClass(s1, line) then line.restAfterClass else line.rest;
    HeadKeepsAsm(s1, line, rest.access);
    TokensKeepAsm(CheckHead(PushClass(s1, line), line.bareColon, rest.access), rest.tokens);
  }

  /** Every run of lines, nested or not, from such a state ends in one; the state of a new object is one. */
  lemma {:induction false} RunsKeepAsm(v: View, lines: seq<Line>)
    requires AllAsmOpen(v)
    ensures AllAsmOpen(Exec(v, lines))
    decreases |lines|
  {
    hide LineUpdate;
    assert AsmOpen([]);
    hide AsmOpen;
    if lines != [] {
      LineKeepsAsm(Preprocess(v, lines[0].directive).stack, lines[0]);
      RunsKeepAsm(Updated(v, lines[0]), lines[1..]);
    }
  }

  /** `stack` with inline assembly that had just ended forgotten. */
  function Calm(stack: Stack): Stack {
    if stack == [] || !stack[|stack| - 1].inlineAsm.EndAsm? then stack
    else WithTop(stack, stack[|stack| - 1].(inlineAsm := NoAsm))
  }

  lemma QuietLineCalms(stack: Stack, line: Line)
    requires AsmOpen(stack) && Quiet(line) && !line.bareColon
    ensures LineUpdate(stack, line) == Calm(stack)
  {
    QuietLineUpdate(stack, line);
    hide LineUpdate;
    if stack != [] {
      assert WithTop(stack, stack[|stack| - 1]) == stack;
      var s1 := CountParens(stack, line);
      assert WithTop(s1, s1[|stack| - 1]) == s1;
    }
  }

  /** The next line, quiet or not, does the same whether or not that was forgotten. */
  lemma CalmIsNotSeen(stack: Stack, line: Line)
    ensures LineUpdate(Calm(stack), line) == LineUpdate(stack, line)
  {
    hide PushNamespaces;
    hide AllTokens;
    assert CountParens(Calm(stack), line) == CountParens(stack, line);
  }

  predicate EndsInDirective(lines: seq<Line>) {
    lines != [] && !lines[|lines| - 1].directive.NoDirective?
  }

  lemma {:induction false} OnlyDirectives(lines: seq<Line>)
    requires Ordinary(lines) == [] && lines != []
    ensures EndsInDirective(lines)
  {
    if |lines| > 1 {
      assert Ordinary(lines[1..]) == [];
      OnlyDirectives(lines[1..]);
    }
  }

  predicate NoDirectiveColon(lines: seq<Line>) {
    forall i :: 0 <= i < |lines| && !lines[i].directive.NoDirective? ==> !lines[i].bareColon
  }

  /** Of all quiet directive lines without a colon only those after the last other line can make a difference. */
  lemma {:induction false} DirectivesVanish(stack: Stack, lines: seq<Line>)
    requires AsmOpen(stack) && QuietDirectives(lines) && NoDirectiveColon(lines)
    ensures var after := ApplyAll(stack, Ordinary(lines));
            ApplyAll(stack, lines) == if EndsInDirective(lines) then Calm(after) else after
    decreases |lines|
  {
    hide LineUpdate;
    hide Quiet;
    hide AsmOpen;
    if lines != [] {
      var line, rest := lines[0], lines[1..];
      LineKeepsAsm(stack, line);
      DirectivesVanish(LineUpdate(stack, line), rest);
      if line.directive.NoDirective? {
        ApplyCons(stack, line, Ordinary(rest));
      } else {
        QuietLineCalms(stack, line);
        assert [] + Ordinary(rest) == Ordinary(rest);
        if Ordinary(rest) != [] {
          CalmIsNotSeen(stack, Ordinary(rest)[0]);
        } else if rest != [] {
          OnlyDirectives(rest);
        }
      }
    }
  }

  // ---------------------------------------------------------------- colons in directive lines

  /** `z` is `y` with the classes derived that are derived in `x` too, which differs from `y` in nothing else. */
  predicate Joins(x: Stack, y: Stack, z: Stack) {
    && |x| == |y| == |z|
    && (forall i :: 0 <= i < |y| ==> x[i] == y[i].(isDerived := x[i].isDerived))
    && forall i :: 0 <= i < |z| ==> z[i] == y[i].(isDerived := x[i].isDerived || y[i].isDerived)
  }

  /** What a line makes of the innermost block's parentheses and assembly. */
  function Counted(top: Block, line: Line): Block {
    CountParens([top], line)[0]
  }

  lemma CountIsTop(stack: Stack, line: Line)
    requires stack != []
    ensures CountParens(stack, line) == WithTop(stack, Counted(stack[|stack| - 1], line))
  {
  }

  /** The same of one block each. */
  predicate JoinsTop(x: Block, y: Block, z: Block) {
    x == y.(isDerived := x.isDerived) && z == y.(isDerived := x.isDerived || y.isDerived)
  }

  lemma CountedJoins(x: Block, y: Block, z: Block, line: Line, cx: bool, cy: bool)
    requires JoinsTop(x, y, z)
    ensures JoinsTop(Counted(x, line.(bareColon := cx)), Counted(y, line.(bareColon := cy)), Counted(z, line))
  {
  }

  lemma WithTopJoins(x: Stack, y: Stack, z: Stack, a: Block, b: Block, c: Block)
    requires Joins(x, y, z) && z != [] && JoinsTop(a, b, c)
    ensures Joins(WithTop(x, a), WithTop(y, b), WithTop(z, c))
  {
  }

  lemma TopsJoin(x: Stack, y: Stack, z: Stack)
    requires Joins(x, y, z) && z != []
    ensures |x| == |y| == |z| && JoinsTop(x[|z| - 1], y[|z| - 1], z[|z| - 1])
  {
  }

  lemma CountJoins(x: Stack, y: Stack, z: Stack, line: Line, cx: bool, cy: bool)
    requires Joins(x, y, z)
    ensures Joins(CountParens(x, line.(bareColon := cx)), CountParens(y, line.(bareColon := cy)), CountParens(z, line))
  {
    if z == [] {
      assert x == y == z == [];
    } else {
      NonemptyCountJoins(x, y, z, line, cx, cy);
    }
    hide Joins;
    hide CountParens;
  }

  lemma NonemptyCountJoins(x: Stack, y: Stack, z: Stack, line: Line, cx: bool, cy: bool)
    requires Joins(x, y, z) && z != []
    ensures Joins(CountParens(x, line.(bareColon := cx)), CountParens(y, line.(bareColon := cy)), CountParens(z, line))
  {
    hide Joins;
    hide JoinsTop;
    hide CountParens;
    hide Counted;
    hide WithTop;
    TopsJoin(x, y, z);
    var n, lx, ly := |z| - 1, line.(bareColon := cx), line.(bareColon := cy);
    CountIsTop(x, lx);
    CountIsTop(y, ly);
    CountIsTop(z, line);
    CountedJoins(x[n], y[n], z[n], line, cx, cy);
    WithTopJoins(x, y, z, Counted(x[n], lx), Counted(y[n], ly), Counted(z[n], line));
  }

  lemma {:induction false} NamespacesJoin(x: Stack, y: Stack, z: Stack, ns: seq<NamespaceDecl>)
    requires Joins(x, y, z)
    ensures Joins(PushNamespaces(x, ns), PushNamespaces(y, ns), PushNamespaces(z, ns))
    decreases |ns|
  {
    if ns != [] {
      var b := [NewBlock(Namespace(ns[0].name), ns[0].braceOnLine)];
      NamespacesJoin(x + b, y + b, z + b, ns[1..]);
    }
  }

  lemma ClassJoins(x: Stack, y: Stack, z: Stack, line: Line, cx: bool, cy: bool)
    requires Joins(x, y, z)
    ensures Joins(PushClass(x, line.(bareColon := cx)), PushClass(y, line.(bareColon := cy)), PushClass(z, line))
    ensures TakesClass(x, line.(bareColon := cx)) == TakesClass(y, line.(bareColon := cy)) == TakesClass(z, line)
  {
  }

  lemma HeadJoins(x: Stack, y: Stack, z: Stack, cx: bool, cy: bool, access: Option<string>)
    requires Joins(x, y, z)
    ensures Joins(CheckHead(x, cx, access), CheckHead(y, cy, access), CheckHead(z, cx || cy, access))
  {
  }

  lemma ShorterJoin(x: Stack, y: Stack, z: Stack)
    requires Joins(x, y, z) && z != []
    ensures Joins(x[..|x| - 1], y[..|y| - 1], z[..|z| - 1])
  {
  }

  lemma LongerJoin(x: Stack, y: Stack, z: Stack, a: Block, b: Block, c: Block)
    requires Joins(x, y, z) && JoinsTop(a, b, c)
    ensures Joins(x + [a], y + [b], z + [c])
  {
  }

  lemma TokenJoins(x: Stack, y: Stack, z: Stack, t: Token)
    requires Joins(x, y, z)
    ensures Joins(OneToken(x, t), OneToken(y, t), OneToken(z, t))
  {
    if z == [] {
      assert x == y == z;
    } else {
      TopsJoin(x, y, z);
      ShorterJoin(x, y, z);
      var n := |z| - 1;
      assert JoinsTop(x[n].(seenOpenBrace := true), y[n].(seenOpenBrace := true), z[n].(seenOpenBrace := true));
      WithTopJoins(x, y, z, x[n].(seenOpenBrace := true), y[n].(seenOpenBrace := true), z[n].(seenOpenBrace := true));
    }
    if t.OpenBrace? {
      var block := if t.externC then NewBlock(ExternC, true)
                   else NewBlock(Plain, true).(inlineAsm := if t.asm then BlockAsm else NoAsm);
      assert JoinsTop(block, block, block);
      LongerJoin(x, y, z, block, block, block);
    }
    hide WithTop;
  }

  lemma {:induction false} TokensJoin(x: Stack, y: Stack, z: Stack, ts: seq<Token>)
    requires Joins(x, y, z)
    ensures Joins(AllTokens(x, ts), AllTokens(y, ts), AllTokens(z, ts))
    decreases |ts|
  {
    hide Joins;
    hide OneToken;
    if ts != [] {
      TokenJoins(x, y, z, ts[0]);
      TokensJoin(OneToken(x, ts[0]), OneToken(y, ts[0]), OneToken(z, ts[0]), ts[1..]);
    }
  }

  /** A line does the same to all three, with its colon seen by one of the first two or by both. */
  lemma LineJoins(x: Stack, y: Stack, z: Stack, line: Line, cx: bool, cy: bool)
    requires Joins(x, y, z) && line.bareColon == (cx || cy)
    ensures Joins(LineUpdate(x, line.(bareColon := cx)), LineUpdate(y, line.(bareColon := cy)), LineUpdate(z, line))
  {
    hide Joins;
    hide CountParens;
    hide PushNamespaces;
    hide PushClass;
    hide TakesClass;
    hide CheckHead;
    hide AllTokens;
    var lx, ly := line.(bareColon := cx), line.(bareColon := cy);
    CountJoins(x, y, z, line, cx, cy);
    NamespacesJoin(CountParens(x, lx), CountParens(y, ly), CountParens(z, line), line.namespaces);
    var x1, y1, z1 := PushNamespaces(CountParens(x, lx), line.namespaces),
                      PushNamespaces(CountParens(y, ly), line.namespaces),
                      PushNamespaces(CountParens(z, line), line.namespaces);
    ClassJoins(x1, y1, z1, line, cx, cy);
    var rest := if TakesClass(z1, line) then line.restAfterClass else line.rest;
    var x2, y2, z2 := PushClass(x1, lx), PushClass(y1, ly), PushClass(z1, line);
    HeadJoins(x2, y2, z2, cx, cy, rest.access);
    TokensJoin(CheckHead(x2, cx, rest.access), CheckHead(y2, cy, rest.access), CheckHead(z2, line.bareColon, rest.access),
               rest.tokens);
  }

  /** The lines with the colons of directives only, and with those of other lines only. */
  function DirectiveColons(lines: seq<Line>): seq<Line> {
    if lines == [] then []
    else [lines[0].(bareColon := lines[0].bareColon && !lines[0].directive.NoDirective?)] + DirectiveColons(lines[1..])
  }

  function OrdinaryColons(lines: seq<Line>): seq<Line> {
    if lines == [] then []
    else [lines[0].(bareColon := lines[0].bareColon && lines[0].directive.NoDirective?)] + OrdinaryColons(lines[1..])
  }

  lemma {:induction false} ColonsJoin(x: Stack, y: Stack, z: Stack, lines: seq<Line>)
    requires Joins(x, y, z)
    ensures Joins(ApplyAll(x, DirectiveColons(lines)), ApplyAll(y, OrdinaryColons(lines)), ApplyAll(z, lines))
    decreases |lines|
  {
    hide LineUpdate;
    hide Joins;
    if lines != [] {
      var line, rest := lines[0], lines[1..];
      var cx, cy := line.bareColon && !line.directive.NoDirective?, line.bareColon && line.directive.NoDirective?;
      LineJoins(x, y, z, line, cx, cy);
      var lx, ly := line.(bareColon := cx), line.(bareColon := cy);
      ColonsJoin(LineUpdate(x, lx), LineUpdate(y, ly), LineUpdate(z, line), rest);
      ApplyCons(x, lx, DirectiveColons(rest));
      ApplyCons(y, ly, OrdinaryColons(rest));
    }
  }

  lemma {:induction false} OrdinaryColonsShape(lines: seq<Line>)
    ensures |OrdinaryColons(lines)| == |lines| && Ordinary(OrdinaryColons(lines)) == Ordinary(lines)
    ensures forall i :: 0 <= i < |lines| ==>
              OrdinaryColons(lines)[i] == lines[i].(bareColon := lines[i].bareColon && lines[i].directive.NoDirective?)
  {
    if lines != [] {
      OrdinaryColonsShape(lines[1..]);
      assert OrdinaryColons(lines)[1..] == OrdinaryColons(lines[1..]);
      assert lines[0].directive.NoDirective? ==> OrdinaryColons(lines)[0] == lines[0];
    }
  }

  function Underived(stack: Stack): Stack {
    seq(|stack|, i requires 0 <= i < |stack| => stack[i].(isDerived := false))
  }

  /** The classes that a colon in a directive line makes look derived, of those still open after `lines`. */
  function ColonMarks(stack: Stack, lines: seq<Line>): Stack {
    ApplyAll(Underived(stack), DirectiveColons(lines))
  }

  /** Every class so marked is derived anyway. */
  predicate Covered(marks: Stack, stack: Stack) {
    forall i :: 0 <= i < |marks| && i < |stack| && marks[i].isDerived ==> stack[i].isDerived
  }

  lemma JoinIs(marks: Stack, y: Stack, z: Stack, after: Stack)
    requires Joins(marks, y, z) && (y == after || y == Calm(after))
    ensures z == after <==> y == after && Covered(marks, after)
  {
    assert |y| == |after| && forall i :: 0 <= i < |y| ==> y[i].isDerived == after[i].isDerived;
    assert z == after ==> forall i :: 0 <= i < |y| ==> y[i] == z[i].(isDerived := y[i].isDerived);
    assert z == after ==> y == after;
    assert y == after && Covered(marks, after) ==> forall i :: 0 <= i < |z| ==> z[i] == after[i];
  }

  /**
   * With quiet directive lines, and from any stack that a run can reach, the conditionals do what the
   * other lines of their first branches do, exactly when such a line comes last or it did not just
   * end inline assembly, and no colon in a directive marks a class for good.
   */
  lemma ConditionalsAreFirstBranches(v: View, lines: seq<Line>)
    requires Nested(lines, 0) && AsmOpen(v.stack) && QuietDirectives(FirstBranches(lines, 0))
    ensures var kept := FirstBranches(lines, 0);
            var after := ApplyAll(v.stack, Ordinary(kept));
            Exec(v, lines) == View(after, v.pp) <==>
            (!EndsInDirective(kept) || Settled(after)) && Covered(ColonMarks(v.stack, kept), after)
  {
    OnlyFirstBranches(v, lines);
    hide Nested;
    hide Exec;
    hide FirstBranches;
    KeptLines(v.stack, FirstBranches(lines, 0));
  }

  lemma KeptLines(stack: Stack, kept: seq<Line>)
    requires AsmOpen(stack) && QuietDirectives(kept)
    ensures var after := ApplyAll(stack, Ordinary(kept));
            ApplyAll(stack, kept) == after <==>
            (!EndsInDirective(kept) || Settled(after)) && Covered(ColonMarks(stack, kept), after)
  {
    hide LineUpdate;
    hide ApplyAll;
    var plain, after := OrdinaryColons(kept), ApplyAll(stack, Ordinary(kept));
    OrdinaryColonsShape(kept);
    assert Joins(Underived(stack), stack, stack);
    ColonsJoin(Underived(stack), stack, stack, kept);
    LinesKeepAsm(stack, Ordinary(kept));
    DirectivesVanish(stack, plain);
    hide Joins;
    hide AsmOpen;
    hide Covered;
    SettledIsCalm(after);
    hide Settled;
    hide Calm;
    JoinIs(ColonMarks(stack, kept), ApplyAll(stack, plain), ApplyAll(stack, kept), after);
  }

  lemma SettledIsCalm(stack: Stack)
    requires AsmOpen(stack)
    ensures Settled(stack) <==> Calm(stack) == stack
  {
  }

  predicate NoneDerived(stack: Stack) {
    forall i :: 0 <= i < |stack| ==> !stack[i].isDerived
  }

  lemma {:induction false} NamespacesUnderived(stack: Stack, ns: seq<NamespaceDecl>)
    requires NoneDerived(stack)
    ensures NoneDerived(PushNamespaces(stack, ns))
    decreases |ns|
  {
    if ns != [] {
      NamespacesUnderived(stack + [NewBlock(Namespace(ns[0].name), ns[0].braceOnLine)], ns[1..]);
    }
  }

  lemma {:induction false} TokensUnderived(stack: Stack, ts: seq<Token>)
    requires NoneDerived(stack)
    ensures NoneDerived(AllTokens(stack, ts))
    decreases |ts|
  {
    if ts != [] {
      TokensUnderived(OneToken(stack, ts[0]), ts[1..]);
    }
  }

  lemma CountUnderived(stack: Stack, line: Line)
    requires NoneDerived(stack)
    ensures NoneDerived(CountParens(stack, line))
  {
  }

  lemma ClassUnderived(stack: Stack, line: Line)
    requires NoneDerived(stack)
    ensures NoneDerived(PushClass(stack, line))
  {
  }

  lemma HeadUnderived(stack: Stack, access: Option<string>)
    requires NoneDerived(stack)
    ensures NoneDerived(CheckHead(stack, false, access))
  {
  }

  lemma {:induction false} ColonlessUnderived(stack: Stack, lines: seq<Line>)
    requires NoneDerived(stack) && forall i :: 0 <= i < |lines| ==> !lines[i].bareColon
    ensures NoneDerived(ApplyAll(stack, lines))
    decreases |lines|
  {
    hide CountParens;
    hide PushNamespaces;
    hide PushClass;
    hide CheckHead;
    hide AllTokens;
    hide NoneDerived;
    if lines != [] {
      var line := lines[0];
      CountUnderived(stack, line);
      NamespacesUnderived(CountParens(stack, line), line.namespaces);
      var s1 := PushNamespaces(CountParens(stack, line), line.namespaces);
      var rest := if TakesClass(s1, line) then line.restAfterClass else line.rest;
      ClassUnderived(s1, line);
      HeadUnderived(PushClass(s1, line), rest.access);
      TokensUnderived(CheckHead(PushClass(s1, line), false, rest.access), rest.tokens);
      ColonlessUnderived(LineUpdate(stack, line), lines[1..]);
    }
  }

  lemma {:induction false} DirectiveColonsAt(lines: seq<Line>)
    ensures |DirectiveColons(lines)| == |lines|
    ensures NoDirectiveColon(lines) ==> forall i :: 0 <= i < |lines| ==> !DirectiveColons(lines)[i].bareColon
  {
    if lines != [] {
      DirectiveColonsAt(lines[1..]);
    }
  }

  /** Directives without a colon mark no class, so the second half of that condition is then met. */
  lemma NoColonNoMark(stack: Stack, lines: seq<Line>, after: Stack)
    requires NoDirectiveColon(lines)
    ensures Covered(ColonMarks(stack, lines), after)
  {
    hide ApplyAll;
    DirectiveColonsAt(lines);
    ColonlessUnderived(Underived(stack), DirectiveColons(lines));
  }

  lemma {:induction false} LinesKeepAsm(stack: Stack, lines: seq<Line>)
    requires AsmOpen(stack)
    ensures AsmOpen(ApplyAll(stack, lines))
    decreases |lines|
  {
    if lines != [] {
      LineKeepsAsm(stack, lines[0]);
      LinesKeepAsm(LineUpdate(stack, lines[0]), lines[1..]);
    }
  }

  function TextLine(parens: int, asmStart: bool, tokens: seq<Token>): Line {
    Line(NoDirective, parens, asmStart, [], None, false, false, Rest(None, tokens), Rest(None, tokens))
  }

  function DirectiveLine(d: Directive): Line {
    TextLine(0, false, []).(directive := d)
  }

  /** A function body with inline assembly which ends just before the `#endif`, read by a new object. */
  function AsmBeforeEndif(): seq<Line> {
    [TextLine(0, false, [CloseParen, OpenBrace(false, false)]), TextLine(1, true, []), DirectiveLine(If),
     TextLine(-1, false, [CloseParen, Semicolon]), DirectiveLine(Endif)]
  }

  lemma AsmLinesKept()
    ensures var ls := AsmBeforeEndif();
            Nested(ls, 0) && FirstBranches(ls, 0) == ls && Ordinary(ls) == [ls[0], ls[1], ls[3]] && QuietDirectives(ls)
  {
    var ls := AsmBeforeEndif();
    assert ls[1..][1..][1..][1..] == [ls[4]] && [ls[4]][1..] == [];
  }

  lemma AsmLinesEnd()
    ensures var ls := AsmBeforeEndif();
            ApplyAll([], [ls[0], ls[1], ls[3]]) == [NewBlock(Plain, true).(inlineAsm := EndAsm)]
  {
    hide LineUpdate;
    var ls := AsmBeforeEndif();
    var s1, s2 := [NewBlock(Plain, true)], [NewBlock(Plain, true).(openParentheses := 1, inlineAsm := InsideAsm)];
    FunctionOpens();
    AsmOpens();
    AsmCloses();
    assert [ls[0], ls[1], ls[3]] == [ls[0]] + [ls[1], ls[3]];
    ApplyCons([], ls[0], [ls[1], ls[3]]);
    assert [ls[1], ls[3]] == [ls[1]] + [ls[3]] && [ls[3]] == [ls[3]] + [];
    ApplyCons(s1, ls[1], [ls[3]]);
    ApplyCons(s2, ls[3], []);
  }

  lemma FunctionOpens()
    ensures LineUpdate([], AsmBeforeEndif()[0]) == [NewBlock(Plain, true)]
  {
    TwoTokens([], CloseParen, OpenBrace(false, false));
  }

  lemma AsmOpens()
    ensures LineUpdate([NewBlock(Plain, true)], AsmBeforeEndif()[1]) ==
            [NewBlock(Plain, true).(openParentheses := 1, inlineAsm := InsideAsm)]
  {
  }

  lemma AsmCloses()
    ensures LineUpdate([NewBlock(Plain, true).(openParentheses := 1, inlineAsm := InsideAsm)], AsmBeforeEndif()[3]) ==
            [NewBlock(Plain, true).(inlineAsm := EndAsm)]
  {
    TwoTokens([NewBlock(Plain, true).(inlineAsm := EndAsm)], CloseParen, Semicolon);
  }

  lemma TwoTokens(stack: Stack, t: Token, u: Token)
    ensures AllTokens(stack, [t, u]) == OneToken(OneToken(stack, t), u)
  {
    assert [t, u] == [t] + [u];
    AllTokensConcat(stack, [t], [u]);
    OnlyToken(stack, t);
    OnlyToken(OneToken(stack, t), u);
  }

  /** There the `#endif` leaves a trace that the other lines do not. */
  lemma EndifLeavesTrace()
    ensures var lines := AsmBeforeEndif();
            && Nested(lines, 0) && QuietDirectives(FirstBranches(lines, 0))
            && Exec(View([], []), lines) != View(ApplyAll([], Ordinary(FirstBranches(lines, 0))), [])
  {
    hide LineUpdate;
    hide Exec;
    hide Nested;
    hide FirstBranches;
    hide Ordinary;
    hide ApplyAll;
    AsmLinesKept();
    AsmLinesEnd();
    var lines := AsmBeforeEndif();
    assert EndsInDirective(lines);
    ConditionalsAreFirstBranches(View([], []), lines);
  }

  /** A class head, and before its brace an `#if` with a conditional expression. */
  function HeadThenColon(): seq<Line> {
    [TextLine(0, false, []).(classDecl := Some(ClassDecl("A", false))), DirectiveLine(If).(bareColon := true),
     DirectiveLine(Endif)]
  }

  /** There the colon makes the class look derived, which the other lines do not. */
  lemma ColonLeavesMark()
    ensures var lines := HeadThenColon();
            && Nested(lines, 0) && QuietDirectives(FirstBranches(lines, 0))
            && Exec(View([], []), lines) != View(ApplyAll([], Ordinary(FirstBranches(lines, 0))), [])
  {
    hide LineUpdate;
    HeadLinesKept();
    OnlyFirstBranches(View([], []), HeadThenColon());
    HeadMarked();
  }

  lemma HeadLinesKept()
    ensures var ls := HeadThenColon();
            Nested(ls, 0) && FirstBranches(ls, 0) == ls && Ordinary(ls) == [ls[0]] && QuietDirectives(ls)
  {
    var ls := HeadThenColon();
    assert ls[1..][1..] == [ls[2]] && [ls[2]][1..] == [];
  }

  lemma HeadMarked()
    ensures var ls := HeadThenColon(); ApplyAll([], ls) != ApplyAll([], [ls[0]])
  {
    var ls := HeadThenColon();
    var head := [NewBlock(Class("A"), false).(access := "private")];
    var marked := [head[0].(isDerived := true)];
    assert LineUpdate([], ls[0]) == head;
    QuietLineUpdate(head, ls[1]);
    QuietLineUpdate(marked, ls[2]);
    assert LineUpdate(head, ls[1]) == marked == LineUpdate(marked, ls[2]);
    hide LineUpdate;
    assert ls == [ls[0]] + [ls[1], ls[2]] && [ls[1], ls[2]] == [ls[1]] + [ls[2]];
    assert [ls[2]] == [ls[2]] + [] && [ls[0]] == [ls[0]] + [];
    ApplyCons([], ls[0], [ls[1], ls[2]]);
    ApplyCons(head, ls[1], [ls[2]]);
    ApplyCons(marked, ls[2], []);
    ApplyCons([], ls[0], []);
  }

  // ---------------------------------------------------------------- balanced braces

  /** Tokens whose braces are balanced. */
  datatype Braces = Empty | Pair(externC: bool, asm: bool, inner: Braces, rest: Braces) | Other(t: Token, rest: Braces)

  function Flat(b: Braces): seq<Token> {
    match b
    case Empty => []
    case Pair(externC, asm, inner, rest) => [OpenBrace(externC, asm)] + Flat(inner) + [CloseBrace] + Flat(rest)
    case Other(t, rest) => (if t.Semicolon? || t.CloseParen? then [t] else []) + Flat(rest)
  }

  lemma {:induction false} AllTokensConcat(stack: Stack, a: seq<Token>, b: seq<Token>)
    ensures AllTokens(stack, a + b) == AllTokens(AllTokens(stack, a), b)
    decreases |a|
  {
    if a == [] {
      assert a + b == b;
    } else {
      assert (a + b)[1..] == a[1..] + b;
      AllTokensConcat(OneToken(stack, a[0]), a[1..], b);
    }
  }

  lemma OnlyToken(stack: Stack, t: Token)
    ensures AllTokens(stack, [t]) == OneToken(stack, t)
  {
    assert [t][1..] == [];
  }

  /** Balanced braces leave a stack with no head pending as it was. */
  lemma {:induction false} BalancedBracesKeep(stack: Stack, b: Braces)
    requires SeenOpenBrace(stack)
    ensures AllTokens(stack, Flat(b)) == stack
    decreases b, 0
  {
    match b
    case Empty =>
    case Pair(externC, asm, inner, rest) =>
      BracedBodyPops(stack, OpenBrace(externC, asm), inner);
      AllTokensConcat(stack, [OpenBrace(externC, asm)] + Flat(inner) + [CloseBrace], Flat(rest));
      BalancedBracesKeep(stack, rest);
    case Other(t, rest) =>
      if t.Semicolon? || t.CloseParen? {
        AllTokensConcat(stack, [t], Flat(rest));
        OnlyToken(stack, t);
      } else {
        assert [] + Flat(rest) == Flat(rest);
      }
      BalancedBracesKeep(stack, rest);
  }

  /** A braced body adds nothing to the stack, and takes the pending head off with it if there is one. */
  lemma {:induction false} BracedBodyPops(stack: Stack, open: Token, inner: Braces)
    requires open.OpenBrace?
    ensures AllTokens(stack, [open] + Flat(inner) + [CloseBrace]) ==
            if SeenOpenBrace(stack) then stack else stack[..|stack| - 1]
    decreases inner, 1
  {
    var s1 := OneToken(stack, open);
    AllTokensConcat(stack, [open] + Flat(inner), [CloseBrace]);
    AllTokensConcat(stack, [open], Flat(inner));
    OnlyToken(stack, open);
    BalancedBracesKeep(s1, inner);
    OnlyToken(s1, CloseBrace);
    if SeenOpenBrace(stack) {
      assert s1[..|s1| - 1] == stack;
    }
  }

  // ---------------------------------------------------------------- pending heads

  /** How many statements and braced bodies there are, not counting those inside bodies. */
  function Items(b: Braces): nat {
    match b
    case Empty => 0
    case Pair(_, _, _, rest) => 1 + Items(rest)
    case Other(t, rest) => (if t.Semicolon? || t.CloseParen? then 1 else 0) + Items(rest)
  }

  /** The stack without up to `k` heads that still wait for their brace. */
  function WithoutHeads(stack: Stack, k: nat): Stack {
    if k == 0 || SeenOpenBrace(stack) then stack else WithoutHeads(stack[..|stack| - 1], k - 1)
  }

  /**
   * From any stack, every statement's end and every braced body takes one pending head off, and
   * nothing else is changed.
   */
  lemma {:induction false} EachItemTakesHead(stack: Stack, b: Braces)
    ensures AllTokens(stack, Flat(b)) == WithoutHeads(stack, Items(b))
    decreases b
  {
    hide AllTokens;
    match b
    case Empty =>
      NoToken(stack);
    case Pair(externC, asm, inner, rest) =>
      PairFirst(stack, externC, asm, inner, rest);
      WithoutOneMore(stack, Items(rest));
      EachItemTakesHead(if SeenOpenBrace(stack) then stack else stack[..|stack| - 1], rest);
      hide WithoutHeads;
      hide Flat;
    case Other(t, rest) =>
      if t.Semicolon? || t.CloseParen? {
        AllTokensConcat(stack, [t], Flat(rest));
        EndFirst(stack, t);
        WithoutOneMore(stack, Items(rest));
        EachItemTakesHead(if SeenOpenBrace(stack) then stack else stack[..|stack| - 1], rest);
      } else {
        assert [] + Flat(rest) == Flat(rest);
        EachItemTakesHead(stack, rest);
      }
      hide WithoutHeads;
  }

  lemma NoToken(stack: Stack)
    ensures AllTokens(stack, []) == stack
  {
  }

  lemma WithoutOneMore(stack: Stack, k: nat)
    ensures WithoutHeads(stack, 1 + k) == WithoutHeads(if SeenOpenBrace(stack) then stack else stack[..|stack| - 1], k)
  {
  }

  lemma PairFirst(stack: Stack, externC: bool, asm: bool, inner: Braces, rest: Braces)
    ensures AllTokens(stack, Flat(Pair(externC, asm, inner, rest))) ==
            AllTokens(if SeenOpenBrace(stack) then stack else stack[..|stack| - 1], Flat(rest))
  {
    hide AllTokens;
    BracedBodyPops(stack, OpenBrace(externC, asm), inner);
    AllTokensConcat(stack, [OpenBrace(externC, asm)] + Flat(inner) + [CloseBrace], Flat(rest));
  }

  lemma EndFirst(stack: Stack, t: Token)
    requires t.Semicolon? || t.CloseParen?
    ensures AllTokens(stack, [t]) == if SeenOpenBrace(stack) then stack else stack[..|stack| - 1]
  {
    OnlyToken(stack, t);
  }

  /** The innermost block of `stack` once the line's parentheses and namespaces are in. */
  function BeforeClass(stack: Stack, line: Line): Stack {
    PushNamespaces(CountParens(stack, line), line.namespaces)
  }

  lemma HeadOfSeen(stack: Stack, bareColon: bool)
    requires SeenOpenBrace(stack)
    ensures CheckHead(stack, bareColon, None) == stack
  {
    if stack != [] {
      assert WithTop(stack, stack[|stack| - 1]) == stack;
    }
  }

  lemma AllTokensCons(stack: Stack, t: Token, ts: seq<Token>)
    ensures AllTokens(stack, [t] + ts) == AllTokens(OneToken(stack, t), ts)
  {
    assert ([t] + ts)[1..] == ts;
  }

  /**
   * A forward declaration leaves no trace, and neither does `class` or `struct` before a parameter: the
   * line does what it would do without the class.
   */
  lemma ForwardDeclarationGone(stack: Stack, line: Line, t: Token, ts: seq<Token>)
    requires TakesClass(BeforeClass(stack, line), line) && SeenOpenBrace(BeforeClass(stack, line))
    requires line.restAfterClass.tokens == [t] + ts && (t.Semicolon? || t.CloseParen?)
    ensures LineUpdate(stack, line) == LineUpdate(stack, line.(classDecl := None, rest := Rest(None, [t] + ts)))
  {
    var s1, plain := BeforeClass(stack, line), line.(classDecl := None, rest := Rest(None, [t] + ts));
    SamePlace(stack, line, plain);
    hide PushNamespaces;
    hide CountParens;
    var head := CheckHead(PushClass(s1, line), line.bareColon, line.restAfterClass.access);
    DeclarationEnds(s1, line, line.restAfterClass.access, t);
    HeadOfSeen(s1, line.bareColon);
    AllTokensCons(head, t, ts);
    AllTokensCons(s1, t, ts);
    hide AllTokens;
    hide CheckHead;
    hide OneToken;
  }

  lemma SamePlace(stack: Stack, line: Line, plain: Line)
    requires plain.parens == line.parens && plain.asmStart == line.asmStart && plain.namespaces == line.namespaces
    ensures BeforeClass(stack, plain) == BeforeClass(stack, line)
  {
  }

  lemma HeadOnTop(stack: Stack, block: Block, bareColon: bool, access: Option<string>)
    ensures var s' := CheckHead(stack + [block], bareColon, access);
            |s'| == |stack| + 1 && s'[..|stack|] == stack && s'[|stack|].seenOpenBrace == block.seenOpenBrace
  {
    assert (stack + [block])[..|stack|] == stack;
  }

  lemma DeclarationEnds(s1: Stack, line: Line, access: Option<string>, t: Token)
    requires TakesClass(s1, line) && SeenOpenBrace(s1) && (t.Semicolon? || t.CloseParen?)
    ensures OneToken(CheckHead(PushClass(s1, line), line.bareColon, access), t) == s1 == OneToken(s1, t)
  {
    var pushed := PushClass(s1, line);
    assert pushed == s1 + [pushed[|s1|]] && !pushed[|s1|].seenOpenBrace;
    HeadOnTop(s1, pushed[|s1|], line.bareColon, access);
    hide CheckHead;
    hide PushClass;
    hide TakesClass;
  }

  /** `class Foo;` at the start of a file. */
  lemma ClassFooGone()
    ensures LineUpdate([], TextLine(0, false, [Semicolon]).(classDecl := Some(ClassDecl("Foo", false)))) == []
  {
    var line := TextLine(0, false, [Semicolon]).(classDecl := Some(ClassDecl("Foo", false)));
    assert [Semicolon] == [Semicolon] + [];
    ForwardDeclarationGone([], line, Semicolon, []);
    OnlyToken([], Semicolon);
  }

  // ---------------------------------------------------------------- what is opened

  /** A line that starts nothing but `what` on a stack whose innermost block has no parenthesis open. */
  ghost predicate AtRest(stack: Stack) {
    Settled(stack) && (stack == [] || stack[|stack| - 1].openParentheses == 0)
  }

  lemma AtRestKept(stack: Stack, line: Line)
    requires AtRest(stack) && line.parens == 0
    ensures CountParens(stack, line) == stack
  {
    if stack != [] {
      assert WithTop(stack, stack[|stack| - 1]) == stack;
    }
  }

  /** A class opens private and a struct public, derived if a bare colon stands in its head. */
  lemma ClassOpens(stack: Stack, name: string, isStruct: bool, colon: bool)
    requires AtRest(stack)
    ensures var line := TextLine(0, false, [OpenBrace(false, false)]).(classDecl := Some(ClassDecl(name, isStruct)), bareColon := colon);
            LineUpdate(stack, line) ==
            stack + [Block(Class(name), true, 0, NoAsm, colon, if isStruct then "public" else "private")]
  {
    var line := TextLine(0, false, [OpenBrace(false, false)]).(classDecl := Some(ClassDecl(name, isStruct)), bareColon := colon);
    AtRestKept(stack, line);
    var block := NewBlock(Class(name), false).(access := if isStruct then "public" else "private");
    assert PushClass(stack, line) == stack + [block];
    var head := CheckHead(stack + [block], colon, None);
    assert head == stack + [block.(isDerived := colon)];
    OnlyToken(head, OpenBrace(false, false));
  }

  /** In parentheses and in template arguments the word is no class head. */
  lemma ClassIgnored(stack: Stack, line: Line)
    requires var s1 := BeforeClass(stack, line); (s1 != [] && s1[|s1| - 1].openParentheses != 0) || line.inTemplate
    ensures LineUpdate(stack, line) == LineUpdate(stack, line.(classDecl := None))
  {
    SamePlace(stack, line, line.(classDecl := None));
    hide CountParens;
    hide PushNamespaces;
    hide CheckHead;
    hide AllTokens;
  }

  /** A namespace is open whether its brace stands on the same line or on the next. */
  lemma NamespaceOpens(stack: Stack, name: string)
    requires AtRest(stack)
    ensures var open := stack + [Block(Namespace(name), true, 0, NoAsm, false, "")];
            var brace := TextLine(0, false, [OpenBrace(false, false)]);
            && LineUpdate(stack, TextLine(0, false, []).(namespaces := [NamespaceDecl(name, true)])) == open
            && LineUpdate(LineUpdate(stack, TextLine(0, false, []).(namespaces := [NamespaceDecl(name, false)])), brace) == open
  {
    var line1, line2 := TextLine(0, false, []).(namespaces := [NamespaceDecl(name, true)]),
                        TextLine(0, false, []).(namespaces := [NamespaceDecl(name, false)]);
    var brace, pending := TextLine(0, false, [OpenBrace(false, false)]), stack + [NewBlock(Namespace(name), false)];
    AtRestKept(stack, line1);
    AtRestKept(stack, line2);
    OnlyNamespace(stack, NamespaceDecl(name, true));
    OnlyNamespace(stack, NamespaceDecl(name, false));
    AtRestKept(pending, brace);
    OnlyToken(pending, OpenBrace(false, false));
  }

  lemma OnlyNamespace(stack: Stack, d: NamespaceDecl)
    ensures PushNamespaces(stack, [d]) == stack + [NewBlock(Namespace(d.name), d.braceOnLine)]
  {
    assert [d][1..] == [];
  }

  /** An access label sets the access of the innermost block if that is a class, and does nothing else. */
  lemma LabelSetsAccess(stack: Stack, block: Block, access: string)
    requires AtRest(stack + [block])
    ensures LineUpdate(stack + [block], TextLine(0, false, []).(rest := Rest(Some(access), []))) ==
            stack + [if block.kind.Class? then block.(access := access) else block]
  {
    var line := TextLine(0, false, []).(rest := Rest(Some(access), []));
    AtRestKept(stack + [block], line);
    assert (stack + [block])[..|stack|] == stack;
  }

  /**
   * The innermost block enters inline assembly on a line that starts like it and opens the block's first
   * parenthesis, leaves it where the parentheses balance again, and forgets it on the next line. An
   * assembly block of braces stays one.
   */
  lemma AsmFollowsParens(stack: Stack, block: Block, parens: int, asmStart: bool)
    ensures var open := block.openParentheses + parens;
            var asm := match block.inlineAsm
                       case NoAsm => if asmStart && open == 1 && parens != 0 then InsideAsm else NoAsm
                       case EndAsm => if asmStart && open == 1 && parens != 0 then InsideAsm else NoAsm
                       case InsideAsm => if open == 0 then EndAsm else InsideAsm
                       case BlockAsm => BlockAsm;
            LineUpdate(stack + [block], TextLine(parens, asmStart, [])) ==
            stack + [block.(openParentheses := open, inlineAsm := asm)]
  {
    var line := TextLine(parens, asmStart, []);
    var after := CountParens(stack + [block], line);
    assert (stack + [block])[..|stack|] == stack;
    var top := after[|stack|];
    assert after == stack + [top];
    assert CheckHead(after, false, None) == after;
  }

  /** Any other brace opens a block, of C linkage or of assembly if the line says so. */
  lemma BlockOpens(stack: Stack, externC: bool, asm: bool)
    requires AtRest(stack) && SeenOpenBrace(stack)
    ensures LineUpdate(stack, TextLine(0, false, [OpenBrace(externC, asm)])) ==
            stack + [if externC then Block(ExternC, true, 0, NoAsm, false, "")
                     else Block(Plain, true, 0, if asm then BlockAsm else NoAsm, false, "")]
  {
    AtRestKept(stack, TextLine(0, false, [OpenBrace(externC, asm)]));
    HeadOfSeen(stack, false);
    OnlyToken(stack, OpenBrace(externC, asm));
  }

  lemma DirectiveAside(stack: Stack, line: Line)
    ensures LineUpdate(stack, line.(directive := NoDirective)) == LineUpdate(stack, line)
  {
    hide PushNamespaces;
    hide CheckHead;
    hide AllTokens;
    var plain := line.(directive := NoDirective);
    assert CountParens(stack, plain) == CountParens(stack, line);
    hide CountParens;
    var s1 := BeforeClass(stack, line);
    assert PushClass(s1, plain) == PushClass(s1, line);
    hide PushClass;
  }

  /** A `#else`, `#elif` or `#endif` outside any conditional is read as an ordinary line. */
  lemma StrayIsOrdinary(stack: Stack, line: Line)
    requires !line.directive.If?
    ensures Updated(View(stack, []), line) == Updated(View(stack, []), line.(directive := NoDirective))
  {
    DirectiveAside(stack, line);
    hide LineUpdate;
  }
}
