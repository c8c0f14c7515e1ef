/**
 * What the scanners of build_support/cpplint.py do with template arguments: `<` and `>` are brackets
 * like the others wherever none of the rules of thumb about operators applies.
 */
module Templates {
  import opened Options
  import opened Brackets
  import opened Scanner
  import opened Expressions

  /** Text in which brackets of four kinds, angles among them, are balanced. */
  datatype Expr = Done | Char(c: char, rest: Expr) | Group(open: char, inner: Expr, rest: Expr)

  function Closer(open: char): char {
    match open
    case '(' => ')'
    case '[' => ']'
    case '{' => '}'
    case _ => '>'
  }

  function Spelled(e: Expr): string {
    match e
    case Done => ""
    case Char(c, rest) => [c] + Spelled(rest)
    case Group(open, inner, rest) => [open] + Spelled(inner) + [Closer(open)] + Spelled(rest)
  }

  predicate Balanced(e: Expr) {
    match e
    case Done => true
    case Char(c, rest) => c !in ['(', ')', '[', ']', '{', '}', '<', '>', ';'] && Balanced(rest)
    case Group(open, inner, rest) => open in ['(', '[', '{', '<'] && Balanced(inner) && Balanced(rest)
  }

  /** Nothing in the line looks like `<<`, `->`, `operator` or a spaced `>=`. */
  ghost predicate NoOperators(r: Rules, line: string) {
    && (forall i :: 0 < i < |line| && line[i] == '<' ==> line[i - 1] != '<')
    && (forall i :: 0 < i < |line| && line[i] == '>' ==> line[i - 1] != '-' && !r.spacedGe(line[i - 1..]))
    && (forall k :: 0 <= k <= |line| ==> !r.operatorEnd(line[..k]))
  }

  /** `e` is what stands in the line from `i` on. */
  predicate Stands(line: string, i: nat, e: Expr) {
    i + |Spelled(e)| <= |line| && line[i..i + |Spelled(e)|] == Spelled(e)
  }

  lemma Parts(c: char, a: string, d: char, b: string)
    ensures var t := [c] + a + [d] + b;
            t[0] == c && t[1..1 + |a|] == a && t[1 + |a|] == d && t[2 + |a|..] == b && |t| == 2 + |a| + |b|
  {
  }

  /** `t` is what stands in the line from `i` on. */
  predicate Here(line: string, i: nat, t: string) {
    i + |t| <= |line| && line[i..i + |t|] == t
  }

  lemma PartHere(line: string, i: nat, t: string, a: nat, b: nat)
    requires Here(line, i, t) && a <= b <= |t|
    ensures Here(line, i + a, t[a..b])
  {
    assert forall m :: 0 <= m < |t| ==> line[i + m] == line[i..i + |t|][m] == t[m];
    var part := t[a..b];
    assert forall m :: 0 <= m < |part| ==> line[i + a + m] == part[m] by {
      forall m | 0 <= m < |part|
        ensures line[i + a + m] == part[m]
      {
        assert line[i + (a + m)] == t[a + m];
      }
    }
    assert line[i + a..i + a + |part|] == part;
  }

  lemma CharHere(line: string, i: nat, t: string, a: nat)
    requires Here(line, i, t) && a < |t|
    ensures i + a < |line| && line[i + a] == t[a]
  {
    assert line[i..i + |t|][a] == t[a];
  }

  lemma StandsHere(line: string, i: nat, e: Expr)
    ensures Stands(line, i, e) <==> Here(line, i, Spelled(e))
  {
  }

  /** Where the parts of a group stand. */
  lemma GroupStands(line: string, i: nat, open: char, inner: Expr, rest: Expr)
    requires Stands(line, i, Group(open, inner, rest))
    ensures var k := i + 1 + |Spelled(inner)|;
            && k + 1 + |Spelled(rest)| == i + |Spelled(Group(open, inner, rest))| && k < |line|
            && line[i] == open && Stands(line, i + 1, inner) && line[k] == Closer(open) && Stands(line, k + 1, rest)
  {
    var a, b, n := Spelled(inner), Spelled(rest), |Spelled(inner)|;
    StandsHere(line, i, Group(open, inner, rest));
    GroupHere(line, i, open, a, Closer(open), b);
    StandsHere(line, i + 1, inner);
    StandsHere(line, i + 2 + n, rest);
    hide Here;
    hide Stands;
  }

  lemma GroupHere(line: string, i: nat, c: char, a: string, d: char, b: string)
    requires Here(line, i, [c] + a + [d] + b)
    ensures i + 2 + |a| + |b| <= |line| && line[i] == c && line[i + 1 + |a|] == d
    ensures Here(line, i + 1, a) && Here(line, i + 2 + |a|, b)
  {
    var t, n := [c] + a + [d] + b, |a|;
    Parts(c, a, d, b);
    CharHere(line, i, t, 0);
    CharHere(line, i, t, 1 + n);
    PartHere(line, i, t, 1, 1 + n);
    PartHere(line, i, t, 2 + n, |t|);
    RestOf(t, 2 + n);
    hide Here;
  }

  lemma RestOf(t: string, k: nat)
    requires k <= |t|
    ensures t[k..|t|] == t[k..]
  {
  }

  lemma CharStands(line: string, i: nat, c: char, rest: Expr)
    requires Stands(line, i, Char(c, rest))
    ensures i < |line| && line[i] == c && Stands(line, i + 1, rest)
  {
    var t := Spelled(Char(c, rest));
    assert line[i] == line[i..i + |t|][0];
    assert line[i + 1..i + |t|] == line[i..i + |t|][1..] == Spelled(rest);
  }

  // ---------------------------------------------------------------- forward

  lemma OpenForward(r: Rules, line: string, i: nat, stack: seq<char>)
    requires NoOperators(r, line) && i < |line| && line[i] in ['(', '[', '{', '<']
    ensures Forward(r, line, i, stack) == Go(stack + [line[i]])
  {
  }

  lemma CloseForward(r: Rules, line: string, i: nat, open: char, stack: seq<char>)
    requires NoOperators(r, line) && i < |line| && open in ['(', '[', '{', '<'] && line[i] == Closer(open)
    ensures Forward(r, line, i, stack + [open]) == if stack == [] then Stop else Go(stack)
  {
    assert (stack + [open])[..|stack|] == stack;
  }

  /** A group is passed over if what is inside it is; the outermost ends the scan. */
  lemma ForwardGroup(r: Rules, line: string, i: nat, k: nat, open: char, stack: seq<char>)
    requires NoOperators(r, line) && i < k < |line|
    requires open in ['(', '[', '{', '<'] && line[i] == open && line[k] == Closer(open)
    requires ScanForward(r, line, i + 1, stack + [open]) == ScanForward(r, line, k, stack + [open])
    ensures ScanForward(r, line, i, stack) == if stack == [] then (k + 1, None) else ScanForward(r, line, k + 1, stack)
  {
    OpenForward(r, line, i, stack);
    CloseForward(r, line, k, open, stack);
    hide Forward;
    hide NoOperators;
  }

  lemma ForwardChar(r: Rules, line: string, i: nat, stack: seq<char>)
    requires i < |line| && line[i] !in ['(', ')', '[', ']', '{', '}', '<', '>', ';']
    ensures ScanForward(r, line, i, stack) == ScanForward(r, line, i + 1, stack)
  {
  }

  lemma {:induction false} ForwardOver(r: Rules, line: string, i: nat, e: Expr, stack: seq<char>)
    requires NoOperators(r, line) && Balanced(e) && Stands(line, i, e) && stack != []
    ensures ScanForward(r, line, i, stack) == ScanForward(r, line, i + |Spelled(e)|, stack)
    decreases e
  {
    hide NoOperators;
    hide Stands;
    hide ScanForward;
    match e
    case Done =>
    case Char(c, rest) =>
      CharStands(line, i, c, rest);
      ForwardChar(r, line, i, stack);
      ForwardOver(r, line, i + 1, rest, stack);
    case Group(open, inner, rest) =>
      GroupStands(line, i, open, inner, rest);
      var k := i + 1 + |Spelled(inner)|;
      ForwardOver(r, line, i + 1, inner, stack + [open]);
      ForwardGroup(r, line, i, k, open, stack);
      ForwardOver(r, line, k + 1, rest, stack);
  }

  /** From an opening bracket, or `<`, the forward scanner finds the end of its group. */
  lemma GroupForward(r: Rules, line: string, i: nat, open: char, inner: Expr)
    requires NoOperators(r, line) && Balanced(Group(open, inner, Done)) && Stands(line, i, Group(open, inner, Done))
    ensures ScanForward(r, line, i, []) == (i + |Spelled(Group(open, inner, Done))|, None)
  {
    hide NoOperators;
    hide ScanForward;
    GroupStands(line, i, open, inner, Done);
    hide Stands;
    assert [] + [open] == [open];
    ForwardOver(r, line, i + 1, inner, [open]);
    ForwardGroup(r, line, i, i + 1 + |Spelled(inner)|, open, []);
  }

  // ---------------------------------------------------------------- backward

  lemma CloseBackward(r: Rules, line: string, i: nat, open: char, stack: seq<char>)
    requires NoOperators(r, line) && i < |line| && open in ['(', '[', '{', '<'] && line[i] == Closer(open)
    ensures Backward(r, line, i, stack) == (Go(stack + [line[i]]), false)
  {
  }

  lemma OpenBackward(r: Rules, line: string, i: nat, open: char, stack: seq<char>)
    requires NoOperators(r, line) && i < |line| && open in ['(', '[', '{', '<'] && line[i] == open
    ensures Backward(r, line, i, stack + [Closer(open)]) == (if stack == [] then Stop else Go(stack), false)
  {
    assert (stack + [Closer(open)])[..|stack|] == stack;
  }

  lemma BackGroup(r: Rules, line: string, i: nat, k: nat, open: char, stack: seq<char>)
    requires NoOperators(r, line) && i < k < |line|
    requires open in ['(', '[', '{', '<'] && line[i] == open && line[k] == Closer(open)
    requires ScanBack(r, line, k - 1, stack + [Closer(open)]) == ScanBack(r, line, i, stack + [Closer(open)])
    ensures ScanBack(r, line, k, stack) == if stack == [] then (i, None) else ScanBack(r, line, i - 1, stack)
  {
    CloseBackward(r, line, k, open, stack);
    OpenBackward(r, line, i, open, stack);
    hide Backward;
    hide NoOperators;
  }

  lemma BackChar(r: Rules, line: string, i: nat, stack: seq<char>)
    requires i < |line| && line[i] !in ['(', ')', '[', ']', '{', '}', '<', '>', ';']
    ensures ScanBack(r, line, i, stack) == ScanBack(r, line, i - 1, stack)
  {
  }

  lemma StandsInside(line: string, i: nat, e: Expr)
    requires Stands(line, i, e)
    ensures i + |Spelled(e)| <= |line|
  {
  }

  lemma {:induction false} BackOver(r: Rules, line: string, i: nat, e: Expr, stack: seq<char>)
    requires NoOperators(r, line) && Balanced(e) && Stands(line, i, e) && stack != []
    ensures i + |Spelled(e)| <= |line| && ScanBack(r, line, i + |Spelled(e)| - 1, stack) == ScanBack(r, line, i - 1, stack)
    decreases e
  {
    hide NoOperators;
    hide Stands;
    hide ScanBack;
    StandsInside(line, i, e);
    match e
    case Done =>
    case Char(c, rest) =>
      CharStands(line, i, c, rest);
      BackOver(r, line, i + 1, rest, stack);
      BackChar(r, line, i, stack);
    case Group(open, inner, rest) =>
      GroupStands(line, i, open, inner, rest);
      var k := i + 1 + |Spelled(inner)|;
      BackOver(r, line, k + 1, rest, stack);
      BackOver(r, line, i + 1, inner, stack + [Closer(open)]);
      BackGroup(r, line, i, k, open, stack);
  }

  /** From a closing bracket, or `>`, the backward scanner finds the start of its group. */
  lemma GroupBackward(r: Rules, line: string, i: nat, open: char, inner: Expr)
    requires NoOperators(r, line) && Balanced(Group(open, inner, Done)) && Stands(line, i, Group(open, inner, Done))
    ensures var j := i + |Spelled(Group(open, inner, Done))|; i < j <= |line| && ScanBack(r, line, j - 1, []) == (i, None)
  {
    hide NoOperators;
    hide ScanBack;
    GroupStands(line, i, open, inner, Done);
    hide Stands;
    assert [] + [Closer(open)] == [Closer(open)];
    BackOver(r, line, i + 1, inner, [Closer(open)]);
    BackGroup(r, line, i, i + 1 + |Spelled(inner)|, open, []);
  }

  // ---------------------------------------------------------------- the two searches

  lemma TemplateEnds(r: Rules, line: string, i: nat, inner: Expr)
    requires NoOperators(r, line) && Balanced(inner) && Stands(line, i, Group('<', inner, Done))
    ensures var k := i + 1 + |Spelled(inner)|;
            && k < |line| && line[k] in ")}]>"
            && ScanForward(r, line, i, []) == (k + 1, None) && ScanBack(r, line, k, []) == (i, None)
  {
    GroupForward(r, line, i, '<', inner);
    GroupBackward(r, line, i, '<', inner);
    GroupStands(line, i, '<', inner, Done);
    hide NoOperators;
  }

  /** From the `<` of a template argument list in one line the search finds the place just past its `>`. */
  method CloseTemplate(r: Rules, lines: seq<string>, l: nat, i: nat, ghost inner: Expr)
    returns (linenum: nat, end: int)
    requires l < |lines| && i < |lines[l]| && NoOperators(r, lines[l]) && Starts(lines[l], i)
    requires Balanced(inner) && Stands(lines[l], i, Group('<', inner, Done))
    ensures linenum == l && end == i + 2 + |Spelled(inner)|
  {
    TemplateEnds(r, lines[l], i, inner);
    hide *;
    var line;
    line, linenum, end := CloseExpression(r, lines, l, i);
  }

  /** From that `>` the other search finds the `<` again. */
  method ReverseCloseTemplate(r: Rules, lines: seq<string>, l: nat, k: nat, ghost i: nat, ghost inner: Expr)
    returns (linenum: nat, start: int)
    requires l < |lines| && k < |lines[l]| && NoOperators(r, lines[l]) && k == i + 1 + |Spelled(inner)|
    requires Balanced(inner) && Stands(lines[l], i, Group('<', inner, Done))
    ensures linenum == l && start == i
  {
    TemplateEnds(r, lines[l], i, inner);
    hide *;
    var line;
    line, linenum, start := ReverseCloseExpression(r, lines, l, k);
  }

  /** A `;` ends all pending angles: from a `<` that meets one first, the search gives up. */
  lemma SemicolonGivesUp(r: Rules, line: string, i: nat, e: Expr)
    requires NoOperators(r, line) && Balanced(e) && i < |line| && line[i] == '<' && Stands(line, i + 1, e)
    requires var k := i + 1 + |Spelled(e)|; k < |line| && line[k] == ';'
    ensures ScanForward(r, line, i, []) == (-1, None)
  {
    var k := i + 1 + |Spelled(e)|;
    OpenForward(r, line, i, []);
    assert [] + ['<'] == ['<'];
    ForwardOver(r, line, i + 1, e, ['<']);
    NothingPending(r, line, k);
    hide Forward;
    hide NoOperators;
    hide Stands;
  }

  lemma NothingPending(r: Rules, line: string, k: nat)
    requires k < |line| && line[k] == ';'
    ensures Forward(r, line, k, ['<']) == Fail
  {
    assert ['<'][..0] == [];
    assert DropPending([], '<') == [];
  }
}
