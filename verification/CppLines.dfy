/** cpp_lines of dev/check-f08-bindings.jl: the lines a preprocessor would keep, found by one scan with a stack of
    booleans, against the meaning of the nested conditionals those lines spell. */
module CppLines {
  import opened Options

  // ----- lines

  predicate IsSpace(c: char) {
    c == ' ' || c == '\t' || c == '\r'
  }

  predicate IsWordChar(c: char) {
    'a' <= c <= 'z' || 'A' <= c <= 'Z' || '0' <= c <= '9' || c == '_'
  }

  function SkipSpace(s: string): string {
    if s != [] && IsSpace(s[0]) then SkipSpace(s[1..]) else s
  }

  /** The longest word that s begins with. */
  function Word(s: string): (w: string)
    ensures w <= s
  {
    if s != [] && IsWordChar(s[0]) then [s[0]] + Word(s[1..]) else []
  }

  /** #ifdef of a macro, or #ifndef if negated. */
  datatype Guard = Guard(negated: bool, macro: string) {
    function Flip(): Guard {
      this.(negated := !negated)
    }

    /** Every macro that is not undefined counts as defined. */
    predicate Holds(undefines: set<string>) {
      (macro in undefines) == negated
    }
  }

  datatype Line = Text(text: string) | If(guard: Guard) | Else | Endif | Unsupported

  /** The directive's keyword is the whole first word after the '#'; a macro's name is the next word, perhaps empty. */
  function Classify(line: string): Line {
    var s := SkipSpace(line);
    if s == [] || s[0] != '#' then Text(line)
    else
      var directive := SkipSpace(s[1..]);
      var keyword := Word(directive);
      var macro := Word(SkipSpace(directive[|keyword|..]));
      match keyword
      case "ifdef" => If(Guard(false, macro))
      case "ifndef" => If(Guard(true, macro))
      case "else" => Else
      case "endif" => Endif
      case _ => Unsupported
  }

  function ClassifyAll(lines: seq<string>): seq<Line> {
    seq(|lines|, i requires 0 <= i < |lines| => Classify(lines[i]))
  }

  // ----- what the lines are, said of the text

  predicate Spaces(s: string) {
    forall i :: 0 <= i < |s| ==> s[i] == ' ' || s[i] == '\t' || s[i] == '\r'
  }

  predicate WordChars(s: string) {
    forall i :: 0 <= i < |s| ==> 'a' <= s[i] <= 'z' || 'A' <= s[i] <= 'Z' || '0' <= s[i] <= '9' || s[i] == '_'
  }

  predicate Begins(s: string, p: char -> bool) {
    s != [] && p(s[0])
  }

  lemma {:induction false} SkipsSpaces(blanks: string, s: string)
    requires Spaces(blanks) && !Begins(s, IsSpace)
    ensures SkipSpace(blanks + s) == s
  {
    if blanks == [] {
      assert blanks + s == s;
    } else {
      assert (blanks + s)[1..] == blanks[1..] + s;
      SkipsSpaces(blanks[1..], s);
    }
  }

  lemma {:induction false} FindsWord(w: string, s: string)
    requires WordChars(w) && !Begins(s, IsWordChar)
    ensures Word(w + s) == w
  {
    if w == [] {
      assert w + s == s;
    } else {
      assert (w + s)[1..] == w[1..] + s;
      FindsWord(w[1..], s);
      assert w == [w[0]] + w[1..];
    }
  }

  /** The rest of a directive after its keyword: blanks, a macro's name, and whatever follows. */
  ghost predicate IsTail(tail: string, gap: string, macro: string, more: string) {
    && tail == gap + (macro + more) && Spaces(gap) && WordChars(macro)
    && !Begins(tail, IsWordChar) && !Begins(more, IsWordChar) && !Begins(macro + more, IsSpace)
  }

  /** A line that begins with '#', blanks apart, is the directive that its first word names, of the macro that its
      second word names; and there are four that the program knows. */
  lemma ClassifyDirective(indent: string, space: string, keyword: string, tail: string, gap: string, macro: string,
                          more: string)
    requires Spaces(indent) && Spaces(space) && WordChars(keyword) && !Begins(keyword + tail, IsSpace)
    requires IsTail(tail, gap, macro, more)
    ensures var line := Classify(indent + (['#'] + (space + (keyword + tail))));
            if keyword == "ifdef" then line == If(Guard(false, macro))
            else if keyword == "ifndef" then line == If(Guard(true, macro))
            else if keyword == "else" then line == Else
            else if keyword == "endif" then line == Endif
            else line == Unsupported
  {
    var directive := space + (keyword + tail);
    SkipsSpaces(indent, ['#'] + directive);
    assert (['#'] + directive)[1..] == directive;
    SkipsSpaces(space, keyword + tail);
    FindsWord(keyword, tail);
    assert (keyword + tail)[|keyword|..] == tail;
    SkipsSpaces(gap, macro + more);
    FindsWord(macro, more);
  }

  /** Any other line is text, and kept as it is. */
  lemma ClassifyText(indent: string, s: string)
    requires Spaces(indent) && !Begins(s, IsSpace) && (s == [] || s[0] != '#')
    ensures Classify(indent + s) == Text(indent + s)
  {
    SkipsSpaces(indent, s);
  }

  // ----- conditionals, and what they mean

  datatype Block =
    | Empty
    | Plain(text: string, rest: Block)
    | Conditional(guard: Guard, branches: Branches, rest: Block)

  /** A conditional's branches, with an #else between any two. The program takes more than one. */
  datatype Branches = Last(body: Block) | Then(body: Block, more: Branches)

  function Flatten(block: Block): seq<Line> {
    match block
    case Empty => []
    case Plain(text, rest) => [Text(text)] + Flatten(rest)
    case Conditional(guard, branches, rest) => [If(guard)] + FlattenBranches(branches) + Flatten(rest)
  }

  function FlattenBranches(branches: Branches): seq<Line> {
    match branches
    case Last(body) => Flatten(body) + [Endif]
    case Then(body, more) => Flatten(body) + [Else] + FlattenBranches(more)
  }

  function KeptIf(on: bool, texts: seq<string>): seq<string> {
    if on then texts else []
  }

  function Eval(block: Block, undefines: set<string>): seq<string> {
    match block
    case Empty => []
    case Plain(text, rest) => [text] + Eval(rest, undefines)
    case Conditional(guard, branches, rest) => EvalBranches(branches, guard, undefines) + Eval(rest, undefines)
  }

  /** The guard of a branch is the opposite of the previous branch's. */
  function EvalBranches(branches: Branches, guard: Guard, undefines: set<string>): seq<string> {
    match branches
    case Last(body) => KeptIf(guard.Holds(undefines), Eval(body, undefines))
    case Then(body, more) =>
      KeptIf(guard.Holds(undefines), Eval(body, undefines)) + EvalBranches(more, guard.Flip(), undefines)
  }

  // ----- the stack machine

  datatype State = State(kept: seq<string>, stack: seq<bool>)

  predicate All(stack: seq<bool>) {
    forall i :: 0 <= i < |stack| ==> stack[i]
  }

  /** One line on; None if the program refuses it. */
  function Step(s: State, line: Line, undefines: set<string>): Option<State> {
    var top := |s.stack| - 1;
    match line
    case Text(text) => Some(if All(s.stack) then s.(kept := s.kept + [text]) else s)
    case If(guard) => Some(s.(stack := s.stack + [guard.Holds(undefines)]))
    case Else => if top < 0 then None else Some(s.(stack := s.stack[top := !s.stack[top]]))
    case Endif => if top < 0 then None else Some(s.(stack := s.stack[..top]))
    case Unsupported => None
  }

  function Run(s: State, lines: seq<Line>, undefines: set<string>): Option<State>
    decreases |lines|
  {
    if lines == [] then Some(s)
    else
      match Step(s, lines[0], undefines)
      case None => None
      case Some(s') => Run(s', lines[1..], undefines)
  }

  lemma {:induction false} RunAppend(s: State, a: seq<Line>, b: seq<Line>, undefines: set<string>)
    ensures Run(s, a + b, undefines)
         == match Run(s, a, undefines)
            case None => None
            case Some(s') => Run(s', b, undefines)
    decreases |a|
  {
    if a == [] {
      assert a + b == b;
    } else {
      assert (a + b)[1..] == a[1..] + b;
      var s' := Step(s, a[0], undefines);
      if s'.Some? {
        RunAppend(s'.value, a[1..], b, undefines);
      }
    }
  }

  function Adding(s: State, texts: seq<string>): State {
    s.(kept := s.kept + KeptIf(All(s.stack), texts))
  }

  lemma AddingTwice(s: State, a: seq<string>, b: seq<string>)
    ensures Adding(Adding(s, a), b) == Adding(s, a + b)
  {
  }

  lemma AllPush(stack: seq<bool>, on: bool)
    ensures All(stack + [on]) <==> All(stack) && on
  {
    assert on == (stack + [on])[|stack|];
    assert forall i :: 0 <= i < |stack| ==> stack[i] == (stack + [on])[i];
  }

  lemma Associative(a: seq<Line>, b: seq<Line>, c: seq<Line>)
    ensures (a + b) + c == a + (b + c)
  {
  }

  /** From any state, the machine adds a block's meaning if everything around the block is on, and leaves the stack. */
  lemma {:induction false} RunBlock(s: State, block: Block, undefines: set<string>)
    ensures Run(s, Flatten(block), undefines) == Some(Adding(s, Eval(block, undefines)))
    decreases block
  {
    match block
    case Empty =>
    case Plain(text, rest) =>
      assert ([Text(text)] + Flatten(rest))[1..] == Flatten(rest);
      assert s.kept + [] == s.kept;
      AddingTwice(s, [text], Eval(rest, undefines));
      RunBlock(Adding(s, [text]), rest, undefines);
    case Conditional(guard, branches, rest) =>
      var inside := FlattenBranches(branches);
      assert ([If(guard)] + inside + Flatten(rest))[1..] == inside + Flatten(rest);
      RunBranches(s, guard, branches, undefines);
      RunAppend(Inside(s, guard.Holds(undefines)), inside, Flatten(rest), undefines);
      AddingTwice(s, EvalBranches(branches, guard, undefines), Eval(rest, undefines));
      RunBlock(Adding(s, EvalBranches(branches, guard, undefines)), rest, undefines);
  }

  /** Inside a conditional, while its branch is on or off. */
  function Inside(s: State, on: bool): State {
    s.(stack := s.stack + [on])
  }

  lemma AddingInside(s: State, on: bool, texts: seq<string>)
    ensures Adding(Inside(s, on), texts) == Inside(Adding(s, KeptIf(on, texts)), on)
  {
    AllPush(s.stack, on);
  }

  lemma LeaveBranch(s: State, on: bool, undefines: set<string>)
    ensures Run(Inside(s, on), [Endif], undefines) == Some(s)
    ensures Run(Inside(s, on), [Else], undefines) == Some(Inside(s, !on))
  {
    assert Inside(s, on).stack[..|s.stack|] == s.stack;
    assert Inside(s, on).stack[|s.stack| := !on] == Inside(s, !on).stack;
  }

  /** From inside a conditional to its end. */
  lemma {:induction false} RunBranches(s: State, guard: Guard, branches: Branches, undefines: set<string>)
    ensures Run(Inside(s, guard.Holds(undefines)), FlattenBranches(branches), undefines)
         == Some(Adding(s, EvalBranches(branches, guard, undefines)))
    decreases branches
  {
    var on, body := guard.Holds(undefines), Flatten(branches.body);
    var texts := KeptIf(on, Eval(branches.body, undefines));
    RunBlock(Inside(s, on), branches.body, undefines);
    AddingInside(s, on, Eval(branches.body, undefines));
    LeaveBranch(Adding(s, texts), on, undefines);
    match branches
    case Last(_) =>
      RunAppend(Inside(s, on), body, [Endif], undefines);
    case Then(_, more) =>
      var others := FlattenBranches(more);
      Associative(body, [Else], others);
      RunAppend(Inside(s, on), body, [Else] + others, undefines);
      RunAppend(Inside(Adding(s, texts), on), [Else], others, undefines);
      RunBranches(Adding(s, texts), guard.Flip(), more, undefines);
      AddingTwice(s, texts, EvalBranches(more, guard.Flip(), undefines));
  }

  // ----- what the machine accepts

  ghost predicate Accepts(s: State, lines: seq<Line>, undefines: set<string>) {
    Run(s, lines, undefines).Some? && Run(s, lines, undefines).value.stack == []
  }

  function Before(first: Block, branches: Branches): Branches
    requires !first.Empty?
  {
    match first
    case Plain(text, _) => branches.(body := Plain(text, branches.body))
    case Conditional(guard, inner, _) => branches.(body := Conditional(guard, inner, branches.body))
  }

  lemma FlattenBefore(first: Block, branches: Branches, rest: seq<Line>)
    requires !first.Empty? && first.rest.Empty?
    ensures FlattenBranches(Before(first, branches)) + rest == Flatten(first) + (FlattenBranches(branches) + rest)
  {
  }

  /** A conditional, then the remainder of the branches around it. */
  lemma BeforeInner(guard: Guard, inner: Branches, branches: Branches, lines': seq<Line>, rest: seq<Line>)
    requires lines' == FlattenBranches(branches) + rest
    ensures FlattenBranches(Before(Conditional(guard, inner, Empty), branches)) + rest
         == [If(guard)] + (FlattenBranches(inner) + lines')
  {
  }

  lemma AcceptsTail(s: State, lines: seq<Line>, undefines: set<string>) returns (next: State, tail: seq<Line>)
    requires s.stack != [] && Accepts(s, lines, undefines)
    ensures lines != [] && lines == [lines[0]] + tail && |tail| < |lines|
    ensures Step(s, lines[0], undefines) == Some(next) && Accepts(next, tail, undefines)
  {
    next, tail := Step(s, lines[0], undefines).value, lines[1..];
  }

  /** What is accepted inside a conditional is the remainder of its branches, and then something accepted outside. */
  lemma {:induction false} Close(s: State, lines: seq<Line>, undefines: set<string>)
    returns (branches: Branches, s': State, rest: seq<Line>)
    requires s.stack != [] && Accepts(s, lines, undefines)
    ensures lines == FlattenBranches(branches) + rest && |rest| < |lines|
    ensures s'.stack == s.stack[..|s.stack| - 1] && Accepts(s', rest, undefines)
    decreases |lines|
  {
    var next, tail := AcceptsTail(s, lines, undefines);
    match lines[0]
    case Text(text) =>
      branches, s', rest := Close(next, tail, undefines);
      FlattenBefore(Plain(text, Empty), branches, rest);
      branches := Before(Plain(text, Empty), branches);
    case If(guard) =>
      var inner, between, lines' := Close(next, tail, undefines);
      branches, s', rest := Close(between, lines', undefines);
      BeforeInner(guard, inner, branches, lines', rest);
      branches := Before(Conditional(guard, inner, Empty), branches);
    case Else =>
      branches, s', rest := Close(next, tail, undefines);
      Associative([Else], FlattenBranches(branches), rest);
      branches := Then(Empty, branches);
    case Endif =>
      branches, s', rest := Last(Empty), next, tail;
  }

  lemma {:induction false} Whole(s: State, lines: seq<Line>, undefines: set<string>) returns (block: Block)
    requires s.stack == [] && Accepts(s, lines, undefines)
    ensures Flatten(block) == lines
    decreases |lines|
  {
    if lines == [] {
      return Empty;
    }
    var next := Step(s, lines[0], undefines).value;
    match lines[0]
    case Text(text) =>
      var rest := Whole(next, lines[1..], undefines);
      block := Plain(text, rest);
    case If(guard) =>
      var branches, s', lines' := Close(next, lines[1..], undefines);
      var rest := Whole(s', lines', undefines);
      block := Conditional(guard, branches, rest);
  }

  const START := State([], [])

  /** Whatever the macros are, the lines accepted are those that spell nested conditionals. */
  lemma AcceptsIffNested(lines: seq<Line>, undefines: set<string>)
    ensures Accepts(START, lines, undefines) <==> exists block :: Flatten(block) == lines
  {
    if Accepts(START, lines, undefines) {
      var block := Whole(START, lines, undefines);
    }
    if block :| Flatten(block) == lines {
      RunBlock(START, block, undefines);
    }
  }

  // ----- the program

  datatype Error =
    | UnsupportedDirective(line: nat)
    | ElseWithoutIf(line: nat)
    | EndifWithoutIf(line: nat)
    | Unclosed(count: nat)

  datatype Result<T> = Ok(value: T) | Err(error: Error)

  /** An error is the first that there is: the lines before it leave the machine as the error says. */
  ghost predicate Explains(error: Error, lines: seq<Line>, undefines: set<string>) {
    match error
    case UnsupportedDirective(n) => n < |lines| && lines[n].Unsupported? && Run(START, lines[..n], undefines).Some?
    case ElseWithoutIf(n) => n < |lines| && lines[n].Else? && Accepts(START, lines[..n], undefines)
    case EndifWithoutIf(n) => n < |lines| && lines[n].Endif? && Accepts(START, lines[..n], undefines)
    case Unclosed(count) =>
      count > 0 && Run(START, lines, undefines).Some? && |Run(START, lines, undefines).value.stack| == count
  }

  lemma RunNext(lines: seq<Line>, i: nat, undefines: set<string>)
    requires i < |lines| && Run(START, lines[..i], undefines).Some?
    ensures Run(START, lines[..i + 1], undefines) == Step(Run(START, lines[..i], undefines).value, lines[i], undefines)
    ensures Run(START, lines[..i + 1], undefines) == None ==> Run(START, lines, undefines) == None
  {
    assert lines[..i + 1] == lines[..i] + [lines[i]];
    RunAppend(START, lines[..i], [lines[i]], undefines);
    assert lines == lines[..i + 1] + lines[i + 1..];
    RunAppend(START, lines[..i + 1], lines[i + 1..], undefines);
  }

  /** The lines kept are the meaning of the conditionals that the lines spell, and there is an error exactly if they
      spell none. */
  method CppLines(lines: seq<string>, undefines: set<string>) returns (r: Result<seq<string>>)
    ensures r.Ok? <==> exists block :: Flatten(block) == ClassifyAll(lines)
    ensures r.Ok? ==> forall block :: Flatten(block) == ClassifyAll(lines) ==> r.value == Eval(block, undefines)
    ensures r.Err? ==> Explains(r.error, ClassifyAll(lines), undefines)
  {
    ghost var all := ClassifyAll(lines);
    AcceptsIffNested(all, undefines);
    var kept: seq<string>, stack: seq<bool>, n := [], [], 0;
    while n < |lines|
      invariant 0 <= n <= |lines|
      invariant Run(START, all[..n], undefines) == Some(State(kept, stack))
    {
      RunNext(all, n, undefines);
      match Classify(lines[n]) {
      case Unsupported =>
        return Err(UnsupportedDirective(n));
      case If(guard) =>
        stack := stack + [if guard.negated then guard.macro in undefines else guard.macro !in undefines];
      case Else =>
        if stack == [] {
          return Err(ElseWithoutIf(n));
        }
        stack := stack[|stack| - 1 := !stack[|stack| - 1]];
      case Endif =>
        if stack == [] {
          return Err(EndifWithoutIf(n));
        }
        stack := stack[..|stack| - 1];
      case Text(text) =>
        if All(stack) {
          kept := kept + [text];
        }
      }
      n := n + 1;
    }
    assert all[..n] == all;
    if stack != [] {
      return Err(Unclosed(|stack|));
    }
    forall block | Flatten(block) == all
      ensures kept == Eval(block, undefines)
    {
      RunBlock(START, block, undefines);
    }
    return Ok(kept);
  }

  /** A directive at the line's beginning, with no blank after the '#'. */
  lemma ClassifyAtOnce(line: string, keyword: string, tail: string, gap: string, macro: string, more: string)
    requires line == ['#'] + (keyword + tail) && WordChars(keyword) && !Begins(keyword + tail, IsSpace)
    requires IsTail(tail, gap, macro, more)
    ensures keyword == "ifdef" ==> Classify(line) == If(Guard(false, macro))
    ensures keyword == "ifndef" ==> Classify(line) == If(Guard(true, macro))
    ensures keyword == "else" ==> Classify(line) == Else
    ensures keyword == "endif" ==> Classify(line) == Endif
  {
    ClassifyDirective([], [], keyword, tail, gap, macro, more);
    assert [] + (keyword + tail) == keyword + tail;
    assert [] + line == line;
  }

  lemma MacroIsTail(macro: string)
    requires macro != [] && WordChars(macro)
    ensures IsTail(" " + macro, " ", macro, [])
  {
    assert macro + [] == macro;
  }

  lemma ClassifyIfdef(macro: string)
    requires macro != [] && WordChars(macro)
    ensures Classify("#ifdef " + macro) == If(Guard(false, macro))
  {
    MacroIsTail(macro);
    var line, keyword := "#ifdef " + macro, "ifdef";
    assert line == ['#'] + (keyword + (" " + macro));
    ClassifyAtOnce(line, keyword, " " + macro, " ", macro, []);
  }

  lemma ClassifyIfndef(macro: string)
    requires macro != [] && WordChars(macro)
    ensures Classify("#ifndef " + macro) == If(Guard(true, macro))
  {
    MacroIsTail(macro);
    var line, keyword := "#ifndef " + macro, "ifndef";
    assert line == ['#'] + (keyword + (" " + macro));
    ClassifyAtOnce(line, keyword, " " + macro, " ", macro, []);
  }

  lemma ClassifyElse()
    ensures Classify("#else") == Else
  {
    var line, keyword := "#else", "else";
    assert line == ['#'] + (keyword + []);
    ClassifyAtOnce(line, keyword, [], [], [], []);
  }

  lemma ClassifyEndif()
    ensures Classify("#endif") == Endif
  {
    var line, keyword := "#endif", "endif";
    assert line == ['#'] + (keyword + []);
    ClassifyAtOnce(line, keyword, [], [], [], []);
  }

  lemma FlattenSimple(guard: Guard, a: string, b: string)
    ensures var block := Conditional(guard, Then(Plain(a, Empty), Last(Plain(b, Empty))), Empty);
            Flatten(block) == [If(guard), Text(a), Else, Text(b), Endif]
  {
    assert Flatten(Plain(a, Empty)) == [Text(a)] && Flatten(Plain(b, Empty)) == [Text(b)];
    assert FlattenBranches(Last(Plain(b, Empty))) == [Text(b), Endif];
    assert FlattenBranches(Then(Plain(a, Empty), Last(Plain(b, Empty)))) == [Text(a), Else, Text(b), Endif];
  }

  /** A line that is text by itself. */
  predicate IsText(line: string) {
    line != [] && line[0] != '#' && line[0] != ' ' && line[0] != '\t' && line[0] != '\r'
  }

  lemma FiveLines(opening: string, guard: Guard, a: string, middle: string, b: string, end: string, undefines: set<string>)
    returns (block: Block)
    requires Classify(opening) == If(guard) && Classify(a) == Text(a) && Classify(middle) == Else
    requires Classify(b) == Text(b) && Classify(end) == Endif
    ensures Flatten(block) == ClassifyAll([opening, a, middle, b, end])
    ensures Eval(block, undefines) == if guard.Holds(undefines) then [a] else [b]
  {
    FlattenSimple(guard, a, b);
    block := Conditional(guard, Then(Plain(a, Empty), Last(Plain(b, Empty))), Empty);
    assert Eval(Empty, undefines) == [];
    assert Eval(Plain(a, Empty), undefines) == [a] && Eval(Plain(b, Empty), undefines) == [b];
    assert EvalBranches(Last(Plain(b, Empty)), guard.Flip(), undefines) == KeptIf(guard.Flip().Holds(undefines), [b]);
  }

  /** The shortest file with both branches of a conditional, and what is kept of it: of #ifdef, the first branch unless
      the macro is undefined; of #ifndef, the other way round. */
  lemma ConditionalKeeps(macro: string, a: string, b: string, undefines: set<string>) returns (ifdef: Block, ifndef: Block)
    requires macro != [] && WordChars(macro) && IsText(a) && IsText(b)
    ensures Flatten(ifdef) == ClassifyAll(["#ifdef " + macro, a, "#else", b, "#endif"])
    ensures Flatten(ifndef) == ClassifyAll(["#ifndef " + macro, a, "#else", b, "#endif"])
    ensures Eval(ifdef, undefines) == if macro in undefines then [b] else [a]
    ensures Eval(ifndef, undefines) == if macro in undefines then [a] else [b]
  {
    ClassifyIfdef(macro);
    ClassifyIfndef(macro);
    ClassifyElse();
    ClassifyEndif();
    TextIsText(a);
    TextIsText(b);
    ifdef := FiveLines("#ifdef " + macro, Guard(false, macro), a, "#else", b, "#endif", undefines);
    ifndef := FiveLines("#ifndef " + macro, Guard(true, macro), a, "#else", b, "#endif", undefines);
  }

  lemma TextIsText(line: string)
    requires IsText(line)
    ensures Classify(line) == Text(line)
  {
    ClassifyText([], line);
    assert [] + line == line;
  }

  // ----- two passes

  /** A line of text and the guards it stands under, outermost first, each as it is in the line's own branch. */
  datatype Guarded = Guarded(text: string, guards: seq<Guard>)

  function Annotate(block: Block, around: seq<Guard>): seq<Guarded> {
    match block
    case Empty => []
    case Plain(text, rest) => [Guarded(text, around)] + Annotate(rest, around)
    case Conditional(guard, branches, rest) => AnnotateBranches(branches, guard, around) + Annotate(rest, around)
  }

  function AnnotateBranches(branches: Branches, guard: Guard, around: seq<Guard>): seq<Guarded> {
    match branches
    case Last(body) => Annotate(body, around + [guard])
    case Then(body, more) => Annotate(body, around + [guard]) + AnnotateBranches(more, guard.Flip(), around)
  }

  predicate AllHold(guards: seq<Guard>, undefines: set<string>) {
    forall i :: 0 <= i < |guards| ==> guards[i].Holds(undefines)
  }

  function Select(lines: seq<Guarded>, undefines: set<string>): seq<string> {
    if lines == [] then []
    else KeptIf(AllHold(lines[0].guards, undefines), [lines[0].text]) + Select(lines[1..], undefines)
  }

  lemma {:induction false} SelectAppend(a: seq<Guarded>, b: seq<Guarded>, undefines: set<string>)
    ensures Select(a + b, undefines) == Select(a, undefines) + Select(b, undefines)
  {
    if a == [] {
      assert a + b == b;
    } else {
      assert (a + b)[1..] == a[1..] + b;
      SelectAppend(a[1..], b, undefines);
    }
  }

  lemma HoldPush(around: seq<Guard>, guard: Guard, undefines: set<string>)
    ensures AllHold(around + [guard], undefines) <==> AllHold(around, undefines) && guard.Holds(undefines)
  {
    assert guard == (around + [guard])[|around|];
    assert forall i :: 0 <= i < |around| ==> around[i] == (around + [guard])[i];
  }

  /** The meaning of a block, line by line: a line is kept exactly if all guards it stands under hold. */
  lemma {:induction false} EvalIsSelect(block: Block, around: seq<Guard>, undefines: set<string>)
    ensures Select(Annotate(block, around), undefines) == KeptIf(AllHold(around, undefines), Eval(block, undefines))
  {
    match block
    case Empty =>
    case Plain(text, rest) =>
      assert Annotate(block, around)[1..] == Annotate(rest, around);
      EvalIsSelect(rest, around, undefines);
    case Conditional(guard, branches, rest) =>
      SelectAppend(AnnotateBranches(branches, guard, around), Annotate(rest, around), undefines);
      EvalIsSelectBranches(branches, guard, around, undefines);
      EvalIsSelect(rest, around, undefines);
  }

  lemma {:induction false} EvalIsSelectBranches(branches: Branches, guard: Guard, around: seq<Guard>, undefines: set<string>)
    ensures Select(AnnotateBranches(branches, guard, around), undefines)
         == KeptIf(AllHold(around, undefines), EvalBranches(branches, guard, undefines))
  {
    HoldPush(around, guard, undefines);
    EvalIsSelect(branches.body, around + [guard], undefines);
    if branches.Then? {
      SelectAppend(Annotate(branches.body, around + [guard]), AnnotateBranches(branches.more, guard.Flip(), around), undefines);
      EvalIsSelectBranches(branches.more, guard.Flip(), around, undefines);
    }
  }

  ghost predicate Under(line: Guarded, macro: string) {
    exists i :: 0 <= i < |line.guards| && line.guards[i].macro == macro
  }

  ghost predicate OthersHold(line: Guarded, macro: string, undefines: set<string>) {
    forall i :: 0 <= i < |line.guards| && line.guards[i].macro != macro ==> line.guards[i].Holds(undefines)
  }

  ghost predicate OneSense(line: Guarded, macro: string) {
    forall i, j :: 0 <= i < j < |line.guards| && line.guards[i].macro == macro && line.guards[j].macro == macro ==>
                     line.guards[i].negated == line.guards[j].negated
  }

  /** Of two passes that differ in one macro, a line is kept in exactly one if and only if it stands under that macro,
      never in both senses, and its other guards hold. Under the macro it is never kept in both; under none it is kept
      in both or in neither. */
  lemma KeptInExactlyOnePass(line: Guarded, macro: string, undefines: set<string>)
    requires macro !in undefines
    ensures var first, second := AllHold(line.guards, undefines), AllHold(line.guards, undefines + {macro});
            && (first != second <==> Under(line, macro) && OneSense(line, macro) && OthersHold(line, macro, undefines))
            && (Under(line, macro) ==> !(first && second))
            && (!Under(line, macro) ==> first == second)
  {
  }

  /** Both passes over one file, line by line. */
  lemma TwoPasses(block: Block, macro: string, undefines: set<string>)
    requires macro !in undefines
    ensures Eval(block, undefines) == Select(Annotate(block, []), undefines)
    ensures Eval(block, undefines + {macro}) == Select(Annotate(block, []), undefines + {macro})
    ensures forall k :: 0 <= k < |Annotate(block, [])| ==>
              var line := Annotate(block, [])[k];
              AllHold(line.guards, undefines) != AllHold(line.guards, undefines + {macro}) <==>
              Under(line, macro) && OneSense(line, macro) && OthersHold(line, macro, undefines)
  {
    EvalIsSelect(block, [], undefines);
    EvalIsSelect(block, [], undefines + {macro});
    forall k | 0 <= k < |Annotate(block, [])|
      ensures var line := Annotate(block, [])[k];
              AllHold(line.guards, undefines) != AllHold(line.guards, undefines + {macro}) <==>
              Under(line, macro) && OneSense(line, macro) && OthersHold(line, macro, undefines)
    {
      KeptInExactlyOnePass(Annotate(block, [])[k], macro, undefines);
    }
  }
}
