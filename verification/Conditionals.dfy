/** Conditional compilation: the line-driven stack machine and the nested tree it stands for
    (section 19.4 of IEEE 1364-2005). Lines arrive classified; macro expansion is a parameter. */
module Conditionals {
  datatype Macro = Simple(body: string) | WithParams(params: seq<string>, body: string)
  type Defines = map<string, Macro>
  type Expander = (string, Defines) -> string

  /** A source line without continuation, include or multi-line macro call. A name is the rest of the line,
      stripped; it is empty when nothing follows the directive. */
  datatype Line =
    | Text(text: string)
    | Define(name: string, macro: Macro)
    | MalformedDefine
    | Undef(name: string)
    | Ignored                       // `timescale, `resetall, `celldefine, ...
    | Ifdef(name: string)
    | Ifndef(name: string)
    | Elsif(name: string)
    | Else
    | Endif

  datatype Error = EndifWithoutIf | ElseWithoutIf | DuplicateElse | ElsifWithoutIf | ElsifAfterElse
                 | MissingName | InvalidDefine

  datatype Outcome =
    | Done(output: seq<string>, defines: Defines)
    | Failed(error: Error, lineno: nat, defines: Defines)
    | Unterminated(levels: nat, defines: Defines)

  datatype Level = Level(active: bool, seenTrue: bool, inElse: bool)

  predicate AllActive(stack: seq<Level>) {
    forall i :: 0 <= i < |stack| ==> stack[i].active
  }

  predicate ParentActive(stack: seq<Level>)
    requires stack != []
  {
    AllActive(stack[..|stack| - 1])
  }

  // ---------------------------------------------------------------- the machine

  datatype Step = Next(stack: seq<Level>, defines: Defines, output: string) | Error(error: Error)

  function StepLine(expand: Expander, line: Line, stack: seq<Level>, d: Defines): Step {
    match line
    case Endif =>
      if stack == [] then Error(EndifWithoutIf) else Next(stack[..|stack| - 1], d, "")
    case Else =>
      if stack == [] then Error(ElseWithoutIf)
      else if stack[|stack| - 1].inElse then Error(DuplicateElse)
      else
        var seen := stack[|stack| - 1].seenTrue;
        var active := ParentActive(stack) && !seen;
        Next(stack[|stack| - 1 := Level(active, seen || active, true)], d, "")
    case Elsif(name) =>
      if stack == [] then Error(ElsifWithoutIf)
      else if stack[|stack| - 1].inElse then Error(ElsifAfterElse)
      else if name == "" then Error(MissingName)
      else
        var seen := stack[|stack| - 1].seenTrue;
        var active := ParentActive(stack) && !seen && name in d;
        Next(stack[|stack| - 1 := Level(active, seen || active, false)], d, "")
    case Ifdef(name) =>
      if name == "" then Error(MissingName)
      else var active := AllActive(stack) && name in d; Next(stack + [Level(active, active, false)], d, "")
    case Ifndef(name) =>
      if name == "" then Error(MissingName)
      else var active := AllActive(stack) && name !in d; Next(stack + [Level(active, active, false)], d, "")
    case _ =>
      if !AllActive(stack) then Next(stack, d, "") else
      match PlainEffect(expand, line, d)
      case Ok(d', out) => Next(stack, d', out)
      case Bad(e) => Error(e)
  }

  datatype Effect = Ok(defines: Defines, output: string) | Bad(error: Error)

  /** An active line that is not a conditional. */
  function PlainEffect(expand: Expander, line: Line, d: Defines): Effect {
    match line
    case Text(s) => Ok(d, expand(s, d))
    case Define(name, macro) => Ok(d[name := macro], "")
    case MalformedDefine => Bad(InvalidDefine)
    case Undef(name) => if name == "" then Bad(MissingName) else Ok(d - {name}, "")
    case _ => Ok(d, "")
  }

  /** An outcome seen from earlier in the source, after the given lines of output. */
  function After(before: seq<string>, r: Outcome): Outcome {
    match r
    case Done(out, d) => Done(before + out, d)
    case Failed(e, n, d) => Failed(e, |before| + n, d)
    case Unterminated(_, _) => r
  }

  function RunLines(expand: Expander, lines: seq<Line>, stack: seq<Level>, d: Defines): Outcome {
    if lines == [] then
      if stack == [] then Done([], d) else Unterminated(|stack|, d)
    else
      var step := StepLine(expand, lines[0], stack, d);
      if step.Error? then Failed(step.error, 1, d)
      else After([step.output], RunLines(expand, lines[1..], step.stack, step.defines))
  }

  class PreprocessContext {
    var defines: Defines

    constructor (defines: Defines)
      ensures this.defines == defines
    {
      this.defines := defines;
    }

    method ProcessSource(expand: Expander, lines: seq<Line>) returns (r: Outcome)
      modifies this
      ensures r == RunLines(expand, lines, [], old(defines)) && defines == r.defines
    {
      var condStack: seq<Level> := [];
      var outputLines: seq<string> := [];
      var i := 0;
      while i < |lines|
        invariant 0 <= i <= |lines| && |outputLines| == i
        invariant RunLines(expand, lines, [], old(defines))
               == After(outputLines, RunLines(expand, lines[i..], condStack, defines))
      {
        OneLineOn(expand, lines[i..], condStack, defines, outputLines);
        assert lines[i..][1..] == lines[i + 1..];
        var step := ProcessLine(expand, lines[i], condStack);
        if step.Error? { return Failed(step.error, i + 1, defines); }
        condStack := step.stack;
        outputLines := outputLines + [step.output];
        i := i + 1;
      }
      r := if condStack == [] then Done(outputLines, defines) else Unterminated(|condStack|, defines);
    }

    /** One turn of the loop: the new stack and the line put out, or the error raised. */
    method ProcessLine(expand: Expander, line: Line, condStack: seq<Level>) returns (r: Step)
      modifies this
      ensures r == StepLine(expand, line, condStack, old(defines))
      ensures defines == if r.Next? then r.defines else old(defines)
    {
      var output := "";
      if line.Endif? {
        if condStack == [] { return Step.Error(EndifWithoutIf); }
        return Next(condStack[..|condStack| - 1], defines, "");
      }
      if line.Else? {
        if condStack == [] { return Step.Error(ElseWithoutIf); }
        var top := condStack[|condStack| - 1];
        if top.inElse { return Step.Error(DuplicateElse); }
        var newActive := ParentActive(condStack) && !top.seenTrue;
        return Next(condStack[|condStack| - 1 := Level(newActive, top.seenTrue || newActive, true)], defines, "");
      }
      if line.Elsif? {
        if condStack == [] { return Step.Error(ElsifWithoutIf); }
        var top := condStack[|condStack| - 1];
        if top.inElse { return Step.Error(ElsifAfterElse); }
        if line.name == "" { return Step.Error(MissingName); }
        var newActive := ParentActive(condStack) && !top.seenTrue && line.name in defines;
        return Next(condStack[|condStack| - 1 := Level(newActive, top.seenTrue || newActive, false)], defines, "");
      }
      if line.Ifdef? || line.Ifndef? {
        if line.name == "" { return Step.Error(MissingName); }
        var condition := if line.Ifdef? then line.name in defines else line.name !in defines;
        var active := AllActive(condStack) && condition;
        return Next(condStack + [Level(active, active, false)], defines, "");
      }
      if AllActive(condStack) {
        if line.Define? {
          defines := defines[line.name := line.macro];
        } else if line.MalformedDefine? {
          return Step.Error(InvalidDefine);
        } else if line.Undef? {
          if line.name == "" { return Step.Error(MissingName); }
          defines := defines - {line.name};
        } else if line.Text? {
          output := expand(line.text, defines);
        }
      }
      r := Next(condStack, defines, output);
    }
  }

  lemma OneLineOn(expand: Expander, lines: seq<Line>, stack: seq<Level>, d: Defines, before: seq<string>)
    requires lines != []
    ensures var step := StepLine(expand, lines[0], stack, d);
            After(before, RunLines(expand, lines, stack, d))
            == if step.Error? then Failed(step.error, |before| + 1, d)
               else After(before + [step.output], RunLines(expand, lines[1..], step.stack, step.defines))
  {
    var step := StepLine(expand, lines[0], stack, d);
    if step.Next? {
      AfterAfter(before, [step.output], RunLines(expand, lines[1..], step.stack, step.defines));
    }
  }

  lemma AfterAfter(a: seq<string>, b: seq<string>, r: Outcome)
    ensures After(a, After(b, r)) == After(a + b, r)
  {
    if r.Done? { assert a + (b + r.output) == (a + b) + r.output; }
  }

  // ---------------------------------------------------------------- what lines do to macros and output

  predicate Holds(d: Defines, name: string, m: Macro) { name in d && d[name] == m }

  /** A line that defines or undefines a name. */
  predicate Settles(line: Line, name: string) {
    (line.Define? && line.name == name) || (line.Undef? && line.name == name)
  }

  /** The last of the first n lines that settles a name, or -1. */
  ghost predicate LastSettling(lines: seq<Line>, n: nat, name: string, k: int)
    requires n <= |lines|
  {
    && -1 <= k < n
    && (k >= 0 ==> Settles(lines[k], name))
    && forall j :: k < j < n ==> !Settles(lines[j], name)
  }

  /** After the first n lines a name has the body m: the last line that settles it defines it so, or no line settles
      it and it had that body before. */
  ghost predicate InForce(lines: seq<Line>, n: nat, d: Defines, name: string, m: Macro)
    requires n <= |lines|
  {
    exists k :: LastSettling(lines, n, name, k)
             && if k < 0 then Holds(d, name, m) else lines[k] == Define(name, m)
  }

  /** The macros hold a name with a body exactly when it is in force after the first n lines. */
  ghost predicate AreInForce(after: Defines, lines: seq<Line>, n: nat, d: Defines)
    requires n <= |lines|
  {
    forall name, m :: Holds(after, name, m) <==> InForce(lines, n, d, name, m)
  }

  /** A plain line that is neither a malformed define nor an undef without a name. */
  predicate Sound(line: Line) { line.Text? || line.Define? || (line.Undef? && line.name != "") || line.Ignored? }

  lemma SameLast(lines: seq<Line>, n: nat, name: string, j: int, k: int)
    requires n <= |lines| && LastSettling(lines, n, name, j) && LastSettling(lines, n, name, k)
    ensures j == k
  {
  }

  lemma {:induction false} SomeLast(lines: seq<Line>, n: nat, name: string) returns (k: int)
    requires n <= |lines|
    ensures LastSettling(lines, n, name, k)
  {
    if n == 0 {
      k := -1;
    } else if Settles(lines[n - 1], name) {
      k := n - 1;
    } else {
      k := SomeLast(lines, n - 1, name);
    }
  }

  lemma NothingInForceYet(lines: seq<Line>, d: Defines)
    ensures AreInForce(d, lines, 0, d)
  {
    forall name, m ensures Holds(d, name, m) <==> InForce(lines, 0, d, name, m) {
      assert LastSettling(lines, 0, name, -1);
    }
  }

  lemma OneNameMore(lines: seq<Line>, n: nat, d: Defines, name: string, m: Macro)
    requires n < |lines|
    ensures InForce(lines, n + 1, d, name, m)
       <==> if Settles(lines[n], name) then lines[n] == Define(name, m) else InForce(lines, n, d, name, m)
  {
    var last := SomeLast(lines, n, name);
    var next, more := if Settles(lines[n], name) then n else last, n + 1;
    assert LastSettling(lines, more, name, next);
    forall k | LastSettling(lines, more, name, k) ensures k == next { SameLast(lines, more, name, k, next); }
    forall k | LastSettling(lines, n, name, k) ensures k == last { SameLast(lines, n, name, k, last); }
  }

  lemma OneMoreInForce(lines: seq<Line>, n: nat, d: Defines, now: Defines, after: Defines)
    requires n < |lines| && AreInForce(now, lines, n, d)
    requires forall name, m :: Holds(after, name, m)
               <==> if Settles(lines[n], name) then lines[n] == Define(name, m) else Holds(now, name, m)
    ensures AreInForce(after, lines, n + 1, d)
  {
    forall name, m ensures Holds(after, name, m) <==> InForce(lines, n + 1, d, name, m) {
      OneNameMore(lines, n, d, name, m);
      assert Holds(now, name, m) <==> InForce(lines, n, d, name, m);
    }
  }

  /** What is put out for line i: a text line's expansion under the macros in force before it, and otherwise a blank. */
  ghost predicate PutsOut(expand: Expander, lines: seq<Line>, i: nat, d: Defines, out: string)
    requires i < |lines|
  {
    if lines[i].Text? then exists now :: AreInForce(now, lines, i, d) && out == expand(lines[i].text, now)
    else out == ""
  }

  lemma OneActiveLine(expand: Expander, lines: seq<Line>, n: nat, stack: seq<Level>, d: Defines, now: Defines)
    returns (out: string, after: Defines)
    requires n < |lines| && Sound(lines[n]) && AllActive(stack) && AreInForce(now, lines, n, d)
    ensures StepLine(expand, lines[n], stack, now) == Next(stack, after, out)
    ensures AreInForce(after, lines, n + 1, d) && PutsOut(expand, lines, n, d, out)
  {
    var step := StepLine(expand, lines[n], stack, now);
    out, after := step.output, step.defines;
    OneMoreInForce(lines, n, d, now, after);
  }

  /** Over every run of sound plain lines in an active place, whatever follows: a name is a macro afterwards just as the
      last line that settles it says, and each line puts out what it should. */
  lemma {:induction false} ActiveLines(expand: Expander, lines: seq<Line>, n: nat, more: seq<Line>, stack: seq<Level>,
                                       d: Defines)
    returns (out: seq<string>, after: Defines)
    requires n <= |lines| && AllActive(stack) && forall i :: 0 <= i < n ==> Sound(lines[i])
    ensures |out| == n && AreInForce(after, lines, n, d)
    ensures forall i :: 0 <= i < n ==> PutsOut(expand, lines, i, d, out[i])
    ensures RunLines(expand, lines[..n] + more, stack, d) == After(out, RunLines(expand, more, stack, after))
    decreases n
  {
    if n == 0 {
      out, after := [], d;
      NothingInForceYet(lines, d);
      assert lines[..0] + more == more;
      NothingBefore(RunLines(expand, more, stack, d));
    } else {
      var rest := [lines[n - 1]] + more;
      var before, now := ActiveLines(expand, lines, n - 1, rest, stack, d);
      var last;
      last, after := OneActiveLine(expand, lines, n - 1, stack, d, now);
      out := before + [last];
      assert lines[..n - 1] + rest == lines[..n] + more;
      assert rest[1..] == more;
      AfterAfter(before, [last], RunLines(expand, more, stack, after));
    }
  }

  lemma NothingBefore(r: Outcome)
    ensures After([], r) == r
  {
    if r.Done? { assert [] + r.output == r.output; }
  }

  /** The first unsound plain line in an active place ends the run with its error; the macros are those in force
      then. */
  lemma UnsoundLineFails(expand: Expander, lines: seq<Line>, n: nat, more: seq<Line>, stack: seq<Level>, d: Defines)
    returns (now: Defines)
    requires n < |lines| && AllActive(stack) && (forall i :: 0 <= i < n ==> Sound(lines[i]))
    requires lines[n] == MalformedDefine || lines[n] == Undef("")
    ensures AreInForce(now, lines, n, d)
    ensures RunLines(expand, lines[..n + 1] + more, stack, d)
         == Failed(if lines[n] == MalformedDefine then InvalidDefine else MissingName, n + 1, now)
  {
    var rest := [lines[n]] + more;
    var out;
    out, now := ActiveLines(expand, lines, n, rest, stack, d);
    assert lines[..n] + rest == lines[..n + 1] + more;
  }

  /** In an inactive place plain lines of any kind are blank and change no macro. */
  lemma {:induction false} InactiveLines(expand: Expander, lines: seq<Line>, more: seq<Line>, stack: seq<Level>,
                                         d: Defines)
    requires !AllActive(stack)
    requires forall i :: 0 <= i < |lines| ==> Sound(lines[i]) || lines[i].Undef? || lines[i].MalformedDefine?
    ensures RunLines(expand, lines + more, stack, d)
         == After(seq(|lines|, _ => ""), RunLines(expand, more, stack, d))
  {
    if lines == [] {
      assert lines + more == more && seq(0, _ => "") == [];
      NothingBefore(RunLines(expand, more, stack, d));
    } else {
      assert (lines + more)[1..] == lines[1..] + more;
      InactiveLines(expand, lines[1..], more, stack, d);
      assert [""] + seq(|lines| - 1, _ => "") == seq(|lines|, _ => "");
      AfterAfter([""], seq(|lines| - 1, _ => ""), RunLines(expand, more, stack, d));
    }
  }

  /** The lines that are refused wherever they stand, and where: endif, else and elsif outside every group, else and
      elsif after an else, conditionals without a name. */
  lemma ConditionalRefusedExactly(expand: Expander, line: Line, stack: seq<Level>, d: Defines, e: Error)
    requires !(Sound(line) || line.Undef? || line.MalformedDefine?)
    ensures StepLine(expand, line, stack, d) == Step.Error(e)
       <==> || (line == Endif && |stack| == 0 && e == EndifWithoutIf)
            || (line == Else && |stack| == 0 && e == ElseWithoutIf)
            || (line == Else && |stack| > 0 && stack[|stack| - 1].inElse && e == DuplicateElse)
            || (line.Elsif? && |stack| == 0 && e == ElsifWithoutIf)
            || (line.Elsif? && |stack| > 0 && stack[|stack| - 1].inElse && e == ElsifAfterElse)
            || (line == Elsif("") && |stack| > 0 && !stack[|stack| - 1].inElse && e == MissingName)
            || ((line == Ifdef("") || line == Ifndef("")) && e == MissingName)
  {
  }

  // ---------------------------------------------------------------- the nested tree

  /** A run of plain lines and complete if-groups; a group's tail is its elsif and else branches and endif. */
  datatype Block =
    | Nothing
    | Plain(line: Line, rest: Block)
    | Group(negated: bool, name: string, body: Block, tail: Tail, rest: Block)

  datatype Tail = EndHere | ElsifPart(name: string, body: Block, tail: Tail) | ElsePart(body: Block)

  predicate IsPlain(line: Line) { !(line.Ifdef? || line.Ifndef? || line.Elsif? || line.Else? || line.Endif?) }

  predicate WellNamed(b: Block) {
    match b
    case Nothing => true
    case Plain(line, rest) => IsPlain(line) && WellNamed(rest)
    case Group(_, name, body, tail, rest) => name != "" && WellNamed(body) && WellNamedTail(tail) && WellNamed(rest)
  }

  predicate WellNamedTail(t: Tail) {
    match t
    case EndHere => true
    case ElsifPart(name, body, tail) => name != "" && WellNamed(body) && WellNamedTail(tail)
    case ElsePart(body) => WellNamed(body)
  }

  function Opening(negated: bool, name: string): Line { if negated then Ifndef(name) else Ifdef(name) }

  function Flatten(b: Block): seq<Line> {
    match b
    case Nothing => []
    case Plain(line, rest) => [line] + Flatten(rest)
    case Group(neg, name, body, tail, rest) => [Opening(neg, name)] + Flatten(body) + FlattenTail(tail) + Flatten(rest)
  }

  function FlattenTail(t: Tail): seq<Line> {
    match t
    case EndHere => [Endif]
    case ElsifPart(name, body, tail) => [Line.Elsif(name)] + Flatten(body) + FlattenTail(tail)
    case ElsePart(body) => [Else] + Flatten(body) + [Endif]
  }

  /** The outcome of two parts in a row: the second counts only if the first goes through. */
  function Join(r: Outcome, next: Outcome): Outcome {
    if r.Done? then After(r.output, next) else r
  }

  /** What a block means: in an inactive place every line is blank; in a group the first branch whose condition
      holds, when it is reached, is active. */
  function Meaning(expand: Expander, b: Block, active: bool, d: Defines): Outcome {
    match b
    case Nothing => Done([], d)
    case Plain(line, rest) =>
      var effect := if active then PlainEffect(expand, line, d) else Ok(d, "");
      if effect.Bad? then Failed(effect.error, 1, d)
      else After([effect.output], Meaning(expand, rest, active, effect.defines))
    case Group(neg, name, body, tail, rest) =>
      var taken := active && (name in d) != neg;
      var first := Meaning(expand, body, taken, d);
      var others := MeaningTail(expand, tail, active && !taken, first.defines);
      Join(After([""], first), Join(others, Meaning(expand, rest, active, others.defines)))
  }

  /** open: the group is in an active place and no branch has been taken yet. */
  function MeaningTail(expand: Expander, t: Tail, open: bool, d: Defines): Outcome {
    match t
    case EndHere => Done([""], d)
    case ElsifPart(name, body, tail) =>
      var taken := open && name in d;
      var first := Meaning(expand, body, taken, d);
      Join(After([""], first), MeaningTail(expand, tail, open && !taken, first.defines))
    case ElsePart(body) =>
      var first := Meaning(expand, body, open, d);
      Join(After([""], first), Done([""], first.defines))
  }

  // ---------------------------------------------------------------- machine on a flattened tree

  /** Active at a level means taken there, and active at every level outside it. */
  predicate Consistent(stack: seq<Level>) {
    && (forall i :: 0 <= i < |stack| && stack[i].active ==> stack[i].seenTrue)
    && (forall i, j :: 0 <= i < j < |stack| && stack[j].active ==> stack[i].active)
  }

  lemma StepKeepsConsistent(expand: Expander, line: Line, stack: seq<Level>, d: Defines)
    requires Consistent(stack) && StepLine(expand, line, stack, d).Next?
    ensures Consistent(StepLine(expand, line, stack, d).stack)
  {
  }

  /** So whether all levels are active can be read off the top entry. */
  lemma AllActiveIsTopActive(stack: seq<Level>)
    requires Consistent(stack) && stack != []
    ensures AllActive(stack) <==> stack[|stack| - 1].active
    ensures ParentActive(stack) <==> |stack| == 1 || stack[|stack| - 2].active
  {
  }

  /** Continuing after an outcome with more lines on some stack. */
  function Continue(expand: Expander, r: Outcome, more: seq<Line>, stack: seq<Level>): Outcome {
    Join(r, RunLines(expand, more, stack, r.defines))
  }

  lemma JoinJoin(a: Outcome, b: Outcome, c: Outcome)
    ensures Join(Join(a, b), c) == Join(a, Join(b, c))
  {
    if a.Done? && b.Done? { AfterAfter(a.output, b.output, c); }
  }

  lemma AfterJoin(out: seq<string>, a: Outcome, b: Outcome)
    ensures After(out, Join(a, b)) == Join(After(out, a), b)
  {
    if a.Done? { AfterAfter(out, a.output, b); }
  }

  /** Continuing after a join continues after its second part. */
  lemma ContinueJoin(expand: Expander, a: Outcome, b: Outcome, more: seq<Line>, stack: seq<Level>)
    ensures Continue(expand, Join(a, b), more, stack) == Join(a, Continue(expand, b, more, stack))
  {
    JoinJoin(a, b, RunLines(expand, more, stack, b.defines));
  }

  lemma RunStep(expand: Expander, line: Line, rest: seq<Line>, stack: seq<Level>, d: Defines)
    ensures var step := StepLine(expand, line, stack, d);
            RunLines(expand, [line] + rest, stack, d)
            == if step.Error? then Failed(step.error, 1, d)
               else After([step.output], RunLines(expand, rest, step.stack, step.defines))
  {
    assert ([line] + rest)[1..] == rest;
  }

  lemma Enter(stack: seq<Level>, level: Level)
    ensures AllActive(stack + [level]) == (AllActive(stack) && level.active)
    ensures ParentActive(stack + [level]) == AllActive(stack)
    ensures (stack + [level])[..|stack|] == stack && (stack + [level])[|stack|] == level
  {
    assert (stack + [level])[..|stack|] == stack;
    assert AllActive(stack) && level.active ==> AllActive(stack + [level]);
    if AllActive(stack + [level]) {
      assert forall i :: 0 <= i < |stack| ==> stack[i] == (stack + [level])[i];
    }
  }

  /** The machine on a block followed by more lines does what the block means, then goes on with the same stack. */
  lemma {:induction false} RunBlock(expand: Expander, b: Block, more: seq<Line>, stack: seq<Level>, d: Defines)
    requires WellNamed(b)
    ensures RunLines(expand, Flatten(b) + more, stack, d)
         == Continue(expand, Meaning(expand, b, AllActive(stack), d), more, stack)
    decreases b
  {
    match b
    case Nothing =>
      assert Flatten(b) + more == more;
    case Plain(line, rest) =>
      assert Flatten(b) + more == [line] + (Flatten(rest) + more);
      RunStep(expand, line, Flatten(rest) + more, stack, d);
      var step := StepLine(expand, line, stack, d);
      if step.Next? {
        RunBlock(expand, rest, more, stack, step.defines);
        var r := Meaning(expand, rest, AllActive(stack), step.defines);
        AfterJoin([step.output], r, RunLines(expand, more, stack, r.defines));
      }
    case Group(_, _, _, _, _) =>
      RunGroup(expand, b, more, stack, d);
  }

  lemma {:induction false} RunGroup(expand: Expander, b: Block, more: seq<Line>, stack: seq<Level>, d: Defines)
    requires WellNamed(b) && b.Group?
    ensures RunLines(expand, Flatten(b) + more, stack, d)
         == Continue(expand, Meaning(expand, b, AllActive(stack), d), more, stack)
    decreases b, 0
  {
    var active := AllActive(stack);
    var taken := active && (b.name in d) != b.negated;
    var inside := stack + [Level(taken, taken, false)];
    var afterTail := Flatten(b.rest) + more;
    var afterBody := FlattenTail(b.tail) + afterTail;
    Enter(stack, Level(taken, taken, false));
    assert Flatten(b) + more == [Opening(b.negated, b.name)] + (Flatten(b.body) + afterBody);
    RunStep(expand, Opening(b.negated, b.name), Flatten(b.body) + afterBody, stack, d);
    var first := Meaning(expand, b.body, taken, d);
    var others := MeaningTail(expand, b.tail, active && !taken, first.defines);
    var last := Meaning(expand, b.rest, active, others.defines);
    RunBlock(expand, b.body, afterBody, inside, d);
    RunTail(expand, b.tail, afterTail, stack, Level(taken, taken, false), first.defines);
    RunBlock(expand, b.rest, more, stack, others.defines);
    AfterJoin([""], first, Continue(expand, others, afterTail, stack));
    ContinueJoin(expand, others, last, more, stack);
    ContinueJoin(expand, After([""], first), Join(others, last), more, stack);
  }

  /** The same for a tail, with its group's level on top: what is left of the group depends only on whether the
      place is active and a branch has been seen. */
  lemma {:induction false} RunTail(expand: Expander, t: Tail, more: seq<Line>, stack: seq<Level>, level: Level,
                                   d: Defines)
    requires WellNamedTail(t) && !level.inElse
    ensures RunLines(expand, FlattenTail(t) + more, stack + [level], d)
         == Continue(expand, MeaningTail(expand, t, AllActive(stack) && !level.seenTrue, d), more, stack)
    decreases t
  {
    var open := AllActive(stack) && !level.seenTrue;
    Enter(stack, level);
    match t
    case EndHere =>
      assert FlattenTail(t) + more == [Endif] + more;
      EndifStep(expand, more, stack, level, d);
    case ElsifPart(_, _, _) => RunElsif(expand, t, more, stack, level, d);
    case ElsePart(_) => RunElse(expand, t, more, stack, level, d);
  }

  /** A tail's first line replaces its group's level, or removes it. */
  lemma EndifStep(expand: Expander, rest: seq<Line>, stack: seq<Level>, level: Level, d: Defines)
    ensures RunLines(expand, [Endif] + rest, stack + [level], d) == After([""], RunLines(expand, rest, stack, d))
  {
    Enter(stack, level);
    RunStep(expand, Endif, rest, stack + [level], d);
  }

  lemma ElseStep(expand: Expander, rest: seq<Line>, stack: seq<Level>, level: Level, d: Defines)
    requires !level.inElse
    ensures var open := AllActive(stack) && !level.seenTrue;
            RunLines(expand, [Else] + rest, stack + [level], d)
            == After([""], RunLines(expand, rest, stack + [Level(open, level.seenTrue || open, true)], d))
  {
    var open := AllActive(stack) && !level.seenTrue;
    var next := Level(open, level.seenTrue || open, true);
    Enter(stack, level);
    assert (stack + [level])[|stack| := next] == stack + [next];
    RunStep(expand, Else, rest, stack + [level], d);
  }

  lemma ElsifStep(expand: Expander, name: string, rest: seq<Line>, stack: seq<Level>, level: Level, d: Defines)
    requires !level.inElse && name != ""
    ensures var taken := AllActive(stack) && !level.seenTrue && name in d;
            RunLines(expand, [Line.Elsif(name)] + rest, stack + [level], d)
            == After([""], RunLines(expand, rest, stack + [Level(taken, level.seenTrue || taken, false)], d))
  {
    var taken := AllActive(stack) && !level.seenTrue && name in d;
    var next := Level(taken, level.seenTrue || taken, false);
    Enter(stack, level);
    assert (stack + [level])[|stack| := next] == stack + [next];
    RunStep(expand, Line.Elsif(name), rest, stack + [level], d);
  }

  lemma {:induction false} RunElsif(expand: Expander, t: Tail, more: seq<Line>, stack: seq<Level>, level: Level,
                                    d: Defines)
    requires WellNamedTail(t) && !level.inElse && t.ElsifPart?
    ensures RunLines(expand, FlattenTail(t) + more, stack + [level], d)
         == Continue(expand, MeaningTail(expand, t, AllActive(stack) && !level.seenTrue, d), more, stack)
    decreases t, 0
  {
    var open := AllActive(stack) && !level.seenTrue;
    var taken := open && t.name in d;
    var next := Level(taken, level.seenTrue || taken, false);
    var afterBody := FlattenTail(t.tail) + more;
    Enter(stack, next);
    assert FlattenTail(t) + more == [Line.Elsif(t.name)] + (Flatten(t.body) + afterBody);
    ElsifStep(expand, t.name, Flatten(t.body) + afterBody, stack, level, d);
    var first := Meaning(expand, t.body, taken, d);
    var others := MeaningTail(expand, t.tail, open && !taken, first.defines);
    RunBlock(expand, t.body, afterBody, stack + [next], d);
    RunTail(expand, t.tail, more, stack, next, first.defines);
    AfterJoin([""], first, Continue(expand, others, more, stack));
    ContinueJoin(expand, After([""], first), others, more, stack);
  }

  lemma {:induction false} RunElse(expand: Expander, t: Tail, more: seq<Line>, stack: seq<Level>, level: Level,
                                   d: Defines)
    requires WellNamedTail(t) && !level.inElse && t.ElsePart?
    ensures RunLines(expand, FlattenTail(t) + more, stack + [level], d)
         == Continue(expand, MeaningTail(expand, t, AllActive(stack) && !level.seenTrue, d), more, stack)
    decreases t, 0
  {
    var open := AllActive(stack) && !level.seenTrue;
    var next := Level(open, level.seenTrue || open, true);
    Enter(stack, next);
    assert FlattenTail(t) + more == [Else] + (Flatten(t.body) + ([Endif] + more));
    ElseStep(expand, Flatten(t.body) + ([Endif] + more), stack, level, d);
    var first := Meaning(expand, t.body, open, d);
    var last := Done([""], first.defines);
    RunBlock(expand, t.body, [Endif] + more, stack + [next], d);
    EndifStep(expand, more, stack, next, first.defines);
    AfterJoin([""], first, Continue(expand, last, more, stack));
    ContinueJoin(expand, After([""], first), last, more, stack);
  }

  /** The machine on a whole flattened tree is the tree's recursive meaning: same output, same final defines,
      same error on the same line. */
  lemma MachineIsMeaning(expand: Expander, t: Block, d: Defines)
    requires WellNamed(t)
    ensures RunLines(expand, Flatten(t), [], d) == Meaning(expand, t, true, d)
  {
    assert Flatten(t) + [] == Flatten(t);
    RunBlock(expand, t, [], [], d);
    var r := Meaning(expand, t, true, d);
    if r.Done? { assert r.output + [] == r.output; }
  }

  // ---------------------------------------------------------------- every accepted source is a flattened tree

  lemma FirstStep(expand: Expander, lines: seq<Line>, stack: seq<Level>, d: Defines)
    requires lines != [] && RunLines(expand, lines, stack, d).Done?
    ensures var step := StepLine(expand, lines[0], stack, d);
            step.Next? && RunLines(expand, lines[1..], step.stack, step.defines).Done?
    ensures lines == [lines[0]] + lines[1..]
  {
    assert lines == [lines[0]] + lines[1..];
    RunStep(expand, lines[0], lines[1..], stack, d);
  }

  /** What can be read off an accepted run: a block, and inside a group the rest of that group and the lines
      after it, on which the run goes on one level further out. */
  datatype Reading = Reading(block: Block, tail: Tail, rest: seq<Line>, defines: Defines)

  /** The lines after the block: none at the outermost level. */
  function Remainder(stack: seq<Level>, r: Reading): seq<Line> {
    if stack == [] then [] else FlattenTail(r.tail) + r.rest
  }

  ghost predicate Reads(expand: Expander, lines: seq<Line>, stack: seq<Level>, r: Reading) {
    && WellNamed(r.block)
    && lines == Flatten(r.block) + Remainder(stack, r)
    && (stack != [] ==>
          && WellNamedTail(r.tail) && (stack[|stack| - 1].inElse ==> r.tail.EndHere?)
          && RunLines(expand, r.rest, stack[..|stack| - 1], r.defines).Done?)
  }

  lemma {:induction false} ReadBlock(expand: Expander, lines: seq<Line>, stack: seq<Level>, d: Defines)
    returns (r: Reading)
    requires RunLines(expand, lines, stack, d).Done?
    ensures Reads(expand, lines, stack, r)
    decreases |lines|
  {
    if lines == [] {
      r := Reading(Nothing, EndHere, [], d);
    } else {
      FirstStep(expand, lines, stack, d);
      var line, more := lines[0], lines[1..];
      var step := StepLine(expand, line, stack, d);
      if line.Endif? {
        r := Reading(Nothing, EndHere, more, d);
      } else {
        var inner := ReadBlock(expand, more, step.stack, step.defines);
        if line.Else? {
          r := ReadElse(expand, more, stack, step.stack, inner);
        } else if line.Elsif? {
          r := ReadElsif(expand, line.name, more, stack, step.stack, inner);
        } else if line.Ifdef? || line.Ifndef? {
          assert step.stack[..|stack|] == stack;
          assert |inner.rest| < |lines|;
          var next := ReadBlock(expand, inner.rest, stack, inner.defines);
          r := ReadGroup(expand, line, more, stack, step.stack, inner, next);
        } else {
          assert step.stack == stack;
          r := ReadPlain(expand, line, more, stack, inner);
        }
      }
    }
  }

  lemma ReadPlain(expand: Expander, line: Line, more: seq<Line>, stack: seq<Level>, inner: Reading) returns (r: Reading)
    requires IsPlain(line) && Reads(expand, more, stack, inner)
    ensures Reads(expand, [line] + more, stack, r)
  {
    r := inner.(block := Plain(line, inner.block));
    assert [line] + (Flatten(inner.block) + Remainder(stack, inner))
        == ([line] + Flatten(inner.block)) + Remainder(stack, inner);
  }

  lemma ReadElse(expand: Expander, more: seq<Line>, stack: seq<Level>, inside: seq<Level>, inner: Reading)
    returns (r: Reading)
    requires stack != [] && !stack[|stack| - 1].inElse
    requires |inside| == |stack| && inside[..|stack| - 1] == stack[..|stack| - 1] && inside[|stack| - 1].inElse
    requires Reads(expand, more, inside, inner)
    ensures Reads(expand, [Else] + more, stack, r)
  {
    r := Reading(Nothing, ElsePart(inner.block), inner.rest, inner.defines);
    BranchLines(Else, Flatten(inner.block), [Endif], inner.rest);
  }

  lemma ReadElsif(expand: Expander, name: string, more: seq<Line>, stack: seq<Level>, inside: seq<Level>,
                  inner: Reading)
    returns (r: Reading)
    requires stack != [] && !stack[|stack| - 1].inElse && name != ""
    requires |inside| == |stack| && inside[..|stack| - 1] == stack[..|stack| - 1]
    requires Reads(expand, more, inside, inner)
    ensures Reads(expand, [Line.Elsif(name)] + more, stack, r)
  {
    r := Reading(Nothing, ElsifPart(name, inner.block, inner.tail), inner.rest, inner.defines);
    BranchLines(Line.Elsif(name), Flatten(inner.block), FlattenTail(inner.tail), inner.rest);
  }

  lemma BranchLines(line: Line, body: seq<Line>, tail: seq<Line>, rest: seq<Line>)
    ensures [line] + (body + (tail + rest)) == [] + (([line] + body + tail) + rest)
  {
  }

  lemma ReadGroup(expand: Expander, line: Line, more: seq<Line>, stack: seq<Level>, inside: seq<Level>,
                  inner: Reading, next: Reading)
    returns (r: Reading)
    requires (line.Ifdef? || line.Ifndef?) && line.name != "" && inside != []
    requires Reads(expand, more, inside, inner) && Reads(expand, inner.rest, stack, next)
    ensures Reads(expand, [line] + more, stack, r)
  {
    r := next.(block := Group(line.Ifndef?, line.name, inner.block, inner.tail, next.block));
    Regroup(line, Flatten(inner.block), FlattenTail(inner.tail), Flatten(next.block), Remainder(stack, next));
  }

  lemma Regroup(line: Line, body: seq<Line>, tail: seq<Line>, rest: seq<Line>, after: seq<Line>)
    ensures [line] + (body + (tail + (rest + after))) == ([line] + body + tail + rest) + after
  {
  }

  /** A source is accepted exactly when it is the flattening of a tree whose meaning has no error, and every such
      tree gives its output and final defines. */
  lemma AcceptedExactly(expand: Expander, lines: seq<Line>, d: Defines)
    ensures RunLines(expand, lines, [], d).Done?
       <==> exists t :: WellNamed(t) && Flatten(t) == lines && Meaning(expand, t, true, d).Done?
    ensures forall t :: WellNamed(t) && Flatten(t) == lines ==>
              RunLines(expand, lines, [], d) == Meaning(expand, t, true, d)
  {
    forall t | WellNamed(t) && Flatten(t) == lines
      ensures RunLines(expand, lines, [], d) == Meaning(expand, t, true, d)
    {
      MachineIsMeaning(expand, t, d);
    }
    if RunLines(expand, lines, [], d).Done? {
      var r := ReadBlock(expand, lines, [], d);
      assert WellNamed(r.block) && Flatten(r.block) == lines;
      MachineIsMeaning(expand, r.block, d);
    }
  }

  /** Line numbers are preserved: one line out for each line in. */
  lemma {:induction false} OneLineOutPerLineIn(expand: Expander, lines: seq<Line>, stack: seq<Level>, d: Defines)
    requires RunLines(expand, lines, stack, d).Done?
    ensures |RunLines(expand, lines, stack, d).output| == |lines|
  {
    if lines != [] {
      var step := StepLine(expand, lines[0], stack, d);
      OneLineOutPerLineIn(expand, lines[1..], step.stack, step.defines);
    }
  }
}
