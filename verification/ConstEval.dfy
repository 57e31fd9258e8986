/** Evaluating constant expressions, following identifiers to the default values of parameters. */
module ConstEval {
  import opened Numbers
  import opened Options
  import opened ConstOps

  datatype Expr =
    | Literal(value: int, width: Option<nat>, signed: bool)
    | Ident(path: string, name: string, resolved: Option<int>)   // resolved: the parameter it refers to
    | Unary(uop: UnOp, operand: Expr)
    | Binary(bop: BinOp, left: Expr, right: Expr)
    | Ternary(cond: Expr, yes: Expr, no: Expr)
    | Concat(parts: seq<Part>)
    | Replicate(count: Expr, part: Part)
    | RangeSelect(target: Expr, msb: Expr, lsb: Expr)
    | PartSelect(target: Expr, base: Expr, size: Expr, up: bool)
    | WidthCast(size: Expr, operand: Expr)
    | Mintypmax(operand: Expr)
    | SignCall(operand: Expr)                // $signed, $unsigned
    | Clog2Call(operand: Expr)
    | PowCall(left: Expr, right: Expr)       // $pow
    | BitsCall(part: Part)                   // $bits
    | NotConstant                            // strings, bit selects, other calls

  /** An operand whose width matters, with the width recorded on it, if any. */
  datatype Part = Part(expr: Expr, recorded: Option<int>)

  datatype Error = UnknownIdentifier | Circular | NoAnswer | NoWidth | NegativeShift
  datatype Result = Value(value: int) | Fail(error: Error)

  /** Parameters by identity with their default values, and the values known by name. */
  datatype World = World(params: map<int, Option<Expr>>, env: map<string, int>)

  /** What stops the evaluation from following parameters for ever: the set of those being resolved, or a bound
      on how many may be nested. Either reports Circular. */
  datatype Limit = Guard(resolving: set<int>) | Depth(left: nat)

  function Rank(w: World, l: Limit): nat {
    match l
    case Guard(resolving) => |w.params.Keys - resolving|
    case Depth(n) => n
  }

  predicate Stops(l: Limit, p: int) { if l.Guard? then p in l.resolving else l.left == 0 }

  function Under(w: World, l: Limit, p: int): (l': Limit)
    requires p in w.params && !Stops(l, p)
    ensures Rank(w, l') < Rank(w, l)
  {
    match l
    case Guard(resolving) =>
      assert w.params.Keys - (resolving + {p}) < w.params.Keys - resolving by {
        assert p in w.params.Keys - resolving;
      }
      Smaller(w.params.Keys - (resolving + {p}), w.params.Keys - resolving);
      Guard(resolving + {p})
    case Depth(n) => Depth(n - 1)
  }

  lemma {:induction false} Smaller(a: set<int>, b: set<int>)
    requires a < b
    ensures |a| < |b|
  {
    var extra := b - a;
    assert b == a + extra && |a + extra| == |a| + |extra|;
  }

  /** The recorded width, a sized literal's own, or the sum over a concatenation's parts. */
  function PartWidth(part: Part): Option<int> {
    if part.recorded.Some? then part.recorded else
    match part.expr
    case Literal(_, width, _) => if width.Some? then Some(width.value) else None
    case Concat(parts) => PartWidths(parts)
    case _ => None
  }

  function PartWidths(parts: seq<Part>): Option<int> {
    if parts == [] then Some(0) else
    var first, rest := PartWidth(parts[0]), PartWidths(parts[1..]);
    if first.Some? && rest.Some? then Some(first.value + rest.value) else None
  }

  /** $bits: a recorded width, or what the environment says under the name. */
  function BitsAnswer(part: Part, env: map<string, int>): Result {
    if part.recorded.Some? then Value(part.recorded.value)
    else if part.expr.Ident? && "$bits:" + part.expr.name in env then Value(env["$bits:" + part.expr.name])
    else Fail(NoWidth)
  }

  function Answer(r: Option<int>): Result { if r.Some? then Value(r.value) else Fail(NoAnswer) }

  /** A sized signed literal's pattern stands for its two's complement value. */
  function LiteralValue(v: int, width: Option<nat>, signed: bool): int {
    if signed && width.Some? && width.value > 0 && 0 <= v && v / Pow2(width.value - 1) != 0
    then v - Pow2(width.value) else v
  }

  /** target >> at, masked to a number of bits; negative counts are refused. */
  function Bits(target: int, at: int, count: int): Result {
    if at < 0 || count < 0 then Fail(NegativeShift) else Value(target / Pow2(at) % Pow2(count))
  }

  function Eval(e: Expr, w: World, l: Limit): Result
    decreases Rank(w, l), e, 1
  {
    match e
    case Literal(v, width, signed) => Value(LiteralValue(v, width, signed))
    case Ident(path, name, resolved) =>
      if path in w.env then Value(w.env[path])
      else if name in w.env then Value(w.env[name])
      else if resolved.None? || resolved.value !in w.params || w.params[resolved.value].None?
      then Fail(UnknownIdentifier)
      else if Stops(l, resolved.value) then Fail(Circular)
      else Eval(w.params[resolved.value].value, w, Under(w, l, resolved.value))
    case Unary(op, x) =>
      var v := Eval(x, w, l);
      if v.Fail? then v else Answer(UnaryConst(op, v.value))
    case Binary(op, x, y) =>
      var a := Eval(x, w, l);
      if a.Fail? then a else
      var b := Eval(y, w, l);
      if b.Fail? then b else Answer(BinaryConst(op, a.value, b.value, FOLD_BITS))
    case Ternary(c, yes, no) =>
      var v := Eval(c, w, l);
      if v.Fail? then v else if v.value != 0 then Eval(yes, w, l) else Eval(no, w, l)
    case Concat(parts) =>
      if |parts| == 1 then Eval(parts[0].expr, w, l) else EvalParts(parts, 0, w, l)
    case Replicate(count, part) =>
      var n := Eval(count, w, l);
      if n.Fail? then n else
      var v := Eval(part.expr, w, l);
      if v.Fail? then v
      else if PartWidth(part).None? then Fail(NoWidth)
      else if PartWidth(part).value < 0 then Fail(NegativeShift)
      else Value(Repeated(v.value, PartWidth(part).value, n.value, 0))
    case RangeSelect(t, m, ls) =>
      var v := Eval(t, w, l);
      if v.Fail? then v else
      var hi := Eval(m, w, l);
      if hi.Fail? then hi else
      var lo := Eval(ls, w, l);
      if lo.Fail? then lo else
      Bits(v.value, if hi.value < lo.value then hi.value else lo.value, Abs(hi.value - lo.value) + 1)
    case PartSelect(t, b, s, up) =>
      var v := Eval(t, w, l);
      if v.Fail? then v else
      var at := Eval(b, w, l);
      if at.Fail? then at else
      var n := Eval(s, w, l);
      if n.Fail? then n else Bits(v.value, if up then at.value else at.value - n.value + 1, n.value)
    case WidthCast(s, x) =>
      var v := Eval(x, w, l);
      if v.Fail? then v else
      var n := Eval(s, w, l);
      if n.Fail? then n else Bits(v.value, 0, n.value)
    case Mintypmax(x) => Eval(x, w, l)
    case SignCall(x) => Eval(x, w, l)
    case Clog2Call(x) =>
      var v := Eval(x, w, l);
      if v.Fail? then v else Value(if v.value > 0 then BitLength(v.value - 1) else 0)
    case PowCall(x, y) =>
      var a := Eval(x, w, l);
      if a.Fail? then a else
      var b := Eval(y, w, l);
      if b.Fail? then b else if b.value < 0 then Fail(NoAnswer) else Value(Power(a.value, b.value))
    case BitsCall(part) => BitsAnswer(part, w.env)
    case NotConstant => Fail(NoAnswer)
  }

  /** The parts, most significant first, pushed one by one behind what has been collected. */
  function EvalParts(parts: seq<Part>, collected: int, w: World, l: Limit): Result
    decreases Rank(w, l), parts, 0
  {
    if parts == [] then Value(collected) else
    var Part(expr, _) := parts[0];
    var width := PartWidth(parts[0]);
    assert (parts decreases to parts[0]) && (parts[0] decreases to expr);
    var v := Eval(expr, w, l);
    if v.Fail? then v
    else if width.None? then Fail(NoWidth)
    else if width.value < 0 then Fail(NegativeShift)
    else EvalParts(parts[1..], Push(collected, v.value, width.value), w, l)
  }

  /** (collected << width) | (v & mask) */
  function Push(collected: int, v: int, width: nat): int { collected * Pow2(width) + v % Pow2(width) }

  function Repeated(v: int, width: nat, n: int, collected: int): int
    decreases n
  {
    if n <= 0 then collected else Repeated(v, width, n - 1, Push(collected, v, width))
  }

  /** const_int's module state: the parameters being resolved right now. */
  class Evaluator {
    const world: World
    var resolving: set<int>

    constructor (world: World)
      ensures this.world == world && resolving == {}
    {
      this.world := world;
      resolving := {};
    }

    /** Computes the guarded value, and leaves the guard as it found it on every way out. */
    method EvalConst(e: Expr) returns (r: Result)
      modifies this
      ensures r == Eval(e, world, Guard(old(resolving)))
      ensures resolving == old(resolving)
      decreases Rank(world, Guard(resolving)), e, 2
    {
      match e
      case Literal(v, width, signed) =>
        r := Value(LiteralValue(v, width, signed));
      case Ident(path, name, resolved) =>
        if path in world.env { return Value(world.env[path]); }
        if name in world.env { return Value(world.env[name]); }
        r := EvalConstViaResolved(e);
      case Unary(op, x) =>
        r := EvalConst(x);
        if r.Value? { r := Answer(UnaryConst(op, r.value)); }
      case Binary(op, x, y) =>
        var a := EvalConst(x);
        if a.Fail? { return a; }
        var b := EvalConst(y);
        if b.Fail? { return b; }
        r := Answer(BinaryConst(op, a.value, b.value, FOLD_BITS));
      case Ternary(c, yes, no) =>
        var v := EvalConst(c);
        if v.Fail? { return v; }
        if v.value != 0 { r := EvalConst(yes); } else { r := EvalConst(no); }
      case Concat(parts) =>
        if |parts| == 1 {
          assert parts[0].expr < e;
          r := EvalConst(parts[0].expr);
          return;
        }
        r := EvalConcat(e);
      case Replicate(_, _) => r := EvalReplicate(e);
      case RangeSelect(_, _, _) => r := EvalSelect(e);
      case PartSelect(_, _, _, _) => r := EvalSelect(e);
      case WidthCast(_, _) => r := EvalSelect(e);
      case Mintypmax(x) => r := EvalConst(x);
      case NotConstant => r := Fail(NoAnswer);
      case _ => r := EvalConstFunc(e);
    }

    method EvalConstViaResolved(e: Expr) returns (r: Result)
      requires e.Ident? && e.path !in world.env && e.name !in world.env
      modifies this
      ensures r == Eval(e, world, Guard(old(resolving)))
      ensures resolving == old(resolving)
      decreases Rank(world, Guard(resolving)), e, 1
    {
      if e.resolved.None? || e.resolved.value !in world.params || world.params[e.resolved.value].None? {
        return Fail(UnknownIdentifier);
      }
      var pid := e.resolved.value;
      if pid in resolving { return Fail(Circular); }
      ghost var inside := Under(world, Guard(resolving), pid);
      resolving := resolving + {pid};
      r := EvalConst(world.params[pid].value);
      resolving := resolving - {pid};
    }

    method EvalConcat(e: Expr) returns (r: Result)
      requires e.Concat? && |e.parts| != 1
      modifies this
      ensures r == Eval(e, world, Guard(old(resolving)))
      ensures resolving == old(resolving)
      decreases Rank(world, Guard(resolving)), e, 1
    {
      var parts, result := e.parts, 0;
      for i := 0 to |parts|
        invariant resolving == old(resolving)
        invariant Eval(e, world, Guard(resolving)) == EvalParts(parts[i..], result, world, Guard(resolving))
      {
        assert parts[i] in parts && parts[i..][1..] == parts[i + 1..];
        var v := EvalConst(parts[i].expr);
        if v.Fail? { return v; }
        var width := ConstPartWidth(parts[i]);
        if width.None? { return Fail(NoWidth); }
        if width.value < 0 { return Fail(NegativeShift); }
        result := Push(result, v.value, width.value);
      }
      r := Value(result);
    }

    method EvalReplicate(e: Expr) returns (r: Result)
      requires e.Replicate?
      modifies this
      ensures r == Eval(e, world, Guard(old(resolving)))
      ensures resolving == old(resolving)
      decreases Rank(world, Guard(resolving)), e, 1
    {
      var n := EvalConst(e.count);
      if n.Fail? { return n; }
      var v := EvalConst(e.part.expr);
      if v.Fail? { return v; }
      var width := ConstPartWidth(e.part);
      if width.None? { return Fail(NoWidth); }
      if width.value < 0 { return Fail(NegativeShift); }
      var result := Replicated(v.value, width.value, n.value);
      r := Value(result);
    }

    /** The selects and the width cast. */
    method EvalSelect(e: Expr) returns (r: Result)
      requires e.RangeSelect? || e.PartSelect? || e.WidthCast?
      modifies this
      ensures r == Eval(e, world, Guard(old(resolving)))
      ensures resolving == old(resolving)
      decreases Rank(world, Guard(resolving)), e, 1
    {
      match e
      case RangeSelect(t, m, ls) =>
        var v := EvalConst(t);
        if v.Fail? { return v; }
        var hi := EvalConst(m);
        if hi.Fail? { return hi; }
        var lo := EvalConst(ls);
        if lo.Fail? { return lo; }
        r := Bits(v.value, if hi.value < lo.value then hi.value else lo.value, Abs(hi.value - lo.value) + 1);
      case PartSelect(t, b, s, up) =>
        var v := EvalConst(t);
        if v.Fail? { return v; }
        var at := EvalConst(b);
        if at.Fail? { return at; }
        var n := EvalConst(s);
        if n.Fail? { return n; }
        r := Bits(v.value, if up then at.value else at.value - n.value + 1, n.value);
      case WidthCast(s, x) =>
        var v := EvalConst(x);
        if v.Fail? { return v; }
        var n := EvalConst(s);
        if n.Fail? { return n; }
        r := Bits(v.value, 0, n.value);
    }

    /** The constant system functions. */
    method EvalConstFunc(e: Expr) returns (r: Result)
      requires e.SignCall? || e.Clog2Call? || e.PowCall? || e.BitsCall?
      modifies this
      ensures r == Eval(e, world, Guard(old(resolving)))
      ensures resolving == old(resolving)
      decreases Rank(world, Guard(resolving)), e, 1
    {
      match e
      case SignCall(x) => r := EvalConst(x);
      case Clog2Call(x) =>
        r := EvalConst(x);
        if r.Value? { r := Value(if r.value > 0 then BitLength(r.value - 1) else 0); }
      case PowCall(x, y) =>
        var a := EvalConst(x);
        if a.Fail? { return a; }
        var b := EvalConst(y);
        if b.Fail? { return b; }
        r := if b.value < 0 then Fail(NoAnswer) else Value(Power(a.value, b.value));
      case BitsCall(part) =>
        if part.recorded.Some? { return Value(part.recorded.value); }
        if part.expr.Ident? && "$bits:" + part.expr.name in world.env {
          return Value(world.env["$bits:" + part.expr.name]);
        }
        r := Fail(NoWidth);
    }
  }

  /** The width found for a part: over a concatenation, all widths are collected before any is missed. */
  method ConstPartWidth(part: Part) returns (width: Option<int>)
    ensures width == PartWidth(part)
    decreases part
  {
    if part.recorded.Some? { return part.recorded; }
    match part.expr
    case Literal(_, own, _) => width := if own.Some? then Some(own.value) else None;
    case Concat(parts) =>
      var widths: seq<Option<int>> := [];
      for i := 0 to |parts|
        invariant |widths| == i && forall k :: 0 <= k < i ==> widths[k] == PartWidth(parts[k])
      {
        assert (part decreases to part.expr) && (part.expr decreases to parts) && parts[i] in parts;
        var w := ConstPartWidth(parts[i]);
        widths := widths + [w];
      }
      if exists k :: 0 <= k < |widths| && widths[k].None? {
        MissingWidth(parts);
        return None;
      }
      var total := 0;
      for i := 0 to |widths|
        invariant forall k :: i <= k < |widths| ==> widths[k].Some?
        invariant PartWidths(parts).Some? == PartWidths(parts[i..]).Some?
        invariant PartWidths(parts).Some? ==> PartWidths(parts).value == total + PartWidths(parts[i..]).value
      {
        assert parts[i..][1..] == parts[i + 1..];
        total := total + widths[i].value;
      }
      width := Some(total);
    case _ => width := None;
  }

  lemma {:induction false} MissingWidth(parts: seq<Part>)
    requires exists k :: 0 <= k < |parts| && PartWidth(parts[k]).None?
    ensures PartWidths(parts).None?
  {
    if PartWidth(parts[0]).Some? {
      var k :| 0 <= k < |parts| && PartWidth(parts[k]).None?;
      assert parts[1..][k - 1] == parts[k];
      MissingWidth(parts[1..]);
    }
  }

  method Replicated(v: int, width: nat, count: int) returns (result: int)
    ensures result == Repeated(v, width, count, 0)
  {
    result := 0;
    var done := 0;
    while done < count
      invariant 0 <= done && (count >= 0 ==> done <= count)
      invariant Repeated(v, width, count - done, result) == Repeated(v, width, count, 0)
    {
      result := Push(result, v, width);
      done := done + 1;
    }
  }
}
