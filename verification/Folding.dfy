/** Folded expressions against exact ones: where a reduced operand shows in the value of the whole. */
module Folding {
  import opened Congruences
  import opened ConstEval
  import opened ConstOps
  import opened FoldedOperators
  import opened Numbers
  import opened Options

  // ---------------------------------------------------------------- exact values

  /** An identifier is followed to a parameter's default value. */
  predicate Follows(e: Expr, w: World, l: Limit) {
    && e.Ident? && e.path !in w.env && e.name !in w.env
    && e.resolved.Some? && e.resolved.value in w.params && w.params[e.resolved.value].Some?
    && !Stops(l, e.resolved.value)
  }

  function Followed(e: Expr, w: World, l: Limit): Expr
    requires Follows(e, w, l)
  {
    w.params[e.resolved.value].value
  }

  function Inside(e: Expr, w: World, l: Limit): (l': Limit)
    requires Follows(e, w, l)
    ensures Rank(w, l') < Rank(w, l)
  {
    Under(w, l, e.resolved.value)
  }

  /** The exact integer an expression stands for, however large, parameters followed as far as the limit goes. */
  function Exact(e: Expr, w: World, l: Limit): Option<int>
    decreases Rank(w, l), e, 1
  {
    match e
    case Literal(v, width, signed) => Some(LiteralValue(v, width, signed))
    case Ident(path, name, _) =>
      if path in w.env then Some(w.env[path])
      else if name in w.env then Some(w.env[name])
      else if Follows(e, w, l) then Exact(Followed(e, w, l), w, Inside(e, w, l))
      else None
    case Unary(op, x) => var v := Exact(x, w, l); if v.Some? then UnaryConst(op, v.value) else None
    case Binary(op, x, y) =>
      var a, b := Exact(x, w, l), Exact(y, w, l);
      if a.Some? && b.Some? then ExactBinary(op, a.value, b.value) else None
    case Ternary(c, yes, no) =>
      var v := Exact(c, w, l);
      if v.None? then None else if v.value != 0 then Exact(yes, w, l) else Exact(no, w, l)
    case Concat(parts) => if |parts| == 1 then Exact(parts[0].expr, w, l) else ExactParts(parts, 0, w, l)
    case Replicate(count, part) =>
      var n, v, width := Exact(count, w, l), Exact(part.expr, w, l), PartWidth(part);
      if n.Some? && v.Some? && width.Some? && width.value >= 0 then Some(Repeated(v.value, width.value, n.value, 0))
      else None
    case RangeSelect(t, m, ls) =>
      var v, hi, lo := Exact(t, w, l), Exact(m, w, l), Exact(ls, w, l);
      if v.Some? && hi.Some? && lo.Some?
      then Answered(Bits(v.value, Min(hi.value, lo.value), Abs(hi.value - lo.value) + 1)) else None
    case PartSelect(t, b, s, up) =>
      var v, at, n := Exact(t, w, l), Exact(b, w, l), Exact(s, w, l);
      if v.Some? && at.Some? && n.Some?
      then Answered(Bits(v.value, if up then at.value else at.value - n.value + 1, n.value)) else None
    case WidthCast(s, x) =>
      var v, n := Exact(x, w, l), Exact(s, w, l);
      if v.Some? && n.Some? then Answered(Bits(v.value, 0, n.value)) else None
    case Mintypmax(x) => Exact(x, w, l)
    case SignCall(x) => Exact(x, w, l)
    case Clog2Call(x) =>
      var v := Exact(x, w, l);
      if v.Some? then Some(if v.value > 0 then BitLength(v.value - 1) else 0) else None
    case PowCall(x, y) =>
      var a, b := Exact(x, w, l), Exact(y, w, l);
      if a.Some? && b.Some? && b.value >= 0 then Some(Power(a.value, b.value)) else None
    case BitsCall(part) => Answered(BitsAnswer(part, w.env))
    case NotConstant => None
  }

  function ExactParts(parts: seq<Part>, collected: int, w: World, l: Limit): Option<int>
    decreases Rank(w, l), parts, 0
  {
    if parts == [] then Some(collected) else
    var Part(expr, _) := parts[0];
    assert (parts decreases to parts[0]) && (parts[0] decreases to expr);
    var v, width := Exact(expr, w, l), PartWidth(parts[0]);
    if v.Some? && width.Some? && width.value >= 0
    then ExactParts(parts[1..], Push(collected, v.value, width.value), w, l) else None
  }

  /** The branch the exact condition takes, if it has a value. */
  function Taken(e: Expr, w: World, l: Limit): (taken: Option<Expr>)
    requires e.Ternary?
    ensures taken.Some? ==> (e decreases to taken.value)
  {
    var v := Exact(e.cond, w, l);
    if v.None? then None else Some(if v.value != 0 then e.yes else e.no)
  }

  // ---------------------------------------------------------------- where nothing is reduced

  /** The operation does not cut its result. */
  predicate Uncut(op: BinOp, a: int, b: int, bits: nat) {
    && (op.Shl? ==> b < bits)
    && (op.Pow? ==> b < 0 || Abs(a) <= 1 || b * BitLength(Abs(a)) <= bits)
  }

  predicate UncutOver(op: BinOp, x: Expr, y: Expr, w: World, l: Limit, bits: nat) {
    var (a, b) := (Exact(x, w, l), Exact(y, w, l));
    a.Some? && b.Some? ==> Uncut(op, a.value, b.value, bits)
  }

  /** No reduction branch is taken anywhere in the expression, or in what it follows. */
  predicate Unreduced(e: Expr, w: World, l: Limit, bits: nat)
    decreases Rank(w, l), e, 1
  {
    match e
    case Ident(_, _, _) => Follows(e, w, l) ==> Unreduced(Followed(e, w, l), w, Inside(e, w, l), bits)
    case Unary(_, x) => Unreduced(x, w, l, bits)
    case Binary(op, x, y) => Unreduced(x, w, l, bits) && Unreduced(y, w, l, bits) && UncutOver(op, x, y, w, l, bits)
    case Ternary(c, _, _) =>
      Unreduced(c, w, l, bits) && (Taken(e, w, l).Some? ==> Unreduced(Taken(e, w, l).value, w, l, bits))
    case Concat(parts) => UnreducedParts(parts, w, l, bits)
    case Replicate(count, part) => Unreduced(count, w, l, bits) && Unreduced(part.expr, w, l, bits)
    case RangeSelect(t, m, ls) => Unreduced(t, w, l, bits) && Unreduced(m, w, l, bits) && Unreduced(ls, w, l, bits)
    case PartSelect(t, b, s, _) => Unreduced(t, w, l, bits) && Unreduced(b, w, l, bits) && Unreduced(s, w, l, bits)
    case WidthCast(s, x) => Unreduced(s, w, l, bits) && Unreduced(x, w, l, bits)
    case Mintypmax(x) => Unreduced(x, w, l, bits)
    case SignCall(x) => Unreduced(x, w, l, bits)
    case Clog2Call(x) => Unreduced(x, w, l, bits)
    case PowCall(x, y) => Unreduced(x, w, l, bits) && Unreduced(y, w, l, bits)
    case _ => true
  }

  predicate UnreducedParts(parts: seq<Part>, w: World, l: Limit, bits: nat)
    decreases Rank(w, l), parts, 0
  {
    parts == [] ||
    var Part(expr, _) := parts[0];
    assert (parts decreases to parts[0]) && (parts[0] decreases to expr);
    Unreduced(expr, w, l, bits) && UnreducedParts(parts[1..], w, l, bits)
  }

  lemma UncutIsExact(op: BinOp, a: int, b: int, bits: nat)
    requires Uncut(op, a, b, bits)
    ensures BinaryConst(op, a, b, bits) == ExactBinary(op, a, b)
  {
  }

  predicate IsExact(e: Expr, w: World, l: Limit) { Answered(Eval(e, w, l)) == Exact(e, w, l) }

  lemma UncutValues(op: BinOp, x: Expr, y: Expr, w: World, l: Limit, bits: nat, a: int, b: int)
    requires bits == FOLD_BITS && Eval(x, w, l) == Value(a) && Eval(y, w, l) == Value(b)
    requires Exact(x, w, l) == Some(a) && Exact(y, w, l) == Some(b) && Uncut(op, a, b, bits)
    ensures IsExact(Binary(op, x, y), w, l)
  {
    UncutIsExact(op, a, b, bits);
    FoldedOperands(op, x, y, w, l, bits, a, b);
    ExactOperands(op, x, y, w, l, a, b);
  }

  lemma UncutBinary(op: BinOp, x: Expr, y: Expr, w: World, l: Limit, bits: nat)
    requires bits == FOLD_BITS && IsExact(x, w, l) && IsExact(y, w, l) && UncutOver(op, x, y, w, l, bits)
    ensures IsExact(Binary(op, x, y), w, l)
  {
    var a, b := Exact(x, w, l), Exact(y, w, l);
    if a.Some? && b.Some? { UncutValues(op, x, y, w, l, bits, a.value, b.value); }
  }

  lemma IdentFolds(e: Expr, w: World, l: Limit)
    requires e.Ident?
    ensures Follows(e, w, l) ==>
              && Eval(e, w, l) == Eval(Followed(e, w, l), w, Inside(e, w, l))
              && Exact(e, w, l) == Exact(Followed(e, w, l), w, Inside(e, w, l))
    ensures !Follows(e, w, l) ==> IsExact(e, w, l)
  {
  }

  /** The folded condition takes the branch the exact one takes. */
  predicate SameBranch(c: Expr, w: World, l: Limit) {
    Eval(c, w, l).Value? && Exact(c, w, l).Some? ==> (Eval(c, w, l).value == 0 <==> Exact(c, w, l).value == 0)
  }

  lemma TernaryFolds(e: Expr, w: World, l: Limit)
    requires e.Ternary? && SameBranch(e.cond, w, l) && (Eval(e.cond, w, l).Value? <==> Exact(e.cond, w, l).Some?)
    ensures var taken := Taken(e, w, l);
            if taken.None? then Eval(e, w, l).Fail? && Exact(e, w, l).None?
            else Eval(e, w, l) == Eval(taken.value, w, l) && Exact(e, w, l) == Exact(taken.value, w, l)
  {
  }

  lemma SelectIsExact(e: Expr, w: World, l: Limit)
    requires e.RangeSelect? ==> IsExact(e.target, w, l) && IsExact(e.msb, w, l) && IsExact(e.lsb, w, l)
    requires e.PartSelect? ==> IsExact(e.target, w, l) && IsExact(e.base, w, l) && IsExact(e.size, w, l)
    requires IsSelect(e)
    ensures IsExact(e, w, l)
  {
  }

  lemma ReplicateIsExact(e: Expr, w: World, l: Limit)
    requires e.Replicate? && IsExact(e.count, w, l) && IsExact(e.part.expr, w, l)
    ensures IsExact(e, w, l)
  {
  }

  lemma CallIsExact(e: Expr, w: World, l: Limit)
    requires e.WidthCast? ==> IsExact(e.size, w, l) && IsExact(e.operand, w, l)
    requires e.PowCall? ==> IsExact(e.left, w, l) && IsExact(e.right, w, l)
    requires e.Clog2Call? ==> IsExact(e.operand, w, l)
    requires e.WidthCast? || e.PowCall? || e.Clog2Call?
    ensures IsExact(e, w, l)
  {
  }

  /** What is not reduced is folded to exactly its value, and where it has none there is no answer. */
  lemma {:induction false} FoldsExactly(e: Expr, w: World, l: Limit, bits: nat)
    requires bits == FOLD_BITS && Unreduced(e, w, l, bits)
    ensures IsExact(e, w, l)
    decreases Rank(w, l), e, 1
  {
    match e
    case Ident(_, _, _) =>
      IdentFolds(e, w, l);
      if Follows(e, w, l) { FoldsExactly(Followed(e, w, l), w, Inside(e, w, l), bits); }
    case Unary(_, x) => FoldsExactly(x, w, l, bits);
    case Binary(op, x, y) =>
      FoldsExactly(x, w, l, bits);
      FoldsExactly(y, w, l, bits);
      UncutBinary(op, x, y, w, l, bits);
    case Ternary(c, _, _) =>
      FoldsExactly(c, w, l, bits);
      TernaryFolds(e, w, l);
      if Taken(e, w, l).Some? { FoldsExactly(Taken(e, w, l).value, w, l, bits); }
    case Concat(parts) => ConcatFoldsExactly(e, w, l, bits);
    case Mintypmax(x) => FoldsExactly(x, w, l, bits);
    case SignCall(x) => FoldsExactly(x, w, l, bits);
    case _ => OthersFoldExactly(e, w, l, bits);
  }

  lemma {:induction false} OthersFoldExactly(e: Expr, w: World, l: Limit, bits: nat)
    requires bits == FOLD_BITS && Unreduced(e, w, l, bits)
    requires !(e.Ident? || e.Unary? || e.Binary? || e.Ternary? || e.Concat? || e.Mintypmax? || e.SignCall?)
    ensures IsExact(e, w, l)
    decreases Rank(w, l), e, 0
  {
    match e
    case Replicate(count, part) =>
      FoldsExactly(count, w, l, bits);
      FoldsExactly(part.expr, w, l, bits);
      ReplicateIsExact(e, w, l);
    case RangeSelect(t, m, ls) =>
      FoldsExactly(t, w, l, bits);
      FoldsExactly(m, w, l, bits);
      FoldsExactly(ls, w, l, bits);
      SelectIsExact(e, w, l);
    case PartSelect(t, b, s, _) =>
      FoldsExactly(t, w, l, bits);
      FoldsExactly(b, w, l, bits);
      FoldsExactly(s, w, l, bits);
      SelectIsExact(e, w, l);
    case WidthCast(s, x) =>
      FoldsExactly(s, w, l, bits);
      FoldsExactly(x, w, l, bits);
      CallIsExact(e, w, l);
    case Clog2Call(x) =>
      FoldsExactly(x, w, l, bits);
      CallIsExact(e, w, l);
    case PowCall(x, y) =>
      FoldsExactly(x, w, l, bits);
      FoldsExactly(y, w, l, bits);
      CallIsExact(e, w, l);
    case _ =>
  }

  lemma {:induction false} ConcatFoldsExactly(e: Expr, w: World, l: Limit, bits: nat)
    requires bits == FOLD_BITS && e.Concat? && Unreduced(e, w, l, bits)
    ensures IsExact(e, w, l)
    decreases Rank(w, l), e, 0
  {
    var parts := e.parts;
    if |parts| == 1 {
      var Part(expr, _) := parts[0];
      assert (parts decreases to parts[0]) && (parts[0] decreases to expr);
      assert UnreducedParts(parts, w, l, bits);
      FoldsExactly(expr, w, l, bits);
    } else {
      PartsFoldExactly(parts, 0, w, l, bits);
    }
  }

  lemma {:induction false} PartsFoldExactly(parts: seq<Part>, collected: int, w: World, l: Limit, bits: nat)
    requires bits == FOLD_BITS && UnreducedParts(parts, w, l, bits)
    ensures Answered(EvalParts(parts, collected, w, l)) == ExactParts(parts, collected, w, l)
    decreases Rank(w, l), parts, 0
  {
    if parts != [] {
      var Part(expr, _) := parts[0];
      assert (parts decreases to parts[0]) && (parts[0] decreases to expr);
      FoldsExactly(expr, w, l, bits);
      var v, width := Exact(expr, w, l), PartWidth(parts[0]);
      if v.Some? && width.Some? && width.value >= 0 {
        PartsFoldExactly(parts[1..], Push(collected, v.value, width.value), w, l, bits);
      }
    }
  }

  // ---------------------------------------------------------------- one operation over reduced operands

  /** The same for the operands themselves; an operand without a value decides nothing. */
  predicate FoldsRightOver(op: BinOp, x: Expr, y: Expr, w: World, l: Limit, bits: nat) {
    var (a, base, r, c) := (Eval(x, w, l), Exact(x, w, l), Eval(y, w, l), Exact(y, w, l));
    a.Value? && base.Some? && r.Value? && c.Some? ==> FoldsRight(op, a.value, base.value, r.value, c.value, bits)
  }

  /** What the expression folds to is right modulo 2^bits, or it has no value on either side. */
  ghost predicate FoldsToExact(e: Expr, w: World, l: Limit, bits: nat) {
    Matches(Answered(Eval(e, w, l)), Exact(e, w, l), Pow2(bits))
  }

  lemma NoOperandNoValue(op: BinOp, x: Expr, y: Expr, w: World, l: Limit, bits: nat)
    requires FoldsToExact(x, w, l, bits) && FoldsToExact(y, w, l, bits)
    requires Exact(x, w, l).None? || Exact(y, w, l).None?
    ensures FoldsToExact(Binary(op, x, y), w, l, bits) && FoldsRightOver(op, x, y, w, l, bits)
  {
  }

  lemma FoldedOperands(op: BinOp, x: Expr, y: Expr, w: World, l: Limit, bits: nat, a: int, r: int)
    requires bits == FOLD_BITS && Eval(x, w, l) == Value(a) && Eval(y, w, l) == Value(r)
    ensures Answered(Eval(Binary(op, x, y), w, l)) == BinaryConst(op, a, r, bits)
  {
  }

  lemma ExactOperands(op: BinOp, x: Expr, y: Expr, w: World, l: Limit, base: int, c: int)
    requires Exact(x, w, l) == Some(base) && Exact(y, w, l) == Some(c)
    ensures Exact(Binary(op, x, y), w, l) == ExactBinary(op, base, c)
  {
  }

  lemma OperandsDecide(op: BinOp, x: Expr, y: Expr, w: World, l: Limit, bits: nat, a: int, base: int, r: int, c: int)
    requires bits == FOLD_BITS && Eval(x, w, l) == Value(a) && Eval(y, w, l) == Value(r)
    requires Exact(x, w, l) == Some(base) && Exact(y, w, l) == Some(c)
    ensures FoldsToExact(Binary(op, x, y), w, l, bits)
         == Matches(BinaryConst(op, a, r, bits), ExactBinary(op, base, c), Pow2(bits))
  {
    FoldedOperands(op, x, y, w, l, bits, a, r);
    ExactOperands(op, x, y, w, l, base, c);
  }

  lemma ConditionOver(op: BinOp, x: Expr, y: Expr, w: World, l: Limit, bits: nat, a: int, base: int, r: int, c: int)
    requires Eval(x, w, l) == Value(a) && Eval(y, w, l) == Value(r)
    requires Exact(x, w, l) == Some(base) && Exact(y, w, l) == Some(c)
    ensures FoldsRightOver(op, x, y, w, l, bits) == FoldsRight(op, a, base, r, c, bits)
  {
  }

  lemma ValuesDecide(op: BinOp, x: Expr, y: Expr, w: World, l: Limit, bits: nat, a: int, base: int, r: int, c: int)
    requires bits == FOLD_BITS && Folds(op) && Eval(x, w, l) == Value(a) && Eval(y, w, l) == Value(r)
    requires Exact(x, w, l) == Some(base) && Exact(y, w, l) == Some(c)
    requires Congruent(a, base, Pow2(bits)) && Congruent(r, c, Pow2(bits))
    ensures FoldsToExact(Binary(op, x, y), w, l, bits) <==> FoldsRightOver(op, x, y, w, l, bits)
  {
    OperandsDecide(op, x, y, w, l, bits, a, base, r, c);
    ConditionOver(op, x, y, w, l, bits, a, base, r, c);
    OperationFoldsExactly(op, a, base, r, c, bits);
  }

  /** Over operands that fold right themselves, an operation folds right if and only if the condition above holds. */
  lemma BinaryFoldsExactly(op: BinOp, x: Expr, y: Expr, w: World, l: Limit, bits: nat)
    requires bits == FOLD_BITS && Folds(op)
    requires FoldsToExact(x, w, l, bits) && FoldsToExact(y, w, l, bits)
    ensures FoldsToExact(Binary(op, x, y), w, l, bits) <==> FoldsRightOver(op, x, y, w, l, bits)
  {
    if Exact(x, w, l).Some? && Exact(y, w, l).Some? {
      var a, base, r, c := Eval(x, w, l).value, Exact(x, w, l).value, Eval(y, w, l).value, Exact(y, w, l).value;
      ValuesDecide(op, x, y, w, l, bits, a, base, r, c);
    } else {
      NoOperandNoValue(op, x, y, w, l, bits);
    }
  }

  lemma UnaryFolds(op: UnOp, x: Expr, w: World, l: Limit, bits: nat)
    requires FoldsUnary(op) && FoldsToExact(x, w, l, bits)
    ensures FoldsToExact(Unary(op, x), w, l, bits)
  {
    if Exact(x, w, l).Some? { FoldedUnary(op, Eval(x, w, l).value, Exact(x, w, l).value, Pow2(bits)); }
  }

  lemma SameMatches(r: Option<int>, m: int)
    ensures Matches(r, r, m)
  {
    if r.Some? { Same(r.value, m); }
  }

  // ---------------------------------------------------------------- whole expressions

  /** The one operand, if there is one, whose low bits the low bits of the whole come from. */
  function Inner(e: Expr): (inner: Option<Expr>)
    ensures inner.Some? ==> (e decreases to inner.value)
  {
    match e
    case Unary(op, x) => if FoldsUnary(op) then Some(x) else None
    case Replicate(_, part) => Some(part.expr)
    case RangeSelect(t, _, _) => Some(t)
    case PartSelect(t, _, _, _) => Some(t)
    case WidthCast(_, x) => Some(x)
    case PowCall(x, _) => Some(x)
    case Mintypmax(x) => Some(x)
    case SignCall(x) => Some(x)
    case _ => None
  }

  /** The counts, positions and sizes beside it. */
  function Beside(e: Expr): seq<Expr> {
    match e
    case Replicate(count, _) => [count]
    case RangeSelect(_, m, ls) => [m, ls]
    case PartSelect(_, b, s, _) => [b, s]
    case WidthCast(s, _) => [s]
    case PowCall(_, y) => [y]
    case _ => []
  }

  predicate PlainBeside(e: Expr, w: World, l: Limit, bits: nat) {
    forall i :: 0 <= i < |Beside(e)| ==> Unreduced(Beside(e)[i], w, l, bits)
  }

  /** Built from parts, of any kind, that are not reduced, with operators, conditionals, casts, concatenations and
      selects whose low bits depend on low bits, and plain counts beside them; the same goes for what is followed. */
  predicate Modular(e: Expr, w: World, l: Limit, bits: nat)
    decreases Rank(w, l), e, 1
  {
    if Inner(e).Some? then PlainBeside(e, w, l, bits) && Modular(Inner(e).value, w, l, bits)
    else if e.Ident? then Follows(e, w, l) ==> Modular(Followed(e, w, l), w, Inside(e, w, l), bits)
    else if e.Binary? && Folds(e.bop) then Modular(e.left, w, l, bits) && Modular(e.right, w, l, bits)
    else if e.Ternary? then
      Modular(e.cond, w, l, bits) && (Taken(e, w, l).Some? ==> Modular(Taken(e, w, l).value, w, l, bits))
    else if e.Concat? then ModularParts(e.parts, w, l, bits)
    else Unreduced(e, w, l, bits)
  }

  predicate ModularParts(parts: seq<Part>, w: World, l: Limit, bits: nat)
    decreases Rank(w, l), parts, 0
  {
    parts == [] ||
    var Part(expr, _) := parts[0];
    assert (parts decreases to parts[0]) && (parts[0] decreases to expr);
    Modular(expr, w, l, bits) && ModularParts(parts[1..], w, l, bits)
  }

  /** The position and number of bits a select takes. */
  function Selected(e: Expr, w: World, l: Limit): Option<(int, int)>
    requires IsSelect(e)
  {
    match e
    case RangeSelect(_, m, ls) =>
      var hi, lo := Exact(m, w, l), Exact(ls, w, l);
      if hi.Some? && lo.Some? then Some((Min(hi.value, lo.value), Abs(hi.value - lo.value) + 1)) else None
    case PartSelect(_, b, s, up) =>
      var at, n := Exact(b, w, l), Exact(s, w, l);
      if at.Some? && n.Some? then Some((if up then at.value else at.value - n.value + 1, n.value)) else None
  }

  /** The folded target has the bits selected from the exact one. */
  predicate SelectFoldsRightOver(e: Expr, w: World, l: Limit, bits: nat)
    requires IsSelect(e)
  {
    var (a, base, s) := (Eval(e.target, w, l), Exact(e.target, w, l), Selected(e, w, l));
    a.Value? && base.Some? && s.Some? ==>
      SelectFoldsRight(a.value, base.value, s.value.0, s.value.0, s.value.1, bits)
  }

  predicate IsSelect(e: Expr) { e.RangeSelect? || e.PartSelect? }

  /** No shift, power, select or choice of a branch in the expression, or in what it follows, is spoilt by what its
      operands were cut to. */
  predicate Harmless(e: Expr, w: World, l: Limit, bits: nat)
    decreases Rank(w, l), e, 1
  {
    if Inner(e).Some? then
      Harmless(Inner(e).value, w, l, bits) && (IsSelect(e) ==> SelectFoldsRightOver(e, w, l, bits))
    else if e.Ident? then Follows(e, w, l) ==> Harmless(Followed(e, w, l), w, Inside(e, w, l), bits)
    else if e.Binary? && Folds(e.bop) then
      && Harmless(e.left, w, l, bits) && Harmless(e.right, w, l, bits)
      && FoldsRightOver(e.bop, e.left, e.right, w, l, bits)
    else if e.Ternary? then
      && Harmless(e.cond, w, l, bits) && SameBranch(e.cond, w, l)
      && (Taken(e, w, l).Some? ==> Harmless(Taken(e, w, l).value, w, l, bits))
    else e.Concat? ==> HarmlessParts(e.parts, w, l, bits)
  }

  predicate HarmlessParts(parts: seq<Part>, w: World, l: Limit, bits: nat)
    decreases Rank(w, l), parts, 0
  {
    parts == [] ||
    var Part(expr, _) := parts[0];
    assert (parts decreases to parts[0]) && (parts[0] decreases to expr);
    Harmless(expr, w, l, bits) && HarmlessParts(parts[1..], w, l, bits)
  }

  lemma ExactFolds(e: Expr, w: World, l: Limit, bits: nat)
    requires bits == FOLD_BITS && Unreduced(e, w, l, bits)
    ensures FoldsToExact(e, w, l, bits)
  {
    FoldsExactly(e, w, l, bits);
    SameMatches(Exact(e, w, l), Pow2(bits));
  }

  lemma SelectModulo(e: Expr, w: World, l: Limit, bits: nat)
    requires IsSelect(e)
    requires FoldsToExact(e.target, w, l, bits)
    requires e.RangeSelect? ==> IsExact(e.msb, w, l) && IsExact(e.lsb, w, l)
    requires e.PartSelect? ==> IsExact(e.base, w, l) && IsExact(e.size, w, l)
    ensures FoldsToExact(e, w, l, bits) <==> SelectFoldsRightOver(e, w, l, bits)
  {
    var base, s := Exact(e.target, w, l), Selected(e, w, l);
    if base.Some? && s.Some? {
      SelectedBits(e, w, l, Eval(e.target, w, l).value, base.value, s.value.0, s.value.1);
      SelectFoldsExactly(Eval(e.target, w, l).value, base.value, s.value.0, s.value.0, s.value.1, bits);
    } else {
      NothingSelected(e, w, l);
    }
  }

  lemma SelectedBits(e: Expr, w: World, l: Limit, a: int, base: int, at: int, n: int)
    requires IsSelect(e)
    requires Eval(e.target, w, l) == Value(a) && Exact(e.target, w, l) == Some(base)
    requires e.RangeSelect? ==> IsExact(e.msb, w, l) && IsExact(e.lsb, w, l)
    requires e.PartSelect? ==> IsExact(e.base, w, l) && IsExact(e.size, w, l)
    requires Selected(e, w, l) == Some((at, n))
    ensures Eval(e, w, l) == Bits(a, at, n) && Exact(e, w, l) == Answered(Bits(base, at, n))
  {
  }

  lemma NothingSelected(e: Expr, w: World, l: Limit)
    requires IsSelect(e)
    requires Answered(Eval(e.target, w, l)).Some? == Exact(e.target, w, l).Some?
    requires e.RangeSelect? ==> IsExact(e.msb, w, l) && IsExact(e.lsb, w, l)
    requires e.PartSelect? ==> IsExact(e.base, w, l) && IsExact(e.size, w, l)
    requires Exact(e.target, w, l).None? || Selected(e, w, l).None?
    ensures Eval(e, w, l).Fail? && Exact(e, w, l).None?
  {
  }

  lemma ReplicateModulo(e: Expr, w: World, l: Limit, bits: nat)
    requires e.Replicate? && IsExact(e.count, w, l) && FoldsToExact(e.part.expr, w, l, bits)
    ensures FoldsToExact(e, w, l, bits)
  {
    var n, v, width := Exact(e.count, w, l), Exact(e.part.expr, w, l), PartWidth(e.part);
    if n.Some? && v.Some? && width.Some? && width.value >= 0 {
      Same(0, Pow2(bits));
      FoldedRepeated(Eval(e.part.expr, w, l).value, v.value, width.value, n.value, 0, 0, bits);
    }
  }

  lemma FoldedCast(a: int, base: int, n: int, bits: nat)
    requires Congruent(a, base, Pow2(bits))
    ensures Matches(Answered(Bits(a, 0, n)), Answered(Bits(base, 0, n)), Pow2(bits))
  {
    if n >= 0 {
      assert a / Pow2(0) == a && base / Pow2(0) == base;
      FoldedCut(a, base, n, bits);
    }
  }

  lemma CastBits(e: Expr, w: World, l: Limit, a: int, base: int, n: int)
    requires e.WidthCast? && Eval(e.size, w, l) == Value(n) && Exact(e.size, w, l) == Some(n)
    requires Eval(e.operand, w, l) == Value(a) && Exact(e.operand, w, l) == Some(base)
    ensures Eval(e, w, l) == Bits(a, 0, n) && Exact(e, w, l) == Answered(Bits(base, 0, n))
  {
  }

  lemma NothingCast(e: Expr, w: World, l: Limit)
    requires e.WidthCast? && IsExact(e.size, w, l)
    requires Answered(Eval(e.operand, w, l)).Some? == Exact(e.operand, w, l).Some?
    requires Exact(e.size, w, l).None? || Exact(e.operand, w, l).None?
    ensures Eval(e, w, l).Fail? && Exact(e, w, l).None?
  {
  }

  lemma CastModulo(e: Expr, w: World, l: Limit, bits: nat)
    requires e.WidthCast? && IsExact(e.size, w, l) && FoldsToExact(e.operand, w, l, bits)
    ensures FoldsToExact(e, w, l, bits)
  {
    var n, v := Exact(e.size, w, l), Exact(e.operand, w, l);
    if n.Some? && v.Some? {
      CastBits(e, w, l, Eval(e.operand, w, l).value, v.value, n.value);
      FoldedCast(Eval(e.operand, w, l).value, v.value, n.value, bits);
    } else {
      NothingCast(e, w, l);
    }
  }

  lemma PowCallModulo(e: Expr, w: World, l: Limit, bits: nat)
    requires e.PowCall? && FoldsToExact(e.left, w, l, bits) && IsExact(e.right, w, l)
    ensures FoldsToExact(e, w, l, bits)
  {
    var a, b := Exact(e.left, w, l), Exact(e.right, w, l);
    if a.Some? && b.Some? && b.value >= 0 { Powers(Eval(e.left, w, l).value, a.value, b.value, Pow2(bits)); }
  }

  lemma BesideIsExact(e: Expr, w: World, l: Limit, bits: nat)
    requires bits == FOLD_BITS && PlainBeside(e, w, l, bits)
    ensures forall i :: 0 <= i < |Beside(e)| ==> IsExact(Beside(e)[i], w, l)
  {
    forall i | 0 <= i < |Beside(e)| ensures IsExact(Beside(e)[i], w, l) {
      FoldsExactly(Beside(e)[i], w, l, bits);
    }
  }

  lemma PositionsAreExact(e: Expr, w: World, l: Limit, bits: nat)
    requires bits == FOLD_BITS && PlainBeside(e, w, l, bits) && IsSelect(e)
    ensures e.RangeSelect? ==> IsExact(e.msb, w, l) && IsExact(e.lsb, w, l)
    ensures e.PartSelect? ==> IsExact(e.base, w, l) && IsExact(e.size, w, l)
  {
    BesideIsExact(e, w, l, bits);
    assert e.RangeSelect? ==> Beside(e)[0] == e.msb && Beside(e)[1] == e.lsb;
    assert e.PartSelect? ==> Beside(e)[0] == e.base && Beside(e)[1] == e.size;
  }

  ghost predicate PartsFold(parts: seq<Part>, w: World, l: Limit, bits: nat) {
    parts == [] || (FoldsToExact(parts[0].expr, w, l, bits) && PartsFold(parts[1..], w, l, bits))
  }

  lemma {:induction false} PushedParts(parts: seq<Part>, c: int, d: int, w: World, l: Limit, bits: nat)
    requires PartsFold(parts, w, l, bits) && Congruent(c, d, Pow2(bits))
    ensures Matches(Answered(EvalParts(parts, c, w, l)), ExactParts(parts, d, w, l), Pow2(bits))
  {
    if parts != [] {
      var v, width := Exact(parts[0].expr, w, l), PartWidth(parts[0]);
      if v.Some? && width.Some? && width.value >= 0 {
        var a, n := Eval(parts[0].expr, w, l).value, width.value;
        FoldedPush(c, d, a, v.value, n, bits);
        PushedParts(parts[1..], Push(c, a, n), Push(d, v.value, n), w, l, bits);
      }
    }
  }

  /** A concatenation folds right whenever its parts do, whatever they were cut to. */
  lemma ConcatFoldsRight(e: Expr, w: World, l: Limit, bits: nat)
    requires e.Concat? && PartsFold(e.parts, w, l, bits)
    ensures FoldsToExact(e, w, l, bits)
  {
    if |e.parts| == 1 {
      assert FoldsToExact(e.parts[0].expr, w, l, bits);
    } else {
      Same(0, Pow2(bits));
      PushedParts(e.parts, 0, 0, w, l, bits);
    }
  }

  /** Over an operand that folds right, with plain counts beside it, only a select can go wrong. */
  lemma InnerDecides(e: Expr, w: World, l: Limit, bits: nat)
    requires bits == FOLD_BITS && Inner(e).Some? && PlainBeside(e, w, l, bits)
    requires FoldsToExact(Inner(e).value, w, l, bits)
    ensures FoldsToExact(e, w, l, bits) <==> (IsSelect(e) ==> SelectFoldsRightOver(e, w, l, bits))
  {
    BesideIsExact(e, w, l, bits);
    match e
    case Unary(op, x) => UnaryFolds(op, x, w, l, bits);
    case Replicate(count, _) =>
      assert Beside(e)[0] == count;
      ReplicateModulo(e, w, l, bits);
    case WidthCast(s, _) =>
      assert Beside(e)[0] == s;
      CastModulo(e, w, l, bits);
    case PowCall(_, y) =>
      assert Beside(e)[0] == y;
      PowCallModulo(e, w, l, bits);
    case Mintypmax(_) =>
    case SignCall(_) =>
    case _ =>
      PositionsAreExact(e, w, l, bits);
      SelectModulo(e, w, l, bits);
  }

  /** Folding such an expression gives its exact value modulo 2^bits, and no answer where there is none. */
  lemma {:induction false} FoldsModulo(e: Expr, w: World, l: Limit, bits: nat)
    requires bits == FOLD_BITS && Modular(e, w, l, bits) && Harmless(e, w, l, bits)
    ensures FoldsToExact(e, w, l, bits)
    decreases Rank(w, l), e, 2
  {
    if Inner(e).Some? {
      FoldsModulo(Inner(e).value, w, l, bits);
      InnerDecides(e, w, l, bits);
    } else if e.Ident? {
      IdentFolds(e, w, l);
      if Follows(e, w, l) {
        FoldsModulo(Followed(e, w, l), w, Inside(e, w, l), bits);
      } else {
        SameMatches(Exact(e, w, l), Pow2(bits));
      }
    } else if e.Binary? && Folds(e.bop) {
      FoldsModulo(e.left, w, l, bits);
      FoldsModulo(e.right, w, l, bits);
      BinaryFoldsExactly(e.bop, e.left, e.right, w, l, bits);
    } else if e.Ternary? {
      FoldsModulo(e.cond, w, l, bits);
      TernaryFolds(e, w, l);
      if Taken(e, w, l).Some? { FoldsModulo(Taken(e, w, l).value, w, l, bits); }
    } else if e.Concat? {
      PartsModulo(e.parts, w, l, bits);
      ConcatFoldsRight(e, w, l, bits);
    } else {
      ExactFolds(e, w, l, bits);
    }
  }

  lemma {:induction false} PartsModulo(parts: seq<Part>, w: World, l: Limit, bits: nat)
    requires bits == FOLD_BITS && ModularParts(parts, w, l, bits) && HarmlessParts(parts, w, l, bits)
    ensures PartsFold(parts, w, l, bits)
    decreases Rank(w, l), parts, 0
  {
    if parts != [] {
      var Part(expr, _) := parts[0];
      assert (parts decreases to parts[0]) && (parts[0] decreases to expr);
      FoldsModulo(expr, w, l, bits);
      PartsModulo(parts[1..], w, l, bits);
    }
  }

  /** The expression and everything joined in it this way, or in what it follows, folds right, and takes the right
      branches. */
  ghost predicate AllRight(e: Expr, w: World, l: Limit, bits: nat)
    decreases Rank(w, l), e, 1
  {
    FoldsToExact(e, w, l, bits) &&
    if Inner(e).Some? then AllRight(Inner(e).value, w, l, bits)
    else if e.Ident? then Follows(e, w, l) ==> AllRight(Followed(e, w, l), w, Inside(e, w, l), bits)
    else if e.Binary? && Folds(e.bop) then AllRight(e.left, w, l, bits) && AllRight(e.right, w, l, bits)
    else if e.Ternary? then
      && AllRight(e.cond, w, l, bits) && SameBranch(e.cond, w, l)
      && (Taken(e, w, l).Some? ==> AllRight(Taken(e, w, l).value, w, l, bits))
    else e.Concat? ==> AllRightParts(e.parts, w, l, bits)
  }

  ghost predicate AllRightParts(parts: seq<Part>, w: World, l: Limit, bits: nat)
    decreases Rank(w, l), parts, 0
  {
    parts == [] ||
    var Part(expr, _) := parts[0];
    assert (parts decreases to parts[0]) && (parts[0] decreases to expr);
    AllRight(expr, w, l, bits) && AllRightParts(parts[1..], w, l, bits)
  }

  lemma {:induction false} HarmlessIsAllRight(e: Expr, w: World, l: Limit, bits: nat)
    requires bits == FOLD_BITS && Modular(e, w, l, bits) && Harmless(e, w, l, bits)
    ensures AllRight(e, w, l, bits)
    decreases Rank(w, l), e, 1
  {
    FoldsModulo(e, w, l, bits);
    if Inner(e).Some? {
      HarmlessIsAllRight(Inner(e).value, w, l, bits);
    } else if e.Ident? {
      if Follows(e, w, l) { HarmlessIsAllRight(Followed(e, w, l), w, Inside(e, w, l), bits); }
    } else if e.Binary? && Folds(e.bop) {
      HarmlessIsAllRight(e.left, w, l, bits);
      HarmlessIsAllRight(e.right, w, l, bits);
    } else if e.Ternary? {
      HarmlessIsAllRight(e.cond, w, l, bits);
      if Taken(e, w, l).Some? { HarmlessIsAllRight(Taken(e, w, l).value, w, l, bits); }
    } else if e.Concat? {
      HarmlessPartsAreRight(e.parts, w, l, bits);
    }
  }

  lemma {:induction false} HarmlessPartsAreRight(parts: seq<Part>, w: World, l: Limit, bits: nat)
    requires bits == FOLD_BITS && ModularParts(parts, w, l, bits) && HarmlessParts(parts, w, l, bits)
    ensures AllRightParts(parts, w, l, bits)
    decreases Rank(w, l), parts, 0
  {
    if parts != [] {
      var Part(expr, _) := parts[0];
      assert (parts decreases to parts[0]) && (parts[0] decreases to expr);
      HarmlessIsAllRight(expr, w, l, bits);
      HarmlessPartsAreRight(parts[1..], w, l, bits);
    }
  }

  lemma {:induction false} AllRightIsHarmless(e: Expr, w: World, l: Limit, bits: nat)
    requires bits == FOLD_BITS && Modular(e, w, l, bits) && AllRight(e, w, l, bits)
    ensures Harmless(e, w, l, bits)
    decreases Rank(w, l), e, 1
  {
    if Inner(e).Some? {
      AllRightIsHarmless(Inner(e).value, w, l, bits);
      RightInner(e, w, l, bits);
      InnerDecides(e, w, l, bits);
    } else if e.Ident? {
      if Follows(e, w, l) { AllRightIsHarmless(Followed(e, w, l), w, Inside(e, w, l), bits); }
    } else if e.Binary? && Folds(e.bop) {
      AllRightIsHarmless(e.left, w, l, bits);
      AllRightIsHarmless(e.right, w, l, bits);
      BinaryFoldsExactly(e.bop, e.left, e.right, w, l, bits);
    } else if e.Ternary? {
      AllRightIsHarmless(e.cond, w, l, bits);
      if Taken(e, w, l).Some? { AllRightIsHarmless(Taken(e, w, l).value, w, l, bits); }
    } else if e.Concat? {
      RightPartsAreHarmless(e.parts, w, l, bits);
    }
  }

  lemma RightInner(e: Expr, w: World, l: Limit, bits: nat)
    requires AllRight(e, w, l, bits) && Inner(e).Some?
    ensures FoldsToExact(Inner(e).value, w, l, bits)
  {
  }

  lemma {:induction false} RightPartsAreHarmless(parts: seq<Part>, w: World, l: Limit, bits: nat)
    requires bits == FOLD_BITS && ModularParts(parts, w, l, bits) && AllRightParts(parts, w, l, bits)
    ensures HarmlessParts(parts, w, l, bits)
    decreases Rank(w, l), parts, 0
  {
    if parts != [] {
      var Part(expr, _) := parts[0];
      assert (parts decreases to parts[0]) && (parts[0] decreases to expr);
      AllRightIsHarmless(expr, w, l, bits);
      RightPartsAreHarmless(parts[1..], w, l, bits);
    }
  }

  /** Exactly: all of an expression folds right if and only if nothing in it is spoilt. */
  lemma AllRightExactly(e: Expr, w: World, l: Limit, bits: nat)
    requires bits == FOLD_BITS && Modular(e, w, l, bits)
    ensures AllRight(e, w, l, bits) <==> Harmless(e, w, l, bits)
  {
    if Harmless(e, w, l, bits) { HarmlessIsAllRight(e, w, l, bits); }
    if AllRight(e, w, l, bits) { AllRightIsHarmless(e, w, l, bits); }
  }

  /** Exact for any width up to the bound: no bit that fits is wrong. */
  lemma ExactInEveryWidth(e: Expr, w: World, l: Limit, bits: nat, width: nat)
    requires bits == FOLD_BITS && Modular(e, w, l, bits) && Harmless(e, w, l, bits) && width <= 0x1_0000
    ensures Eval(e, w, l).Value? <==> Exact(e, w, l).Some?
    ensures Eval(e, w, l).Value? ==> Eval(e, w, l).value % Pow2(width) == Exact(e, w, l).value % Pow2(width)
  {
    FoldsModulo(e, w, l, bits);
    if Eval(e, w, l).Value? { CongruentLower(Eval(e, w, l).value, Exact(e, w, l).value, width, bits); }
  }

  // ---------------------------------------------------------------- conditions read off the expression

  /** Counts, exponents, conditions and what is shifted right or selected from are not reduced (literals never are), and
      neither is a base under a negative exponent. */
  predicate PlainCounts(e: Expr, w: World, l: Limit, bits: nat)
    decreases Rank(w, l), e, 1
  {
    if Inner(e).Some? then
      PlainCounts(Inner(e).value, w, l, bits) && (IsSelect(e) ==> Unreduced(e.target, w, l, bits))
    else if e.Ident? then Follows(e, w, l) ==> PlainCounts(Followed(e, w, l), w, Inside(e, w, l), bits)
    else if e.Binary? && Folds(e.bop) then
      var (op, x, y) := (e.bop, e.left, e.right);
      && PlainCounts(x, w, l, bits) && PlainCounts(y, w, l, bits)
      && (op.Shl? || op.Pow? || op.Shr? ==> Unreduced(y, w, l, bits))
      && (op.Shr? || (op.Pow? && Exact(y, w, l).Some? && Exact(y, w, l).value < 0) ==> Unreduced(x, w, l, bits))
    else if e.Ternary? then
      && PlainCounts(e.cond, w, l, bits) && Unreduced(e.cond, w, l, bits)
      && (Taken(e, w, l).Some? ==> PlainCounts(Taken(e, w, l).value, w, l, bits))
    else e.Concat? ==> PlainCountsInParts(e.parts, w, l, bits)
  }

  predicate PlainCountsInParts(parts: seq<Part>, w: World, l: Limit, bits: nat)
    decreases Rank(w, l), parts, 0
  {
    parts == [] ||
    var Part(expr, _) := parts[0];
    assert (parts decreases to parts[0]) && (parts[0] decreases to expr);
    PlainCounts(expr, w, l, bits) && PlainCountsInParts(parts[1..], w, l, bits)
  }

  lemma PlainCountFoldsRight(op: BinOp, x: Expr, y: Expr, w: World, l: Limit, bits: nat)
    requires op.Shl? || op.Pow? || op.Shr? ==> IsExact(y, w, l)
    requires op.Shr? || (op.Pow? && Exact(y, w, l).Some? && Exact(y, w, l).value < 0) ==> IsExact(x, w, l)
    ensures FoldsRightOver(op, x, y, w, l, bits)
  {
  }

  lemma PlainSelectFoldsRight(e: Expr, w: World, l: Limit, bits: nat)
    requires IsSelect(e) && IsExact(e.target, w, l)
    ensures SelectFoldsRightOver(e, w, l, bits)
  {
  }

  lemma {:induction false} PlainCountsAreHarmless(e: Expr, w: World, l: Limit, bits: nat)
    requires bits == FOLD_BITS && PlainCounts(e, w, l, bits)
    ensures Harmless(e, w, l, bits)
    decreases Rank(w, l), e, 2
  {
    if Inner(e).Some? {
      PlainCountsAreHarmless(Inner(e).value, w, l, bits);
      if IsSelect(e) {
        FoldsExactly(e.target, w, l, bits);
        PlainSelectFoldsRight(e, w, l, bits);
      }
    } else if e.Ident? {
      if Follows(e, w, l) { PlainCountsAreHarmless(Followed(e, w, l), w, Inside(e, w, l), bits); }
    } else if e.Binary? {
      PlainOperatorIsHarmless(e, w, l, bits);
    } else if e.Ternary? {
      PlainCountsAreHarmless(e.cond, w, l, bits);
      FoldsExactly(e.cond, w, l, bits);
      if Taken(e, w, l).Some? { PlainCountsAreHarmless(Taken(e, w, l).value, w, l, bits); }
    } else if e.Concat? {
      PlainPartsAreHarmless(e.parts, w, l, bits);
    }
  }

  lemma {:induction false} PlainOperatorIsHarmless(e: Expr, w: World, l: Limit, bits: nat)
    requires bits == FOLD_BITS && PlainCounts(e, w, l, bits) && e.Binary?
    ensures Harmless(e, w, l, bits)
    decreases Rank(w, l), e, 1
  {
    var op, x, y := e.bop, e.left, e.right;
    if Folds(op) {
      PlainCountsAreHarmless(x, w, l, bits);
      PlainCountsAreHarmless(y, w, l, bits);
      if op.Shl? || op.Pow? || op.Shr? { FoldsExactly(y, w, l, bits); }
      if op.Shr? || (op.Pow? && Exact(y, w, l).Some? && Exact(y, w, l).value < 0) { FoldsExactly(x, w, l, bits); }
      PlainCountFoldsRight(op, x, y, w, l, bits);
    }
  }

  lemma {:induction false} PlainPartsAreHarmless(parts: seq<Part>, w: World, l: Limit, bits: nat)
    requires bits == FOLD_BITS && PlainCountsInParts(parts, w, l, bits)
    ensures HarmlessParts(parts, w, l, bits)
    decreases Rank(w, l), parts, 0
  {
    if parts != [] {
      var Part(expr, _) := parts[0];
      assert (parts decreases to parts[0]) && (parts[0] decreases to expr);
      PlainCountsAreHarmless(expr, w, l, bits);
      PlainPartsAreHarmless(parts[1..], w, l, bits);
    }
  }

  // ---------------------------------------------------------------- inputs that fold wrong

  function Number(v: int): Expr { Literal(v, None, false) }

  /** 1 << bits, which folds to 0. */
  function Cut(one: int, bits: nat): Expr { Binary(Shl, Number(one), Number(bits)) }

  lemma NumberFolds(v: int, w: World, l: Limit)
    ensures Eval(Number(v), w, l) == Value(v) && Exact(Number(v), w, l) == Some(v)
  {
  }

  /** An operation over operands that fold to a and r but are exactly base and c. */
  lemma Computed(op: BinOp, x: Expr, y: Expr, w: World, l: Limit, bits: nat, a: int, base: int, r: int, c: int)
    requires bits == FOLD_BITS && Eval(x, w, l) == Value(a) && Eval(y, w, l) == Value(r)
    requires Exact(x, w, l) == Some(base) && Exact(y, w, l) == Some(c)
    ensures Answered(Eval(Binary(op, x, y), w, l)) == BinaryConst(op, a, r, bits)
    ensures BinaryConst(op, a, r, bits).None? ==> Eval(Binary(op, x, y), w, l) == Fail(NoAnswer)
    ensures Exact(Binary(op, x, y), w, l) == ExactBinary(op, base, c)
  {
    FoldedOperands(op, x, y, w, l, bits, a, r);
    ExactOperands(op, x, y, w, l, base, c);
  }

  lemma CutFoldsToZero(one: int, w: World, l: Limit, bits: nat)
    requires bits == FOLD_BITS && one == 1
    ensures Eval(Cut(one, bits), w, l) == Value(0) && Exact(Cut(one, bits), w, l) == Some(Pow2(bits))
  {
    NumberFolds(one, w, l);
    NumberFolds(bits, w, l);
    Computed(Shl, Number(one), Number(bits), w, l, bits, one, one, bits, bits);
    assert 1 * Pow2(bits) == Pow2(bits);
  }

  /** 1 << (1 << bits) folds to 1, because its count folds to 0; the exact value has no bit below the bound. */
  lemma ReducedCountIsWrong(one: int, w: World, l: Limit, bits: nat)
    requires bits == FOLD_BITS && one == 1
    ensures var e := Binary(Shl, Number(one), Cut(one, bits));
            && Eval(e, w, l) == Value(1)
            && Exact(e, w, l).Some? && !Congruent(1, Exact(e, w, l).value, Pow2(bits))
  {
    CutFoldsToZero(one, w, l, bits);
    NumberFolds(one, w, l);
    Computed(Shl, Number(one), Cut(one, bits), w, l, bits, one, one, 0, Pow2(bits));
    Exceeds(bits);
    Divides(1, bits, Pow2(bits));
    ZeroIsNotOne(1 * Pow2(Pow2(bits)), bits);
  }

  lemma ZeroIsNotOne(zero: int, bits: nat)
    requires bits > 0 && Congruent(zero, 0, Pow2(bits))
    ensures !Congruent(1, zero, Pow2(bits)) && !Congruent(0, 1, Pow2(bits))
  {
    OneIsNotZero(bits);
    EitherWay(0, 1, Pow2(bits));
    SameAsZero(zero, 1, Pow2(bits));
    ZeroRemainder(1, Pow2(bits));
  }

  /** 1 << (2^bits - (1 << bits)) folds to 0, because its count folds to 2^bits; its count is exactly 0. */
  lemma CancelledCountIsWrong(one: int, w: World, l: Limit, bits: nat)
    requires bits == FOLD_BITS && one == 1
    ensures var e := Binary(Shl, Number(one), Binary(Sub, Number(Pow2(bits)), Cut(one, bits)));
            Eval(e, w, l) == Value(0) && Exact(e, w, l) == Some(1) && !Congruent(0, 1, Pow2(bits))
  {
    var count := Binary(Sub, Number(Pow2(bits)), Cut(one, bits));
    CutFoldsToZero(one, w, l, bits);
    Exceeds(bits);
    NumberFolds(Pow2(bits), w, l);
    Computed(Sub, Number(Pow2(bits)), Cut(one, bits), w, l, bits, Pow2(bits), Pow2(bits), 0, Pow2(bits));
    NumberFolds(one, w, l);
    Computed(Shl, Number(one), count, w, l, bits, one, one, Pow2(bits), 0);
    Same(0, Pow2(bits));
    ZeroIsNotOne(0, bits);
  }

  /** 1 << ((1 << bits) - 1) has no answer, because its count folds to -1; the exact value is 0 in every width. */
  lemma NegativeCountHasNoAnswer(one: int, w: World, l: Limit, bits: nat)
    requires bits == FOLD_BITS && one == 1
    ensures var e := Binary(Shl, Number(one), Binary(Sub, Cut(one, bits), Number(one)));
            Eval(e, w, l) == Fail(NoAnswer) && Exact(e, w, l).Some? && Congruent(Exact(e, w, l).value, 0, Pow2(bits))
  {
    var count := Binary(Sub, Cut(one, bits), Number(one));
    CutFoldsToZero(one, w, l, bits);
    NumberFolds(one, w, l);
    Computed(Sub, Cut(one, bits), Number(one), w, l, bits, 0, Pow2(bits), one, one);
    Exceeds(bits);
    Computed(Shl, Number(one), count, w, l, bits, one, one, -1, Pow2(bits) - 1);
    Divides(1, bits, Pow2(bits) - 1);
  }

  /** 2 ** (1 << bits) folds to 1; the exact value has no bit below the bound. */
  lemma EvenPowerIsWrong(one: int, w: World, l: Limit, bits: nat)
    requires bits == FOLD_BITS && one == 1
    ensures var e := Binary(Pow, Number(2 * one), Cut(one, bits));
            && Eval(e, w, l) == Value(1)
            && Exact(e, w, l).Some? && !Congruent(1, Exact(e, w, l).value, Pow2(bits))
  {
    CutFoldsToZero(one, w, l, bits);
    NumberFolds(2 * one, w, l);
    Computed(Pow, Number(2 * one), Cut(one, bits), w, l, bits, 2, 2, 0, Pow2(bits));
    Exceeds(bits);
    EvenPower(2, Pow2(bits));
    SmallerModulus(Power(2, Pow2(bits)), 0, bits, Pow2(bits));
    ZeroIsNotOne(Power(2, Pow2(bits)), bits);
  }

  /** (1 << bits) >> 1 folds to 0, though its count is a literal; the exact value has the top bit below the bound. */
  lemma ShiftedBackIsWrong(one: int, w: World, l: Limit, bits: nat)
    requires bits == FOLD_BITS && one == 1
    ensures var e := Binary(Shr, Cut(one, bits), Number(one));
            && Eval(e, w, l) == Value(0) && Exact(e, w, l) == Some(Pow2(bits - 1))
            && !Congruent(0, Pow2(bits - 1), Pow2(bits))
  {
    CutFoldsToZero(one, w, l, bits);
    NumberFolds(one, w, l);
    Computed(Shr, Cut(one, bits), Number(one), w, l, bits, 0, Pow2(bits), one, one);
    assert Pow2(1) == 2 && Pow2(bits) == 2 * Pow2(bits - 1);
    Same(0, Pow2(bits));
    SameAsZero(0, Pow2(bits - 1), Pow2(bits));
    Unique(Pow2(bits - 1), 0, Pow2(bits - 1), Pow2(bits));
  }

  /** Division, comparison and selection see what was cut as well: (1 << bits) / 2 folds to 0 ... */
  lemma DividedIsWrong(one: int, w: World, l: Limit, bits: nat)
    requires bits == FOLD_BITS && one == 1
    ensures var e := Binary(Div, Cut(one, bits), Number(2 * one));
            && Eval(e, w, l) == Value(0) && Exact(e, w, l) == Some(Pow2(bits - 1))
            && !Congruent(0, Pow2(bits - 1), Pow2(bits))
  {
    CutFoldsToZero(one, w, l, bits);
    ShiftedBackIsWrong(one, w, l, bits);
    assert Pow2(bits) == 2 * Pow2(bits - 1);
    NumberFolds(2 * one, w, l);
    Computed(Div, Cut(one, bits), Number(2 * one), w, l, bits, 0, Pow2(bits), 2, 2);
  }

  /** ... and (1 << bits) == 0 to 1 ... */
  lemma ComparedIsWrong(one: int, w: World, l: Limit, bits: nat)
    requires bits == FOLD_BITS && one == 1
    ensures var e := Binary(Eq, Cut(one, bits), Number(0));
            Eval(e, w, l) == Value(1) && Exact(e, w, l) == Some(0)
  {
    CutFoldsToZero(one, w, l, bits);
    NumberFolds(0, w, l);
    Computed(Eq, Cut(one, bits), Number(0), w, l, bits, 0, Pow2(bits), 0, 0);
  }

  /** ... and (1 << bits) && 1 to 0 ... */
  lemma ConjoinedIsWrong(one: int, w: World, l: Limit, bits: nat)
    requires bits == FOLD_BITS && one == 1
    ensures var e := Binary(LogAnd, Cut(one, bits), Number(one));
            Eval(e, w, l) == Value(0) && Exact(e, w, l) == Some(1)
  {
    CutFoldsToZero(one, w, l, bits);
    NumberFolds(one, w, l);
    Computed(LogAnd, Cut(one, bits), Number(one), w, l, bits, 0, Pow2(bits), one, one);
  }

  /** ... and bit number bits of it to 0. */
  lemma SelectedIsWrong(one: int, w: World, l: Limit, bits: nat)
    requires bits == FOLD_BITS && one == 1
    ensures var e := RangeSelect(Cut(one, bits), Number(bits), Number(bits));
            Eval(e, w, l) == Value(0) && Exact(e, w, l) == Some(1)
  {
    CutFoldsToZero(one, w, l, bits);
    NumberFolds(bits, w, l);
    assert Pow2(1) == 2;
    Unique(Pow2(bits), 1, 0, Pow2(bits));
    Unique(0, 0, 0, Pow2(bits));
  }
}
