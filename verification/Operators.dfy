/** What the remaining operators compute, told without their algorithms. */
module Operators {
  import opened Numbers
  import opened Options
  import opened ConstOps
  import opened ConstEval
  import opened Congruences

  /** Division truncates toward zero and the remainder has the dividend's sign; only zero cannot be divided by. */
  lemma DivisionTruncates(a: int, b: int)
    ensures b == 0 ==> ConstDiv(a, b) == None && ConstMod(a, b) == None
    ensures b != 0 ==>
              && ConstDiv(a, b).Some? && ConstMod(a, b).Some?
              && a == b * ConstDiv(a, b).value + ConstMod(a, b).value
              && Abs(ConstMod(a, b).value) < Abs(b)
              && (ConstMod(a, b).value == 0 || (ConstMod(a, b).value < 0) == (a < 0))
  {
    if b != 0 {
      var n, m := Abs(a), Abs(b);
      var q: int := n / m;
      assert n == m * q + n % m;
      assert b * (0 - q) == 0 - b * q && (0 - b) * q == 0 - b * q;
    }
  }

  lemma {:induction false} BitAndHalves(a: int, b: int)
    ensures BitAnd(a, b) / 2 == BitAnd(a / 2, b / 2)
    ensures BitAnd(a, b) % 2 == 1 <==> a % 2 == 1 && b % 2 == 1
  {
  }

  lemma Halves(a: int, b: int)
    ensures BitAnd(a, b) / 2 == BitAnd(a / 2, b / 2) && (BitAnd(a, b) % 2 == 1 <==> a % 2 == 1 && b % 2 == 1)
    ensures BitOr(a, b) / 2 == BitOr(a / 2, b / 2) && (BitOr(a, b) % 2 == 1 <==> a % 2 == 1 || b % 2 == 1)
    ensures BitXor(a, b) / 2 == BitXor(a / 2, b / 2) && (BitXor(a, b) % 2 == 1 <==> (a % 2 == 1) != (b % 2 == 1))
    ensures Invert(a) / 2 == Invert(a / 2) && (Invert(a) % 2 == 1 <==> a % 2 != 1)
  {
    BitAndHalves(a, b);
    SumHalves(a, b, BitAnd(a, b), BitAnd(a / 2, b / 2));
  }

  lemma SumHalves(a: int, b: int, c: int, d: int)
    requires c / 2 == d && (c % 2 == 1 <==> a % 2 == 1 && b % 2 == 1)
    ensures (a + b - c) / 2 == a / 2 + b / 2 - d && ((a + b - c) % 2 == 1 <==> a % 2 == 1 || b % 2 == 1)
    ensures (a + b - 2 * c) / 2 == a / 2 + b / 2 - 2 * d && ((a + b - 2 * c) % 2 == 1 <==> (a % 2 == 1) != (b % 2 == 1))
  {
  }

  /** The bitwise operators act bit by bit on two's complement integers of any size. */
  lemma {:induction false} BitwiseByBit(a: int, b: int, i: nat)
    ensures BitAt(BitAnd(a, b), i) == (BitAt(a, i) && BitAt(b, i))
    ensures BitAt(BitOr(a, b), i) == (BitAt(a, i) || BitAt(b, i))
    ensures BitAt(BitXor(a, b), i) == (BitAt(a, i) != BitAt(b, i))
    ensures BitAt(Invert(a), i) == !BitAt(a, i)
    decreases i
  {
    Halves(a, b);
    if i > 0 { BitwiseByBit(a / 2, b / 2, i - 1); }
  }

  /** A sized signed literal's pattern is read as two's complement. */
  lemma SignedLiteralReads(v: int, width: nat)
    requires width > 0 && 0 <= v < Pow2(width)
    ensures var r := LiteralValue(v, Some(width), true);
            0 - Pow2(width - 1) <= r < Pow2(width - 1) && r % Pow2(width) == v
  {
    var half := Pow2(width - 1);
    if v < half {
      Unique(v, 0, v, half);
      Unique(v, 0, v, 2 * half);
    } else {
      Unique(v, 1, v - half, half);
      Unique(v - 2 * half, -1, v, 2 * half);
    }
  }

  // ---------------------------------------------------------------- operators of evaluated expressions

  /** Both operands have values. */
  predicate Valued(x: Expr, y: Expr, w: World, l: Limit, a: int, b: int) {
    Eval(x, w, l) == Value(a) && Eval(y, w, l) == Value(b)
  }

  function Truly(b: bool): Result { Value(if b then 1 else 0) }

  lemma BinaryValue(op: BinOp, x: Expr, y: Expr, w: World, l: Limit, a: int, b: int)
    requires Valued(x, y, w, l, a, b)
    ensures Eval(Binary(op, x, y), w, l) == Answer(BinaryConst(op, a, b, FOLD_BITS))
  {
  }

  lemma UnaryValue(op: UnOp, x: Expr, w: World, l: Limit, a: int)
    requires Eval(x, w, l) == Value(a)
    ensures Eval(Unary(op, x), w, l) == Answer(UnaryConst(op, a))
  {
  }

  /** Of <, == and > exactly one gives 1, told by the sign of the difference ... */
  lemma ComparisonsDecide(x: Expr, y: Expr, w: World, l: Limit, a: int, b: int)
    requires Valued(x, y, w, l, a, b)
    ensures Eval(Binary(Lt, x, y), w, l) == Truly(b - a > 0)
    ensures Eval(Binary(Gt, x, y), w, l) == Truly(a - b > 0)
    ensures Eval(Binary(Eq, x, y), w, l) == Truly(a - b == 0)
  {
    BinaryValue(Lt, x, y, w, l, a, b);
    BinaryValue(Gt, x, y, w, l, a, b);
    BinaryValue(Eq, x, y, w, l, a, b);
  }

  predicate Opposites(r: Result, r': Result) { r in {Value(0), Value(1)} && r' in {Value(0), Value(1)} && r != r' }

  /** ... and the others are their opposites. */
  lemma OppositeComparisons(x: Expr, y: Expr, w: World, l: Limit, a: int, b: int)
    requires Valued(x, y, w, l, a, b)
    ensures Opposites(Eval(Binary(Ge, x, y), w, l), Truly(b - a > 0))
    ensures Opposites(Eval(Binary(Le, x, y), w, l), Truly(a - b > 0))
    ensures Opposites(Eval(Binary(Ne, x, y), w, l), Truly(a - b == 0))
  {
    BinaryValue(Ge, x, y, w, l, a, b);
    BinaryValue(Le, x, y, w, l, a, b);
    BinaryValue(Ne, x, y, w, l, a, b);
  }

  /** Logical operators look at whether operands are zero. */
  lemma LogicDecides(x: Expr, y: Expr, w: World, l: Limit, a: int, b: int)
    requires Valued(x, y, w, l, a, b)
    ensures Eval(Binary(LogAnd, x, y), w, l) == Truly(a != 0 && b != 0)
    ensures Eval(Binary(LogOr, x, y), w, l) == Truly(!(a == 0 && b == 0))
    ensures Eval(Unary(Bang, x), w, l) == Truly(a == 0)
    ensures Eval(Unary(OrReduce, x), w, l) == Truly(a != 0) && Eval(Unary(NorReduce, x), w, l) == Truly(a == 0)
  {
    BinaryValue(LogAnd, x, y, w, l, a, b);
    BinaryValue(LogOr, x, y, w, l, a, b);
    UnaryValue(Bang, x, w, l, a);
    UnaryValue(OrReduce, x, w, l, a);
    UnaryValue(NorReduce, x, w, l, a);
  }

  /** Bit i of a bitwise operation is the operation on the bits i. */
  lemma BitsOfBitwise(x: Expr, y: Expr, w: World, l: Limit, a: int, b: int, i: nat)
    requires Valued(x, y, w, l, a, b)
    ensures var r := Eval(Binary(And, x, y), w, l); r.Value? && BitAt(r.value, i) == (BitAt(a, i) && BitAt(b, i))
    ensures var r := Eval(Binary(Or, x, y), w, l); r.Value? && BitAt(r.value, i) == (BitAt(a, i) || BitAt(b, i))
    ensures var r := Eval(Binary(Xor, x, y), w, l); r.Value? && BitAt(r.value, i) == (BitAt(a, i) != BitAt(b, i))
    ensures var r := Eval(Binary(Xnor, x, y), w, l); r.Value? && BitAt(r.value, i) == (BitAt(a, i) == BitAt(b, i))
    ensures var r := Eval(Unary(Tilde, x), w, l); r.Value? && BitAt(r.value, i) == !BitAt(a, i)
  {
    BinaryValue(And, x, y, w, l, a, b);
    BinaryValue(Or, x, y, w, l, a, b);
    BinaryValue(Xor, x, y, w, l, a, b);
    BinaryValue(Xnor, x, y, w, l, a, b);
    BitwiseByBit(a, b, i);
    BitwiseByBit(BitXor(a, b), b, i);
  }

  /** Signs, sums and products are those of the integers. */
  lemma ArithmeticValues(x: Expr, y: Expr, w: World, l: Limit, a: int, b: int)
    requires Valued(x, y, w, l, a, b)
    ensures Eval(Binary(Add, x, y), w, l) == Value(a + b) && Eval(Binary(Sub, x, y), w, l) == Value(a - b)
    ensures Eval(Binary(Mul, x, y), w, l) == Value(a * b)
    ensures Eval(Unary(Plus, x), w, l) == Value(a) && Eval(Unary(Minus, x), w, l) == Value(0 - a)
  {
    BinaryValue(Add, x, y, w, l, a, b);
    BinaryValue(Sub, x, y, w, l, a, b);
    BinaryValue(Mul, x, y, w, l, a, b);
  }

  /** Quotient and remainder: truncated toward zero, with the dividend's sign; none by zero. */
  lemma QuotientValues(x: Expr, y: Expr, w: World, l: Limit, a: int, b: int)
    requires Valued(x, y, w, l, a, b)
    ensures b == 0 ==>
              Eval(Binary(Div, x, y), w, l) == Fail(NoAnswer) && Eval(Binary(Mod, x, y), w, l) == Fail(NoAnswer)
    ensures b != 0 ==>
              var q, r := Eval(Binary(Div, x, y), w, l), Eval(Binary(Mod, x, y), w, l);
              && q.Value? && r.Value? && a == b * q.value + r.value && Abs(r.value) < Abs(b)
              && (r.value == 0 || (r.value < 0) == (a < 0))
  {
    BinaryValue(Div, x, y, w, l, a, b);
    BinaryValue(Mod, x, y, w, l, a, b);
    DivisionTruncates(a, b);
  }

  lemma RoundsDown(a: int, m: int)
    requires m > 0
    ensures 0 <= a - m * (a / m) < m
  {
    assert a == m * (a / m) + a % m;
  }

  /** Shifts by negative counts have no answer, and a left shift by less than 65536 is not cut. */
  lemma LeftShiftValues(x: Expr, y: Expr, w: World, l: Limit, a: int, b: int)
    requires Valued(x, y, w, l, a, b)
    ensures b < 0 ==> Eval(Binary(Shl, x, y), w, l) == Fail(NoAnswer)
    ensures 0 <= b < 0x1_0000 ==> Eval(Binary(Shl, x, y), w, l) == Value(a * Pow2(b))
  {
    BinaryValue(Shl, x, y, w, l, a, b);
  }

  /** A right shift rounds down. */
  lemma RightShiftValues(x: Expr, y: Expr, w: World, l: Limit, a: int, b: int)
    requires Valued(x, y, w, l, a, b)
    ensures var r := Eval(Binary(Shr, x, y), w, l);
            if b < 0 then r == Fail(NoAnswer) else r.Value? && 0 <= a - Pow2(b) * r.value < Pow2(b)
  {
    BinaryValue(Shr, x, y, w, l, a, b);
    if b >= 0 { RoundsDown(a, Pow2(b)); }
  }

  lemma PowerValues(x: Expr, y: Expr, w: World, l: Limit, a: int, b: int)
    requires Valued(x, y, w, l, a, b)
    ensures b >= 0 && (Abs(a) <= 1 || b * BitLength(Abs(a)) <= 0x1_0000) ==>
              Eval(Binary(Pow, x, y), w, l) == Value(Power(a, b))
    ensures b < 0 && a == 0 ==> Eval(Binary(Pow, x, y), w, l) == Fail(NoAnswer)
    ensures b < 0 && a != 0 ==>
              var r := Eval(Binary(Pow, x, y), w, l);
              r.Value? && if Abs(a) == 1 then r.value * Power(a, 0 - b) == 1 else r.value == 0
  {
    BinaryValue(Pow, x, y, w, l, a, b);
    if b < 0 { PowersOfUnits(0 - b); }
  }

  lemma {:induction false} PowersOfUnits(n: nat)
    ensures Power(1, n) == 1 && Power(-1, n) == if n % 2 == 1 then -1 else 1
  {
    if n > 0 { PowersOfUnits(n - 1); }
  }

  /** How many of the lowest n bits are set. */
  function SetBits(v: int, n: nat): nat {
    if n == 0 then 0 else SetBits(v, n - 1) + if BitAt(v, n - 1) then 1 else 0
  }

  lemma {:induction false} SetBitsHalve(v: int, n: nat)
    ensures SetBits(v, n + 1) == (if v % 2 == 1 then 1 else 0) + SetBits(v / 2, n)
  {
    if n > 0 { SetBitsHalve(v, n - 1); }
  }

  lemma {:induction false} PopCountCounts(v: nat, n: nat)
    requires v < Pow2(n)
    ensures PopCount(v) == SetBits(v, n)
  {
    if n > 0 {
      PopCountCounts(v / 2, n - 1);
      SetBitsHalve(v, n - 1);
    }
  }

  lemma {:induction false} NoSetBits(n: nat)
    ensures SetBits(0, n) == 0
    decreases n
  {
    if n > 0 {
      NoSetBits(n - 1);
      SetBitsHalve(0, n - 1);
    }
  }

  /** Reduction xor is the parity of the set bits, and has no answer for a negative number; reduction and, nand and xnor
      never have one. */
  lemma ReductionValues(x: Expr, w: World, l: Limit, a: int, n: nat)
    requires Eval(x, w, l) == Value(a)
    ensures 0 <= a < Pow2(n) ==> Eval(Unary(XorReduce, x), w, l) == Value(SetBits(a, n) % 2)
    ensures a < 0 ==> Eval(Unary(XorReduce, x), w, l) == Fail(NoAnswer)
    ensures Eval(Unary(AndReduce, x), w, l) == Fail(NoAnswer) && Eval(Unary(NandReduce, x), w, l) == Fail(NoAnswer)
    ensures Eval(Unary(XnorReduce, x), w, l) == Fail(NoAnswer)
  {
    UnaryValue(XorReduce, x, w, l, a);
    UnaryValue(AndReduce, x, w, l, a);
    UnaryValue(NandReduce, x, w, l, a);
    UnaryValue(XnorReduce, x, w, l, a);
    if 0 <= a < Pow2(n) { PopCountCounts(a, n); }
  }

  // ---------------------------------------------------------------- other kinds of nodes

  /** A conditional is the branch its condition chooses; sign casts, typical values and concatenations of one part are
      what they hold. */
  lemma ChosenBranch(c: Expr, x: Expr, y: Expr, part: Part, w: World, l: Limit)
    ensures Eval(c, w, l).Value? && Eval(c, w, l) != Value(0) ==> Eval(Ternary(c, x, y), w, l) == Eval(x, w, l)
    ensures Eval(c, w, l) == Value(0) ==> Eval(Ternary(c, x, y), w, l) == Eval(y, w, l)
    ensures Eval(SignCall(x), w, l) == Eval(Mintypmax(x), w, l) == Eval(x, w, l)
    ensures Eval(Concat([part]), w, l) == Eval(part.expr, w, l)
  {
  }

  /** A failing operand fails the operation, the left one first. */
  lemma FailurePasses(op: BinOp, uop: UnOp, x: Expr, y: Expr, z: Expr, w: World, l: Limit)
    ensures Eval(x, w, l).Fail? ==>
              && Eval(Binary(op, x, y), w, l) == Eval(Unary(uop, x), w, l) == Eval(x, w, l)
              && Eval(Ternary(x, y, z), w, l) == Eval(x, w, l)
    ensures Eval(x, w, l).Value? && Eval(y, w, l).Fail? ==> Eval(Binary(op, x, y), w, l) == Eval(y, w, l)
  {
  }

  /** A name is looked up by its path first, then by itself, then as a parameter, whose default value is followed. */
  lemma NamesInOrder(path: string, name: string, resolved: Option<int>, w: World, l: Limit)
    ensures var r := Eval(Ident(path, name, resolved), w, l);
            && (path in w.env ==> r == Value(w.env[path]))
            && (path !in w.env && name in w.env ==> r == Value(w.env[name]))
            && (path !in w.env && name !in w.env
                && (resolved == None || resolved.value !in w.params || w.params[resolved.value] == None) ==>
                  r == Fail(UnknownIdentifier))
  {
  }

  lemma {:induction false} LengthBounds(v: nat)
    ensures v < Pow2(BitLength(v)) && (v > 0 ==> Pow2(BitLength(v) - 1) <= v)
  {
    if v > 0 { LengthBounds(v / 2); }
  }

  lemma Clog2Value(x: Expr, w: World, l: Limit, v: int)
    requires Eval(x, w, l) == Value(v)
    ensures Eval(Clog2Call(x), w, l) == Value(if v > 0 then BitLength(v - 1) else 0)
  {
  }

  /** $clog2 is the least exponent whose power of two is no smaller, and 0 for what is not positive. */
  lemma Clog2IsLeast(x: Expr, w: World, l: Limit, v: int)
    requires Eval(x, w, l) == Value(v)
    ensures v <= 1 ==> Eval(Clog2Call(x), w, l) == Value(0)
    ensures v > 1 ==>
              var r := Eval(Clog2Call(x), w, l);
              r.Value? && r.value > 0 && Pow2(r.value - 1) < v <= Pow2(r.value)
  {
    Clog2Value(x, w, l, v);
    if v > 1 { LengthBounds(v - 1); }
  }

  lemma CastBits(s: Expr, x: Expr, w: World, l: Limit, n: int, v: int)
    requires Eval(s, w, l) == Value(n) && Eval(x, w, l) == Value(v)
    ensures Eval(WidthCast(s, x), w, l) == Bits(v, 0, n)
  {
  }

  lemma LowBits(v: int, n: int)
    ensures n < 0 ==> Bits(v, 0, n) == Fail(NegativeShift)
    ensures n >= 0 ==>
              var r := Bits(v, 0, n); r.Value? && 0 <= r.value < Pow2(n) && Congruent(r.value, v, Pow2(n))
  {
    if n >= 0 {
      assert v / Pow2(0) == v;
      Remainder(v, Pow2(n));
    }
  }

  /** A width cast leaves the number in [0, 2^n) that differs by a multiple of 2^n. */
  lemma CastValue(s: Expr, x: Expr, w: World, l: Limit, n: int, v: int)
    requires Eval(s, w, l) == Value(n) && Eval(x, w, l) == Value(v)
    ensures n < 0 ==> Eval(WidthCast(s, x), w, l) == Fail(NegativeShift)
    ensures n >= 0 ==>
              var r := Eval(WidthCast(s, x), w, l);
              r.Value? && 0 <= r.value < Pow2(n) && Congruent(r.value, v, Pow2(n))
  {
    CastBits(s, x, w, l, n, v);
    LowBits(v, n);
  }

  /** $pow is never cut and has no answer for a negative exponent. */
  lemma PowCallValue(x: Expr, y: Expr, w: World, l: Limit, a: int, b: int)
    requires Valued(x, y, w, l, a, b)
    ensures Eval(PowCall(x, y), w, l) == if b < 0 then Fail(NoAnswer) else Value(Power(a, b))
  {
  }

  /** $bits is a recorded width, or else the environment's. */
  lemma BitsCallValue(part: Part, w: World, l: Limit)
    ensures part.recorded != None ==> Eval(BitsCall(part), w, l) == Value(part.recorded.value)
    ensures part.recorded == None && part.expr.Ident? && "$bits:" + part.expr.name in w.env ==>
              Eval(BitsCall(part), w, l) == Value(w.env["$bits:" + part.expr.name])
  {
  }
}
