/** Values of context-determined Verilog expressions, bit by bit (sections 5.4 and 5.5 of IEEE 1364-2005).
    A value is the sequence of its bits, bit 0 first. */
module VerilogExpr {
  import opened Numbers
  import opened Options

  type Bits = seq<bool>

  datatype UnOp = Invert | Plus | Negate
                | LogNot | RedAnd | RedOr | RedXor | RedNand | RedNor | RedXnor

  datatype BinOp = BitAnd | BitOr | BitXor | BitXnor
                 | Shr | AShr | Shl | Add | Sub | Mul
                 | Eq | Ne | Lt | Le | Gt | Ge | LogAnd | LogOr | Implies | Equiv

  /** A constant position: written as a literal, or a parameter expression elaboration resolves. */
  datatype Constant = Known(value: int) | Unresolved(value: int)

  datatype Expr =
    | Ident(name: string)
    | Literal(value: int, width: Option<int>, signed: bool)
    | Unary(uop: UnOp, operand: Expr)
    | Binary(bop: BinOp, left: Expr, right: Expr)
    | Ternary(cond: Expr, yes: Expr, no: Expr)
    | Concat(parts: seq<Expr>)
    | Replicate(count: Constant, repeated: Expr)
    | BitSelect(target: Expr, index: Expr)
    | RangeSelect(target: Expr, msb: Constant, lsb: Constant)
    | PartSelect(target: Expr, base: Expr, partWidth: Constant, up: bool)
    | WidthCast(castWidth: Constant, operand: Expr)
    | SignCast(toSigned: bool, operand: Expr)

  /** A declaration: its width when it is a plain integer, its signedness, whether it is a memory. */
  datatype Decl = Decl(width: Option<int>, signed: bool, memory: bool)
  type Lookup = string -> Decl

  /** The current bits of every signal; a memory has one word per index, anything else uses index 0. */
  type Env = (string, int) -> Bits

  ghost predicate Conforms(env: Env, look: Lookup) {
    forall n, i :: |env(n, i)| == |env(n, 0)| && (look(n).width.Some? ==> |env(n, i)| == look(n).width.value)
  }

  predicate OneBitUnary(op: UnOp) { !(op.Invert? || op.Plus? || op.Negate?) }

  predicate OneBitBinary(op: BinOp) {
    op in {Eq, Ne, Lt, Le, Gt, Ge, LogAnd, LogOr, Implies, Equiv}
  }

  predicate Bitwise(op: BinOp) { op in {BitAnd, BitOr, BitXor, BitXnor} }

  predicate RightShift(op: BinOp) { op == Shr || op == AShr }

  // ---------------------------------------------------------------- integers and bits

  function Nat(x: int): nat { if x < 0 then 0 else x }

  function BitsOf(v: int, w: nat): Bits { seq(w, i requires 0 <= i => BitAt(v, i)) }

  function ToInt(b: Bits): nat {
    if b == [] then 0 else (if b[0] then 1 else 0) + 2 * ToInt(b[1..])
  }

  /** The value read as two's complement. */
  function ToSigned(b: Bits): int {
    if b != [] && b[|b| - 1] then -1 - ToInt(seq(|b|, i requires 0 <= i < |b| => !b[i])) else ToInt(b)
  }

  function Top(b: Bits): bool { b != [] && b[|b| - 1] }

  function Extend(b: Bits, signed: bool, w: nat): (r: Bits)
    ensures |r| == w
  {
    seq(w, i requires 0 <= i => if i < |b| then b[i] else signed && Top(b))
  }

  // ---------------------------------------------------------------- width and sign of an operand by itself

  function Signed(e: Expr, look: Lookup): bool {
    match e
    case Ident(n) => look(n).signed
    case Literal(_, _, signed) => signed
    case Unary(op, x) => !OneBitUnary(op) && Signed(x, look)
    case Binary(op, l, r) =>
      if OneBitBinary(op) then false
      else if RightShift(op) || op.Shl? then Signed(l, look)
      else Signed(l, look) && Signed(r, look)
    case Ternary(_, y, n) => Signed(y, look) && Signed(n, look)
    case BitSelect(t, _) => t.Ident? && look(t.name).memory && look(t.name).signed
    case WidthCast(_, x) => Signed(x, look)
    case SignCast(toSigned, _) => toSigned
    case _ => false
  }

  function LiteralWidth(v: int, width: Option<int>, signed: bool): nat {
    if width.Some? then Nat(width.value)
    else if signed && v > 0 then Max(32, BitLength(v) + 1)
    else 32
  }

  function SelfWidth(e: Expr, env: Env, look: Lookup): nat {
    match e
    case Ident(n) => |env(n, 0)|
    case Literal(v, w, s) => LiteralWidth(v, w, s)
    case Unary(op, x) => if OneBitUnary(op) then 1 else SelfWidth(x, env, look)
    case Binary(op, l, r) =>
      if OneBitBinary(op) then 1
      else if RightShift(op) || op.Shl? then SelfWidth(l, env, look)
      else Max(SelfWidth(l, env, look), SelfWidth(r, env, look))
    case Ternary(_, y, n) => Max(SelfWidth(y, env, look), SelfWidth(n, env, look))
    case Concat(parts) => SelfWidths(parts, env, look)
    case Replicate(c, x) => Nat(c.value) * SelfWidth(x, env, look)
    case BitSelect(t, _) => if t.Ident? && look(t.name).memory then |env(t.name, 0)| else 1
    case RangeSelect(_, m, l) => RangeWidth(m.value, l.value)
    case PartSelect(_, _, w, _) => Nat(w.value)
    case WidthCast(w, _) => Nat(w.value)
    case SignCast(_, x) => SelfWidth(x, env, look)
  }

  function SelfWidths(parts: seq<Expr>, env: Env, look: Lookup): nat {
    if parts == [] then 0 else SelfWidth(parts[0], env, look) + SelfWidths(parts[1..], env, look)
  }

  function RangeWidth(m: int, l: int): nat { (if m < l then l - m else m - l) + 1 }

  /** A range covers the positions from its lower to its upper bound, both included. */
  lemma RangeCoversBothEnds(m: int, l: int)
    ensures (if m < l then m else l) + RangeWidth(m, l) - 1 == (if m < l then l else m)
  {
  }

  // ---------------------------------------------------------------- evaluation

  /** Nodes whose operands take the width of the surrounding expression. */
  predicate Contextual(e: Expr) {
    || (e.Unary? && !OneBitUnary(e.uop))
    || (e.Binary? && !OneBitBinary(e.bop))
    || e.Ternary?
  }

  function BitOp(op: BinOp, x: bool, y: bool): bool {
    match op
    case BitAnd => x && y
    case BitOr => x || y
    case BitXor => x != y
    case _ => x == y
  }

  function ShiftRight(b: Bits, n: nat, fill: bool): (r: Bits)
    ensures |r| == |b|
  {
    seq(|b|, i requires 0 <= i => if i + n < |b| then b[i + n] else fill)
  }

  function Slice(b: Bits, lo: int, n: nat): (r: Bits)
    ensures |r| == n
  {
    seq(n, i requires 0 <= i => 0 <= lo + i < |b| && b[lo + i])
  }

  function Repeat(b: Bits, n: nat): (r: Bits)
    ensures |r| == n * |b|
  {
    if n == 0 then [] else b + Repeat(b, n - 1)
  }

  function Compare(op: BinOp, signed: bool, x: Bits, y: Bits): bool {
    var a, b := if signed then ToSigned(x) else ToInt(x), if signed then ToSigned(y) else ToInt(y);
    match op
    case Eq => a == b
    case Ne => a != b
    case Lt => a < b
    case Le => a <= b
    case Gt => a > b
    case _ => a >= b
  }

  function Reduce(op: UnOp, b: Bits): bool {
    match op
    case RedAnd => false !in b
    case RedNand => false in b
    case RedOr => true in b
    case RedXor => ToInt(Ones(b)) % 2 == 1
    case RedXnor => ToInt(Ones(b)) % 2 == 0
    case _ => true !in b
  }

  /** A one-bit sequence holding the parity of b. */
  function Ones(b: Bits): Bits {
    if b == [] then [] else [b[0] != (true in Ones(b[1..]))]
  }

  /** Bits of a node that does not listen to its context: leaves, comparisons, concatenations, selects, casts. */
  function Own(e: Expr, env: Env, look: Lookup): Bits
    requires !Contextual(e)
    decreases e, 0
  {
    match e
    case Ident(n) => env(n, 0)
    case Literal(v, w, s) => BitsOf(v, LiteralWidth(v, w, s))
    case Unary(op, x) => [Reduce(op, Alone(x, env, look))]
    case Binary(op, l, r) =>
      if op in {LogAnd, LogOr, Implies, Equiv} then
        var a, b := true in Alone(l, env, look), true in Alone(r, env, look);
        [if op == LogAnd then a && b else if op == LogOr then a || b else if op == Implies then a ==> b else a == b]
      else
        var w, s := Max(SelfWidth(l, env, look), SelfWidth(r, env, look)), Signed(l, look) && Signed(r, look);
        [Compare(op, s, Eval(l, w, s, env, look), Eval(r, w, s, env, look))]
    case Concat(parts) => Joined(parts, env, look)
    case Replicate(c, x) => Repeat(Alone(x, env, look), Nat(c.value))
    case BitSelect(t, i) =>
      var at := ToInt(Alone(i, env, look));
      if t.Ident? && look(t.name).memory then env(t.name, at) else Slice(Alone(t, env, look), at, 1)
    case RangeSelect(t, m, l) =>
      Slice(Alone(t, env, look), if m.value < l.value then m.value else l.value, RangeWidth(m.value, l.value))
    case PartSelect(t, b, w, up) =>
      var at := ToInt(Alone(b, env, look));
      Slice(Alone(t, env, look), if up then at else at - w.value + 1, Nat(w.value))
    case WidthCast(w, x) =>
      Eval(x, Max(Nat(w.value), SelfWidth(x, env, look)), Signed(x, look), env, look)[..Nat(w.value)]
    case SignCast(_, x) => Alone(x, env, look)
  }

  /** Parts of a concatenation; the first one written is the most significant. */
  function Joined(parts: seq<Expr>, env: Env, look: Lookup): Bits
    decreases parts, 0
  {
    if parts == [] then [] else Joined(parts[1..], env, look) + Alone(parts[0], env, look)
  }

  /** A self-determined operand: evaluated at its own width and signedness. */
  function Alone(e: Expr, env: Env, look: Lookup): (r: Bits)
    ensures |r| == SelfWidth(e, env, look)
    decreases e, 2
  {
    Eval(e, SelfWidth(e, env, look), Signed(e, look), env, look)
  }

  /** The w bits of e in a context of width w and signedness s. */
  function Eval(e: Expr, w: nat, s: bool, env: Env, look: Lookup): (r: Bits)
    ensures |r| == w
    decreases e, 1
  {
    if !Contextual(e) then Extend(Own(e, env, look), s, w) else
    match e
    case Unary(op, x) =>
      var a := Eval(x, w, s, env, look);
      if op.Invert? then seq(w, i requires 0 <= i < w => !a[i])
      else if op.Plus? then a
      else BitsOf(0 - ToInt(a), w)
    case Binary(op, l, r) =>
      var a := Eval(l, w, s, env, look);
      if op.Shr? then ShiftRight(a, ToInt(Alone(r, env, look)), false)
      else if op.AShr? then ShiftRight(a, ToInt(Alone(r, env, look)), s && Top(a))
      else if op.Shl? then var n := ToInt(Alone(r, env, look)); seq(w, i requires 0 <= i < w => i >= n && a[i - n])
      else
        var b := Eval(r, w, s, env, look);
        if op.Add? then BitsOf(ToInt(a) + ToInt(b), w)
        else if op.Sub? then BitsOf(ToInt(a) - ToInt(b), w)
        else if op.Mul? then BitsOf(ToInt(a) * ToInt(b), w)
        else seq(w, i requires 0 <= i < w => BitOp(op, a[i], b[i]))
    case Ternary(c, y, n) =>
      if true in Alone(c, env, look) then Eval(y, w, s, env, look) else Eval(n, w, s, env, look)
  }

  /** What a wire of width w assigned e holds: e evaluated in a context as wide as both, cut to w bits. */
  function Declared(e: Expr, w: nat, env: Env, look: Lookup): (r: Bits)
    ensures |r| == w
  {
    Eval(e, Max(w, SelfWidth(e, env, look)), Signed(e, look), env, look)[..w]
  }
}
