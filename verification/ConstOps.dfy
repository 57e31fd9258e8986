/** Integer operations of constant folding, on unbounded two's complement integers. */
module ConstOps {
  import opened Numbers
  import opened Options

  /** Results are cut to this many bits when they would get astronomically large. */
  const FOLD_BITS: nat := 0x1_0000

  /** Powers with a negative exponent (table 5-6 of IEEE 1364-2005). */
  function NegativePower(a: int, b: int): Option<int> {
    if a == 0 then None
    else if a == 1 then Some(1)
    else if a == -1 then Some(if b % 2 == 1 then -1 else 1)
    else Some(0)
  }

  function ConstPow(a: int, b: int, bits: nat): Option<int> {
    if b < 0 then NegativePower(a, b)
    else if Abs(a) > 1 && b * BitLength(Abs(a)) > bits then Some(Power(a, b) % Pow2(bits))
    else Some(Power(a, b))
  }

  function ConstShl(a: int, b: int, bits: nat): Option<int> {
    if b < 0 then None else if b >= bits then Some(0) else Some(a * Pow2(b))
  }

  function ShiftRight(a: int, b: int): Option<int> {
    if b >= 0 then Some(a / Pow2(b)) else None
  }

  function ConstDiv(a: int, b: int): Option<int> {
    if b == 0 then None
    else var q := Abs(a) / Abs(b); if (a < 0) == (b < 0) then Some(q) else Some(-q)
  }

  function ConstMod(a: int, b: int): Option<int> {
    var q := ConstDiv(a, b);
    if q.None? then None else Some(a - b * q.value)
  }

  function BitAnd(a: int, b: int): int
    decreases Abs(a) + Abs(b)
  {
    if a == 0 || b == 0 then 0
    else if a == -1 then b
    else if b == -1 then a
    else (if a % 2 == 1 && b % 2 == 1 then 1 else 0) + 2 * BitAnd(a / 2, b / 2)
  }

  function BitXor(a: int, b: int): int { a + b - 2 * BitAnd(a, b) }
  function BitOr(a: int, b: int): int { a + b - BitAnd(a, b) }
  function Invert(a: int): int { -a - 1 }

  function PopCount(a: nat): nat { if a == 0 then 0 else a % 2 + PopCount(a / 2) }

  function Truth(b: bool): Option<int> { Some(if b then 1 else 0) }

  datatype UnOp = Plus | Minus | Tilde | Bang | OrReduce | NorReduce | XorReduce | AndReduce | NandReduce | XnorReduce

  datatype BinOp = Add | Sub | Mul | Div | Mod | Pow | And | Or | Xor | Xnor | Shl | Shr
                 | Eq | Ne | Lt | Le | Gt | Ge | LogAnd | LogOr

  /** None where the operation has no answer. */
  function UnaryConst(op: UnOp, v: int): Option<int> {
    match op
    case Plus => Some(v)
    case Minus => Some(-v)
    case Tilde => Some(Invert(v))
    case Bang => Truth(v == 0)
    case OrReduce => Truth(v != 0)
    case NorReduce => Truth(v == 0)
    case XorReduce => if v >= 0 then Some(PopCount(v) % 2) else None
    case _ => None
  }

  function BinaryConst(op: BinOp, a: int, b: int, bits: nat): Option<int> {
    match op
    case Add => Some(a + b)
    case Sub => Some(a - b)
    case Mul => Some(a * b)
    case Div => ConstDiv(a, b)
    case Mod => ConstMod(a, b)
    case Pow => ConstPow(a, b, bits)
    case And => Some(BitAnd(a, b))
    case Or => Some(BitOr(a, b))
    case Xor => Some(BitXor(a, b))
    case Xnor => Some(Invert(BitXor(a, b)))
    case Shl => ConstShl(a, b, bits)
    case Shr => ShiftRight(a, b)
    case Eq => Truth(a == b)
    case Ne => Truth(a != b)
    case Lt => Truth(a < b)
    case Le => Truth(a <= b)
    case Gt => Truth(a > b)
    case Ge => Truth(a >= b)
    case LogAnd => Truth(a != 0 && b != 0)
    case LogOr => Truth(a != 0 || b != 0)
  }
}
