/** Sizing a wire from its driver, and what that width preserves. */
module DriverWidth {
  import opened Numbers
  import opened Options
  import opened VerilogExpr

  /** Expressions of unsized integers only. */
  predicate AllBareInts(e: Expr) {
    match e
    case Literal(_, w, _) => w.None?
    case Binary(op, l, r) => Bitwise(op) && AllBareInts(l) && AllBareInts(r)
    case Ternary(_, y, n) => AllBareInts(y) && AllBareInts(n)
    case Unary(op, x) => (op.Invert? || op.Plus?) && AllBareInts(x)
    case _ => false
  }

  function MaxOf(x: Option<int>, y: Option<int>): Option<int> {
    if x.Some? && y.Some? then Some(Max(x.value, y.value)) else None
  }

  function KnownValue(c: Constant): Option<int> {
    if c.Known? then Some(c.value) else None
  }

  /** Bits e produces in an expression of signedness s; None asks the designer for a width. */
  function Width(e: Expr, s: bool, look: Lookup): Option<int> {
    match e
    case Ident(n) => look(n).width
    case Literal(v, w, _) =>
      if w.Some? then w
      else if v < 0 && !s then None
      else Some(Max(1, BitLength(if v >= 0 then v else -v - 1) + (if s then 1 else 0)))
    case Unary(op, x) =>
      if OneBitUnary(op) then Some(1) else if op.Negate? then None else Width(x, s, look)
    case Binary(op, l, r) =>
      if OneBitBinary(op) then Some(1)
      else if Bitwise(op) then if AllBareInts(e) then None else MaxOf(Width(l, s, look), Width(r, s, look))
      else if RightShift(op) then Width(l, s, look)
      else None
    case Ternary(_, y, n) =>
      if AllBareInts(y) && AllBareInts(n) then None else MaxOf(Width(y, s, look), Width(n, s, look))
    case Concat(parts) =>
      if exists i :: 0 <= i < |parts| && parts[i].Literal? && parts[i].width.None? then None else WidthSum(parts, look)
    case Replicate(c, x) =>
      var w := Width(x, Signed(x, look), look);
      if c.Known? && w.Some? then Some(c.value * w.value) else None
    case BitSelect(t, _) => if t.Ident? && look(t.name).memory then look(t.name).width else Some(1)
    case RangeSelect(_, m, l) => if m.Known? && l.Known? then Some(RangeWidth(m.value, l.value)) else None
    case PartSelect(_, _, w, _) => KnownValue(w)
    case WidthCast(w, _) => KnownValue(w)
    case SignCast(toSigned, x) => Width(x, toSigned, look)
  }

  function WidthSum(parts: seq<Expr>, look: Lookup): Option<int> {
    if parts == [] then Some(0) else
    var w, rest := Width(parts[0], Signed(parts[0], look), look), WidthSum(parts[1..], look);
    if w.Some? && rest.Some? then Some(w.value + rest.value) else None
  }

  function DriverSigned(e: Expr, look: Lookup): bool { Signed(e, look) }

  function DriverWidth(e: Expr, look: Lookup): Option<int> { Width(e, Signed(e, look), look) }

  // ---------------------------------------------------------------- where the sign and the width come from

  /** The operands whose signs make up an expression's: through ~, unary + and -, width casts, both sides of bitwise and
      arithmetic operators, the left of shifts, both branches of a conditional. Anything else has its own sign. */
  function SignOperands(e: Expr): seq<Expr> {
    match e
    case Unary(op, x) => if op in {Invert, Plus, Negate} then SignOperands(x) else [e]
    case Binary(op, l, r) =>
      if op in {BitAnd, BitOr, BitXor, BitXnor, Add, Sub, Mul} then SignOperands(l) + SignOperands(r)
      else if op in {Shl, Shr, AShr} then SignOperands(l)
      else [e]
    case Ternary(_, y, n) => SignOperands(y) + SignOperands(n)
    case WidthCast(_, x) => SignOperands(x)
    case _ => [e]
  }

  /** A signed signal or literal, a word of a signed memory, or a $signed. */
  predicate SignedByItself(x: Expr, look: Lookup) {
    match x
    case Ident(n) => look(n).signed
    case Literal(_, _, signed) => signed
    case BitSelect(Ident(n), _) => look(n).memory && look(n).signed
    case SignCast(toSigned, _) => toSigned
    case _ => false
  }

  lemma OwnSign(e: Expr, look: Lookup)
    requires SignOperands(e) == [e]
    ensures (forall x :: x in SignOperands(e) ==> SignedByItself(x, look)) <==> SignedByItself(e, look)
  {
    assert SignOperands(e)[0] == e;
  }

  /** A driver is signed exactly when every operand its sign comes from is. */
  lemma {:induction false} DriverSignedExactly(e: Expr, look: Lookup)
    ensures DriverSigned(e, look) <==> forall x :: x in SignOperands(e) ==> SignedByItself(x, look)
  {
    match e
    case Unary(op, x) => if op in {Invert, Plus, Negate} { DriverSignedExactly(x, look); } else { OwnSign(e, look); }
    case Binary(op, l, r) =>
      if op in {BitAnd, BitOr, BitXor, BitXnor, Add, Sub, Mul} {
        DriverSignedExactly(l, look);
        DriverSignedExactly(r, look);
      } else if op in {Shl, Shr, AShr} {
        DriverSignedExactly(l, look);
      } else {
        OwnSign(e, look);
      }
    case Ternary(_, y, n) =>
      DriverSignedExactly(y, look);
      DriverSignedExactly(n, look);
    case WidthCast(_, x) => DriverSignedExactly(x, look);
    case _ => OwnSign(e, look);
  }

  /** The operands of which an expression consists when it is put together by bitwise operators, muxes, ~ and +. */
  function BareOperands(e: Expr): seq<Expr> {
    match e
    case Unary(op, x) => if op in {Invert, Plus} then BareOperands(x) else [e]
    case Binary(op, l, r) => if op in {BitAnd, BitOr, BitXor, BitXnor} then BareOperands(l) + BareOperands(r) else [e]
    case Ternary(_, y, n) => BareOperands(y) + BareOperands(n)
    case _ => [e]
  }

  predicate UnsizedInteger(x: Expr) { x.Literal? && x.width == None }

  lemma OwnInteger(e: Expr)
    requires BareOperands(e) == [e]
    ensures (forall x :: x in BareOperands(e) ==> UnsizedInteger(x)) <==> UnsizedInteger(e)
  {
    assert BareOperands(e)[0] == e;
  }

  /** Expressions of integers only are those all of whose operands are unsized integers. */
  lemma {:induction false} BareIntsExactly(e: Expr)
    ensures AllBareInts(e) <==> forall x :: x in BareOperands(e) ==> UnsizedInteger(x)
  {
    match e
    case Unary(op, x) => if op in {Invert, Plus} { BareIntsExactly(x); } else { OwnInteger(e); }
    case Binary(op, l, r) =>
      if op in {BitAnd, BitOr, BitXor, BitXnor} {
        BareIntsExactly(l);
        BareIntsExactly(r);
      } else {
        OwnInteger(e);
      }
    case Ternary(_, y, n) =>
      BareIntsExactly(y);
      BareIntsExactly(n);
    case _ => OwnInteger(e);
  }

  predicate IntegersOnly(e: Expr) { forall x :: x in BareOperands(e) ==> UnsizedInteger(x) }

  /** Nothing where the width comes from can grow or is unknown: no arithmetic, no left shift, no negative integer in
      an unsigned expression, no bitwise operation or mux of integers only, no unsized part, no width or count that is
      not a plain constant. */
  predicate Answerable(e: Expr, s: bool, look: Lookup) {
    match e
    case Ident(n) => look(n).width != None
    case Literal(v, w, _) => w != None || v >= 0 || s
    case Unary(op, x) => op in {LogNot, RedAnd, RedOr, RedXor, RedNand, RedNor, RedXnor}
                         || (op in {Invert, Plus} && Answerable(x, s, look))
    case Binary(op, l, r) =>
      || op in {Eq, Ne, Lt, Le, Gt, Ge, LogAnd, LogOr, Implies, Equiv}
      || (&& op in {BitAnd, BitOr, BitXor, BitXnor} && !IntegersOnly(e)
          && Answerable(l, s, look) && Answerable(r, s, look))
      || (op in {Shr, AShr} && Answerable(l, s, look))
    case Ternary(_, y, n) => !(IntegersOnly(y) && IntegersOnly(n)) && Answerable(y, s, look) && Answerable(n, s, look)
    case Concat(parts) =>
      forall i :: 0 <= i < |parts| ==> !UnsizedInteger(parts[i]) && Answerable(parts[i], Signed(parts[i], look), look)
    case Replicate(c, x) => c.Known? && Answerable(x, Signed(x, look), look)
    case BitSelect(t, _) => t.Ident? && look(t.name).memory ==> look(t.name).width != None
    case RangeSelect(_, m, l) => m.Known? && l.Known?
    case PartSelect(_, _, w, _) => w.Known?
    case WidthCast(w, _) => w.Known?
    case SignCast(toSigned, x) => Answerable(x, toSigned, look)
  }

  /** Every driver, sized or not, gets a width exactly when nothing of that kind is in it. */
  lemma {:induction false} DriverAnsweredExactly(e: Expr, s: bool, look: Lookup)
    ensures Width(e, s, look) != None <==> Answerable(e, s, look)
    decreases e, 1
  {
    match e
    case Unary(op, x) => DriverAnsweredExactly(x, s, look);
    case Binary(op, l, r) =>
      BareIntsExactly(e);
      DriverAnsweredExactly(l, s, look);
      DriverAnsweredExactly(r, s, look);
    case Ternary(_, y, n) =>
      BareIntsExactly(y);
      BareIntsExactly(n);
      DriverAnsweredExactly(y, s, look);
      DriverAnsweredExactly(n, s, look);
    case Concat(parts) => PartsAnsweredExactly(parts, look);
    case Replicate(_, x) => DriverAnsweredExactly(x, Signed(x, look), look);
    case SignCast(toSigned, x) => DriverAnsweredExactly(x, toSigned, look);
    case _ =>
  }

  lemma {:induction false} PartsAnsweredExactly(parts: seq<Expr>, look: Lookup)
    ensures WidthSum(parts, look) != None
       <==> forall i :: 0 <= i < |parts| ==> Answerable(parts[i], Signed(parts[i], look), look)
    decreases parts, 0
  {
    if parts != [] {
      DriverAnsweredExactly(parts[0], Signed(parts[0], look), look);
      PartsAnsweredExactly(parts[1..], look);
      assert forall i :: 1 <= i < |parts| ==> parts[i] == parts[1..][i - 1];
    }
  }

  // ---------------------------------------------------------------- side conditions

  /** Constants Verilog accepts where a width or count is written. */
  predicate Legal(e: Expr) {
    match e
    case Literal(v, w, s) => if w.Some? then w.value >= 1 else -0x8000_0000 <= v && (s || v < 0x1_0000_0000)
    case Unary(_, x) => Legal(x)
    case Binary(_, l, r) => Legal(l) && Legal(r)
    case Ternary(c, y, n) => Legal(c) && Legal(y) && Legal(n)
    case Concat(parts) => forall i :: 0 <= i < |parts| ==> Legal(parts[i])
    case Replicate(c, x) => c.value >= 0 && Legal(x)
    case PartSelect(_, _, w, _) => w.value >= 1
    case WidthCast(w, _) => w.value >= 1
    case SignCast(_, x) => Legal(x)
    case _ => true
  }

  /** Every operand that is sized by itself and then placed (a concatenation part, a replicated value, the
      argument of a sign cast) is as wide as Verilog makes it. Unsized integers inside one can break this. */
  ghost predicate PartsFit(e: Expr, env: Env, look: Lookup) {
    match e
    case Unary(op, x) => OneBitUnary(op) || PartsFit(x, env, look)
    case Binary(op, l, r) => OneBitBinary(op) || (PartsFit(l, env, look) && (RightShift(op) || PartsFit(r, env, look)))
    case Ternary(_, y, n) => PartsFit(y, env, look) && PartsFit(n, env, look)
    case Concat(parts) => forall i :: 0 <= i < |parts| ==> Fits(parts[i], Signed(parts[i], look), env, look)
    case Replicate(_, x) => Fits(x, Signed(x, look), env, look)
    case SignCast(toSigned, x) => Fits(x, toSigned, env, look)
    case _ => true
  }

  predicate Fits(e: Expr, s: bool, env: Env, look: Lookup) {
    Width(e, s, look) == Some(SelfWidth(e, env, look))
  }

  /** The bit that every position above the driver's width takes in a wider context. */
  function Fill(e: Expr, s: bool, env: Env, look: Lookup): bool {
    if !Contextual(e) then s && Top(Own(e, env, look)) else
    match e
    case Unary(op, x) => if op.Invert? then !Fill(x, s, env, look) else Fill(x, s, env, look)
    case Binary(op, l, r) =>
      if Bitwise(op) then BitOp(op, Fill(l, s, env, look), Fill(r, s, env, look)) else Fill(l, s, env, look)
    case Ternary(c, y, n) =>
      if true in Alone(c, env, look) then Fill(y, s, env, look) else Fill(n, s, env, look)
  }

  /** A right shift brings nothing in from above the width: it does not move, it moves zeros in over zeros,
      or it is arithmetic in a signed expression. */
  ghost predicate HarmlessShift(op: BinOp, l: Expr, r: Expr, s: bool, env: Env, look: Lookup) {
    ToInt(Alone(r, env, look)) == 0 || !Fill(l, s, env, look) || (op.AShr? && s)
  }

  ghost predicate ShiftsHarmless(e: Expr, s: bool, env: Env, look: Lookup) {
    match e
    case Unary(op, x) => OneBitUnary(op) || ShiftsHarmless(x, s, env, look)
    case Binary(op, l, r) =>
      || OneBitBinary(op)
      || (&& ShiftsHarmless(l, s, env, look)
          && if RightShift(op) then HarmlessShift(op, l, r, s, env, look) else ShiftsHarmless(r, s, env, look))
    case Ternary(_, y, n) => ShiftsHarmless(y, s, env, look) && ShiftsHarmless(n, s, env, look)
    case _ => true
  }

  // ---------------------------------------------------------------- bits of constants

  lemma {:induction false} BitsAboveLength(v: int, i: nat)
    requires i >= BitLength(if v >= 0 then v else -v - 1)
    ensures BitAt(v, i) == (v < 0)
    decreases i
  {
    if i > 0 {
      assert v < 0 ==> -(v / 2) - 1 == (-v - 1) / 2;
      BitsAboveLength(v / 2, i - 1);
    }
  }

  lemma {:induction false} BitLengthBound(v: nat, b: nat)
    requires v < Pow2(b)
    ensures BitLength(v) <= b
  {
    if v > 0 { BitLengthBound(v / 2, b - 1); }
  }

  lemma PowersAt31()
    ensures Pow2(31) == 0x8000_0000 && Pow2(32) == 0x1_0000_0000
  {
    assert Pow2(8) == 0x100;
    assert Pow2(16) == 0x1_0000;
    assert Pow2(24) == 0x100_0000;
  }

  lemma {:induction false} TopMagnitudeBit(v: int)
    requires v != 0 && v != -1
    ensures BitAt(v, BitLength(if v >= 0 then v else -v - 1) - 1) == (v >= 0)
    decreases if v >= 0 then v else -v
  {
    assert v < 0 ==> -(v / 2) - 1 == (-v - 1) / 2;
    if v / 2 != 0 && v / 2 != -1 { TopMagnitudeBit(v / 2); }
  }

  /** A number is held by w bits, read with or without a sign. */
  predicate HeldBy(v: int, w: nat, s: bool) {
    if s then w > 0 && 0 - Pow2(w - 1) <= v < Pow2(w - 1) else 0 <= v < Pow2(w)
  }

  lemma {:induction false} LengthAtLeast(v: nat, b: nat)
    requires v >= Pow2(b)
    ensures BitLength(v) > b
  {
    if b > 0 { LengthAtLeast(v / 2, b - 1); }
  }

  lemma {:induction false} BelowLength(v: nat)
    ensures v < Pow2(BitLength(v))
  {
    if v > 0 { BelowLength(v / 2); }
  }

  /** A bare integer counts at the least positive number of bits that hold it; a negative one in an unsigned expression
      is refused. */
  lemma BareIntegerWidthExactly(v: int, signed: bool, s: bool, look: Lookup)
    ensures var w := Width(Literal(v, None, signed), s, look);
            if v < 0 && !s then w == None
            else w.Some? && w.value >= 1 && HeldBy(v, w.value, s) && (w.value == 1 || !HeldBy(v, w.value - 1, s))
  {
    var magnitude := if v >= 0 then v else -v - 1;
    var length := BitLength(magnitude);
    BelowLength(magnitude);
    if magnitude > 0 && magnitude < Pow2(length - 1) { BitLengthBound(magnitude, length - 1); }
  }

  lemma BareBit(v: int, w: nat, s: bool, i: nat, env: Env, look: Lookup)
    requires i < w && i < LiteralWidth(v, None, true)
    ensures Eval(Literal(v, None, true), w, s, env, look)[i] == BitAt(v, i)
  {
  }

  lemma SignBitFits(v: int, length: nat)
    requires -0x8000_0000 <= v && length == BitLength(if v >= 0 then v else -v - 1)
    ensures length < LiteralWidth(v, None, true) && BitAt(v, length) == (v < 0)
  {
    PowersAt31();
    if v < 0 { BitLengthBound(-v - 1, 31); }
    if v == 0 { BitLengthBound(0, 0); }
    BitsAboveLength(v, length);
  }

  /** A sign extension repeats one bit; a value whose two top bits differ is none of a shorter part of itself. */
  lemma ExtensionLacksTop(all: Bits, cut: Bits, length: nat)
    requires 0 < |cut| <= length == |all| - 1 && all[length] != all[length - 1]
    requires |cut| == length ==> cut[length - 1] == all[length - 1]
    ensures all != Extend(cut, true, |all|)
  {
    var r := Extend(cut, true, |all|);
    assert r[length] == Top(cut);
    assert |cut| < length ==> r[length - 1] == Top(cut);
  }

  /** The width a bare integer counts at is the narrowest that holds it. */
  lemma BareIntegerWidthIsLeast(v: int, s: bool, n: nat, env: Env, look: Lookup)
    requires Legal(Literal(v, None, true)) && (v >= 0 || s)
    requires 0 < n < Width(Literal(v, None, true), s, look).value
    ensures var e, w := Literal(v, None, true), Width(Literal(v, None, true), s, look).value;
            Eval(e, w, s, env, look) != Extend(Eval(e, n, s, env, look), s, w)
  {
    var e, w := Literal(v, None, true), Width(Literal(v, None, true), s, look).value;
    var length := BitLength(if v >= 0 then v else -v - 1);
    LiteralLength(v, true, length);
    TopMagnitudeBit(v);
    BareBit(v, w, s, length - 1, env, look);
    if s {
      SignBitFits(v, length);
      BareBit(v, w, s, length, env, look);
      BareBit(v, n, s, n - 1, env, look);
      ExtensionLacksTop(Eval(e, w, s, env, look), Eval(e, n, s, env, look), length);
    } else {
      assert Eval(e, w, s, env, look)[length - 1] && !Extend(Eval(e, n, s, env, look), s, w)[length - 1];
    }
  }

  // ---------------------------------------------------------------- the main induction

  /** b is v's low bits with a constant bit from position n on. */
  ghost predicate Settles(wide: Bits, narrow: Bits, fill: bool) {
    && |narrow| <= |wide|
    && (forall i :: 0 <= i < |narrow| ==> wide[i] == narrow[i])
    && (forall i :: |narrow| <= i < |wide| ==> wide[i] == fill)
  }

  lemma OwnWidth(e: Expr, s: bool, env: Env, look: Lookup)
    requires Conforms(env, look) && Legal(e) && PartsFit(e, env, look) && !Contextual(e)
    requires Width(e, s, look).Some? && !(e.Literal? && e.width.None?)
    ensures Width(e, s, look) == Some(|Own(e, env, look)|)
  {
    match e
    case Concat(parts) => JoinedWidth(parts, env, look);
    case _ =>
  }

  lemma {:induction false} JoinedWidth(parts: seq<Expr>, env: Env, look: Lookup)
    requires forall i :: 0 <= i < |parts| ==> Fits(parts[i], Signed(parts[i], look), env, look)
    ensures WidthSum(parts, look) == Some(|Joined(parts, env, look)|)
  {
    if parts != [] {
      assert Fits(parts[0], Signed(parts[0], look), env, look);
      JoinedWidth(parts[1..], env, look);
    }
  }

  lemma LiteralSettles(v: int, own: nat, n: nat, w: nat, wide: nat, s: bool)
    requires forall i :: n <= i < own ==> BitAt(v, i) == (v < 0)
    requires n <= w <= wide && (s ==> n < w && n <= own) && (v < 0 ==> s)
    ensures Settles(Extend(BitsOf(v, own), s, wide), Extend(BitsOf(v, own), s, w), s && Top(BitsOf(v, own)))
    ensures s ==> Top(Extend(BitsOf(v, own), s, w)) == Top(BitsOf(v, own))
  {
    assert s && n < own ==> Top(BitsOf(v, own)) == (v < 0);
  }

  lemma LiteralLength(v: int, signed: bool, n: nat)
    requires -0x8000_0000 <= v && (signed || v < 0x1_0000_0000)
    requires n == BitLength(if v >= 0 then v else -v - 1)
    ensures n <= LiteralWidth(v, None, signed)
    ensures forall i :: n <= i < LiteralWidth(v, None, signed) ==> BitAt(v, i) == (v < 0)
  {
    PowersAt31();
    if v < 0 { BitLengthBound(-v - 1, 31); }
    if !signed && v >= 0 { BitLengthBound(v, 32); }
    forall i | n <= i < LiteralWidth(v, None, signed)
      ensures BitAt(v, i) == (v < 0)
    {
      BitsAboveLength(v, i);
    }
  }

  lemma UnsizedSettles(e: Expr, w: nat, wide: nat, s: bool, env: Env, look: Lookup)
    requires e.Literal? && e.width.None? && Legal(e)
    requires Width(e, s, look).Some? && Width(e, s, look).value <= w <= wide
    ensures Settles(Eval(e, wide, s, env, look), Eval(e, w, s, env, look), Fill(e, s, env, look))
    ensures s ==> Top(Eval(e, w, s, env, look)) == Fill(e, s, env, look)
  {
    var v := e.value;
    var n := BitLength(if v >= 0 then v else -v - 1);
    LiteralLength(v, e.signed, n);
    LiteralSettles(v, LiteralWidth(v, None, e.signed), n, w, wide, s);
  }

  lemma OwnSettles(e: Expr, w: nat, wide: nat, s: bool, env: Env, look: Lookup)
    requires Conforms(env, look) && Legal(e) && PartsFit(e, env, look) && !Contextual(e)
    requires Width(e, s, look).Some? && Width(e, s, look).value <= w <= wide
    ensures Settles(Eval(e, wide, s, env, look), Eval(e, w, s, env, look), Fill(e, s, env, look))
    ensures s && w > 0 ==> Top(Eval(e, w, s, env, look)) == Fill(e, s, env, look)
  {
    if e.Literal? && e.width.None? {
      UnsizedSettles(e, w, wide, s, env, look);
    } else {
      OwnWidth(e, s, env, look);
    }
  }

  lemma UnarySettles(e: Expr, w: nat, wide: nat, s: bool, env: Env, look: Lookup)
    requires e.Unary? && (e.uop.Invert? || e.uop.Plus?)
    requires Settles(Eval(e.operand, wide, s, env, look), Eval(e.operand, w, s, env, look),
                     Fill(e.operand, s, env, look))
    requires s && w > 0 ==> Top(Eval(e.operand, w, s, env, look)) == Fill(e.operand, s, env, look)
    ensures Settles(Eval(e, wide, s, env, look), Eval(e, w, s, env, look), Fill(e, s, env, look))
    ensures s && w > 0 ==> Top(Eval(e, w, s, env, look)) == Fill(e, s, env, look)
  {
  }

  lemma BitOpsSettle(op: BinOp, x: Bits, y: Bits, r: Bits, x': Bits, y': Bits, r': Bits, fx: bool, fy: bool)
    requires |x| == |y| == |r| && |x'| == |y'| == |r'|
    requires forall i :: 0 <= i < |r| ==> r[i] == BitOp(op, x[i], y[i])
    requires forall i :: 0 <= i < |r'| ==> r'[i] == BitOp(op, x'[i], y'[i])
    requires Settles(x, x', fx) && Settles(y, y', fy)
    ensures Settles(r, r', BitOp(op, fx, fy))
    ensures |r'| > 0 && Top(x') == fx && Top(y') == fy ==> Top(r') == BitOp(op, fx, fy)
  {
  }

  lemma BitwiseSettles(e: Expr, w: nat, wide: nat, s: bool, env: Env, look: Lookup)
    requires e.Binary? && Bitwise(e.bop)
    requires Settles(Eval(e.left, wide, s, env, look), Eval(e.left, w, s, env, look), Fill(e.left, s, env, look))
    requires s && w > 0 ==> Top(Eval(e.left, w, s, env, look)) == Fill(e.left, s, env, look)
    requires Settles(Eval(e.right, wide, s, env, look), Eval(e.right, w, s, env, look), Fill(e.right, s, env, look))
    requires s && w > 0 ==> Top(Eval(e.right, w, s, env, look)) == Fill(e.right, s, env, look)
    ensures Settles(Eval(e, wide, s, env, look), Eval(e, w, s, env, look), Fill(e, s, env, look))
    ensures s && w > 0 ==> Top(Eval(e, w, s, env, look)) == Fill(e, s, env, look)
  {
    BitOpsSettle(e.bop,
                 Eval(e.left, wide, s, env, look), Eval(e.right, wide, s, env, look), Eval(e, wide, s, env, look),
                 Eval(e.left, w, s, env, look), Eval(e.right, w, s, env, look), Eval(e, w, s, env, look),
                 Fill(e.left, s, env, look), Fill(e.right, s, env, look));
  }

  /** In any context at least as wide as the driver's width, e has the same low bits, and one fixed bit in
      every position above: the sign bit when the expression is signed. */
  lemma {:induction false} Widens(e: Expr, w: nat, wide: nat, s: bool, env: Env, look: Lookup)
    requires Conforms(env, look) && Legal(e) && PartsFit(e, env, look) && ShiftsHarmless(e, s, env, look)
    requires Width(e, s, look).Some? && Width(e, s, look).value <= w <= wide
    ensures Settles(Eval(e, wide, s, env, look), Eval(e, w, s, env, look), Fill(e, s, env, look))
    ensures s && w > 0 ==> Top(Eval(e, w, s, env, look)) == Fill(e, s, env, look)
  {
    if !Contextual(e) {
      OwnSettles(e, w, wide, s, env, look);
    } else if e.Unary? {
      Widens(e.operand, w, wide, s, env, look);
      UnarySettles(e, w, wide, s, env, look);
    } else if e.Ternary? {
      Widens(e.yes, w, wide, s, env, look);
      Widens(e.no, w, wide, s, env, look);
    } else if RightShift(e.bop) {
      Widens(e.left, w, wide, s, env, look);
      ShiftSettles(e, w, wide, s, env, look);
    } else {
      Widens(e.left, w, wide, s, env, look);
      Widens(e.right, w, wide, s, env, look);
      BitwiseSettles(e, w, wide, s, env, look);
    }
  }

  lemma ShiftSettles(e: Expr, w: nat, wide: nat, s: bool, env: Env, look: Lookup)
    requires e.Binary? && RightShift(e.bop) && w <= wide
    requires Settles(Eval(e.left, wide, s, env, look), Eval(e.left, w, s, env, look), Fill(e.left, s, env, look))
    requires s && w > 0 ==> Top(Eval(e.left, w, s, env, look)) == Fill(e.left, s, env, look)
    requires HarmlessShift(e.bop, e.left, e.right, s, env, look)
    ensures Settles(Eval(e, wide, s, env, look), Eval(e, w, s, env, look), Fill(e, s, env, look))
    ensures s && w > 0 ==> Top(Eval(e, w, s, env, look)) == Fill(e, s, env, look)
  {
  }

  // ---------------------------------------------------------------- main results

  lemma OwnLength(e: Expr, env: Env, look: Lookup)
    requires Conforms(env, look) && !Contextual(e)
    ensures |Own(e, env, look)| == SelfWidth(e, env, look)
  {
    if e.Concat? { JoinedLength(e.parts, env, look); }
  }

  lemma {:induction false} JoinedLength(parts: seq<Expr>, env: Env, look: Lookup)
    ensures |Joined(parts, env, look)| == SelfWidths(parts, env, look)
  {
    if parts != [] { JoinedLength(parts[1..], env, look); }
  }

  /** From the width Verilog itself gives e on, whatever e joins and however that was sized, wider contexts add only the
      one fixed bit. */
  lemma {:induction false} WidensFromSelf(e: Expr, w: nat, wide: nat, s: bool, env: Env, look: Lookup)
    requires Conforms(env, look) && ShiftsHarmless(e, s, env, look)
    requires Width(e, s, look).Some? && SelfWidth(e, env, look) <= w <= wide
    ensures Settles(Eval(e, wide, s, env, look), Eval(e, w, s, env, look), Fill(e, s, env, look))
    ensures s && w > 0 ==> Top(Eval(e, w, s, env, look)) == Fill(e, s, env, look)
  {
    if !Contextual(e) {
      OwnLength(e, env, look);
    } else if e.Unary? {
      WidensFromSelf(e.operand, w, wide, s, env, look);
      UnarySettles(e, w, wide, s, env, look);
    } else if e.Ternary? {
      WidensFromSelf(e.yes, w, wide, s, env, look);
      WidensFromSelf(e.no, w, wide, s, env, look);
    } else if RightShift(e.bop) {
      WidensFromSelf(e.left, w, wide, s, env, look);
      ShiftSettles(e, w, wide, s, env, look);
    } else {
      WidensFromSelf(e.left, w, wide, s, env, look);
      WidensFromSelf(e.right, w, wide, s, env, look);
      BitwiseSettles(e, w, wide, s, env, look);
    }
  }

  // ---------------------------------------------------------------- when a concatenation is sized right

  /** No unsigned bare integer of 32 bits stands where it is counted as signed: only a $signed can bring that about. */
  predicate Roomy(e: Expr, s: bool, look: Lookup) {
    match e
    case Literal(v, w, signed) => w.None? && s && !signed ==> v < 0x8000_0000
    case Unary(op, x) => OneBitUnary(op) || Roomy(x, s, look)
    case Binary(op, l, r) => OneBitBinary(op) || (Roomy(l, s, look) && (RightShift(op) || Roomy(r, s, look)))
    case Ternary(_, y, n) => Roomy(y, s, look) && Roomy(n, s, look)
    case Concat(parts) => forall i :: 0 <= i < |parts| ==> Roomy(parts[i], Signed(parts[i], look), look)
    case Replicate(_, x) => Roomy(x, Signed(x, look), look)
    case SignCast(toSigned, x) => Roomy(x, toSigned, look)
    case _ => true
  }

  /** The operand is counted no wider than Verilog makes it. */
  predicate NotWider(e: Expr, s: bool, env: Env, look: Lookup) {
    Width(e, s, look).Some? ==> Width(e, s, look).value <= SelfWidth(e, env, look)
  }

  /** Nor is anything its width comes from. */
  predicate NowhereWider(e: Expr, s: bool, env: Env, look: Lookup) {
    NotWider(e, s, env, look) &&
    match e
    case Unary(op, x) => OneBitUnary(op) || NowhereWider(x, s, env, look)
    case Binary(op, l, r) =>
      OneBitBinary(op) || (NowhereWider(l, s, env, look) && (RightShift(op) || NowhereWider(r, s, env, look)))
    case Ternary(_, y, n) => NowhereWider(y, s, env, look) && NowhereWider(n, s, env, look)
    case Concat(parts) => forall i :: 0 <= i < |parts| ==> NowhereWider(parts[i], Signed(parts[i], look), env, look)
    case Replicate(_, x) => NowhereWider(x, Signed(x, look), env, look)
    case SignCast(toSigned, x) => NowhereWider(x, toSigned, env, look)
    case _ => true
  }

  lemma BareWidthIsWider(v: int, s: bool, env: Env, look: Lookup)
    requires s && v >= 0x8000_0000
    ensures !NotWider(Literal(v, None, false), s, env, look)
  {
    PowersAt31();
    LengthAtLeast(v, 31);
  }

  lemma BareWidthIsRoomy(v: int, signed: bool, s: bool)
    requires Legal(Literal(v, None, signed)) && (s && !signed ==> v < 0x8000_0000) && (v < 0 ==> s)
    ensures BitLength(if v >= 0 then v else -v - 1) + (if s then 1 else 0) <= LiteralWidth(v, None, signed)
  {
    PowersAt31();
    if v < 0 {
      BitLengthBound(-v - 1, 31);
    } else if v < 0x8000_0000 {
      BitLengthBound(v, 31);
    } else if !signed {
      BitLengthBound(v, 32);
    }
  }

  lemma {:induction false} SummedPartsHaveWidths(parts: seq<Expr>, look: Lookup)
    requires WidthSum(parts, look).Some?
    ensures forall i :: 0 <= i < |parts| ==> Width(parts[i], Signed(parts[i], look), look).Some?
  {
    if parts != [] {
      SummedPartsHaveWidths(parts[1..], look);
      assert forall i :: 1 <= i < |parts| ==> parts[i] == parts[1..][i - 1];
    }
  }

  /** Exactly: the driver counts no operand wider than Verilog makes it, all through the expression, if and only if no
      such integer stands in it. */
  lemma {:induction false} NowhereWiderExactly(e: Expr, s: bool, env: Env, look: Lookup)
    requires Conforms(env, look) && Legal(e) && Width(e, s, look).Some?
    ensures NowhereWider(e, s, env, look) <==> Roomy(e, s, look)
  {
    if Roomy(e, s, look) { WidthIsAtMostSelfWidth(e, s, env, look); }
    match e
    case Literal(v, w, signed) => if w.None? && s && !signed && v >= 0x8000_0000 { BareWidthIsWider(v, s, env, look); }
    case Unary(op, x) => if !OneBitUnary(op) { NowhereWiderExactly(x, s, env, look); }
    case Binary(op, l, r) =>
      if !OneBitBinary(op) {
        NowhereWiderExactly(l, s, env, look);
        if Bitwise(op) { NowhereWiderExactly(r, s, env, look); }
      }
    case Ternary(_, y, n) =>
      NowhereWiderExactly(y, s, env, look);
      NowhereWiderExactly(n, s, env, look);
    case Concat(parts) =>
      SummedPartsHaveWidths(parts, look);
      forall i | 0 <= i < |parts|
        ensures NowhereWider(parts[i], Signed(parts[i], look), env, look)
           <==> Roomy(parts[i], Signed(parts[i], look), look)
      {
        NowhereWiderExactly(parts[i], Signed(parts[i], look), env, look);
      }
    case Replicate(_, x) => NowhereWiderExactly(x, Signed(x, look), env, look);
    case SignCast(toSigned, x) => NowhereWiderExactly(x, toSigned, env, look);
    case _ =>
  }

  lemma {:induction false} WidthIsAtMostSelfWidth(e: Expr, s: bool, env: Env, look: Lookup)
    requires Conforms(env, look) && Legal(e) && Roomy(e, s, look) && Width(e, s, look).Some?
    ensures Width(e, s, look).value <= SelfWidth(e, env, look)
    decreases e, 1
  {
    match e
    case Ident(n) => assert |env(n, 0)| == look(n).width.value;
    case Literal(v, w, signed) => if w.None? { BareWidthIsRoomy(v, signed, s); }
    case Unary(op, x) => if !OneBitUnary(op) { WidthIsAtMostSelfWidth(x, s, env, look); }
    case Binary(op, l, r) =>
      if !OneBitBinary(op) {
        WidthIsAtMostSelfWidth(l, s, env, look);
        if Bitwise(op) { WidthIsAtMostSelfWidth(r, s, env, look); }
      }
    case Ternary(_, y, n) =>
      WidthIsAtMostSelfWidth(y, s, env, look);
      WidthIsAtMostSelfWidth(n, s, env, look);
    case Concat(parts) =>
      SummedPartsHaveWidths(parts, look);
      forall i | 0 <= i < |parts| ensures NotWider(parts[i], Signed(parts[i], look), env, look) {
        WidthIsAtMostSelfWidth(parts[i], Signed(parts[i], look), env, look);
      }
      SumIsAtMostSelfWidths(parts, env, look);
    case Replicate(c, x) =>
      WidthIsAtMostSelfWidth(x, Signed(x, look), env, look);
      Scaled(c.value, Width(x, Signed(x, look), look).value, SelfWidth(x, env, look));
    case BitSelect(t, _) =>
      if t.Ident? { assert look(t.name).width.Some? ==> |env(t.name, 0)| == look(t.name).width.value; }
    case SignCast(toSigned, x) => WidthIsAtMostSelfWidth(x, toSigned, env, look);
    case _ =>
  }

  lemma Scaled(c: int, x: int, y: int)
    requires c >= 0 && x <= y
    ensures c * x <= c * y && (c * x == c * y <==> c == 0 || x == y)
  {
    ProductAtLeast(c, y - x);
    Distributes(c, x, y - x);
  }

  lemma ProductAtLeast(c: int, d: int)
    requires c >= 0 && d >= 0
    ensures c * d >= 0 && (c > 0 ==> c * d >= d)
  {
    if c > 0 { assert (c - 1) * d >= 0; }
  }

  lemma Distributes(c: int, x: int, d: int)
    ensures c * (x + d) == c * x + c * d
  {
  }

  /** Parts as wide as Verilog makes them. */
  predicate PartsFitAll(parts: seq<Expr>, env: Env, look: Lookup) {
    forall i :: 0 <= i < |parts| ==> Fits(parts[i], Signed(parts[i], look), env, look)
  }

  predicate NoPartWider(parts: seq<Expr>, env: Env, look: Lookup) {
    forall i :: 0 <= i < |parts| ==> NotWider(parts[i], Signed(parts[i], look), env, look)
  }

  lemma {:induction false} SumIsAtMostSelfWidths(parts: seq<Expr>, env: Env, look: Lookup)
    requires WidthSum(parts, look).Some? && NoPartWider(parts, env, look)
    ensures WidthSum(parts, look).value <= SelfWidths(parts, env, look)
    ensures WidthSum(parts, look).value == SelfWidths(parts, env, look) <==> PartsFitAll(parts, env, look)
  {
    if parts != [] {
      assert forall i :: 1 <= i < |parts| ==> parts[i] == parts[1..][i - 1];
      SumIsAtMostSelfWidths(parts[1..], env, look);
      FirstAndRestFit(parts, env, look);
    }
  }

  /** All parts are as wide as Verilog makes them exactly when their sum is and none is wider. */
  lemma SumFitsExactly(parts: seq<Expr>, env: Env, look: Lookup)
    requires WidthSum(parts, look).Some?
    ensures PartsFitAll(parts, env, look)
       <==> WidthSum(parts, look).value == SelfWidths(parts, env, look) && NoPartWider(parts, env, look)
  {
    if NoPartWider(parts, env, look) { SumIsAtMostSelfWidths(parts, env, look); }
  }

  lemma FirstAndRestFit(parts: seq<Expr>, env: Env, look: Lookup)
    requires parts != []
    ensures PartsFitAll(parts, env, look)
       <==> Fits(parts[0], Signed(parts[0], look), env, look) && PartsFitAll(parts[1..], env, look)
  {
    assert forall i :: 1 <= i < |parts| ==> parts[i] == parts[1..][i - 1];
  }

  /** Everything a concatenation joins is sized as Verilog sizes it if and only if the whole is and no part is wider;
      for a sign cast, or a replication that repeats at all, if and only if the whole is. */
  lemma PartsFitExactly(e: Expr, s: bool, env: Env, look: Lookup)
    requires Width(e, s, look).Some?
    requires e.Concat? || e.SignCast? || (e.Replicate? && e.count.value > 0)
    ensures PartsFit(e, env, look)
       <==> Fits(e, s, env, look) && (e.Concat? ==> NoPartWider(e.parts, env, look))
  {
    if e.Concat? {
      SumFitsExactly(e.parts, env, look);
    } else if e.Replicate? {
      var w, own := Width(e.repeated, Signed(e.repeated, look), look).value, SelfWidth(e.repeated, env, look);
      Scaled(e.count.value, Min(w, own), Max(w, own));
    }
  }

  lemma LengthIs32(v: int)
    requires 0x8000_0000 <= v < 0x1_0000_0000
    ensures BitLength(v) == 32
  {
    PowersAt31();
    LengthAtLeast(v, 31);
    BitLengthBound(v, 32);
  }

  lemma WiderPart(v: int, env: Env, look: Lookup)
    requires 0x8000_0000 <= v < 0x1_0000_0000
    ensures var wider := Replicate(Known(31), SignCast(true, Literal(v, None, false)));
            Width(wider, false, look) == Some(1023) && SelfWidth(wider, env, look) == 992
  {
    var big := Literal(v, None, false);
    LengthIs32(v);
    assert Width(big, true, look) == Some(33) && SelfWidth(big, env, look) == 32;
    assert Width(SignCast(true, big), true, look) == Some(33) && SelfWidth(SignCast(true, big), env, look) == 32;
  }

  lemma NarrowerPart(b: string, one: int, env: Env, look: Lookup)
    requires Conforms(env, look) && look(b) == Decl(Some(1), false, false) && one == 1
    ensures var narrower := Binary(BitAnd, Ident(b), Literal(one, None, true));
            Width(narrower, false, look) == Some(1) && SelfWidth(narrower, env, look) == 32 && !Signed(narrower, look)
  {
    var n := Literal(one, None, true);
    var narrower := Binary(BitAnd, Ident(b), n);
    assert BitLength(one) == 1 && |env(b, 0)| == 1;
    assert !AllBareInts(Ident(b)) && !AllBareInts(narrower);
    assert Width(narrower, false, look) == MaxOf(Width(Ident(b), false, look), Width(n, false, look)) == Some(1);
    assert Signed(narrower, look) == (Signed(Ident(b), look) && Signed(n, look)) == false;
  }

  lemma SumsOfTwo(x: Expr, y: Expr, env: Env, look: Lookup)
    requires Width(x, Signed(x, look), look).Some? && Width(y, Signed(y, look), look).Some?
    ensures WidthSum([x, y], look)
         == Some(Width(x, Signed(x, look), look).value + Width(y, Signed(y, look), look).value)
    ensures SelfWidths([x, y], env, look) == SelfWidth(x, env, look) + SelfWidth(y, env, look)
  {
    assert [x, y][1..] == [y] && [y][1..] == [];
    assert WidthSum([y][1..], look) == Some(0) && SelfWidths([y][1..], env, look) == 0;
    assert WidthSum([y], look) == Width(y, Signed(y, look), look);
    assert SelfWidths([y], env, look) == SelfWidth(y, env, look);
  }

  /** A part counted too wide can hide one counted too narrow: {{31{$signed('h8000_0000)}}, b & 1}, with a bit b, is
      sized right as a whole, and neither part is. */
  lemma WiderPartHidesAMisfit(b: string, v: int, one: int, env: Env, look: Lookup)
    requires Conforms(env, look) && look(b) == Decl(Some(1), false, false) && one == 1
    requires 0x8000_0000 <= v < 0x1_0000_0000
    ensures var wider := Replicate(Known(31), SignCast(true, Literal(v, None, false)));
            var narrower := Binary(BitAnd, Ident(b), Literal(one, None, true));
            var e := Concat([wider, narrower]);
            && Fits(e, false, env, look)
            && !Fits(wider, false, env, look) && !Fits(narrower, false, env, look)
  {
    var wider := Replicate(Known(31), SignCast(true, Literal(v, None, false)));
    var narrower := Binary(BitAnd, Ident(b), Literal(one, None, true));
    WiderPart(v, env, look);
    NarrowerPart(b, one, env, look);
    SumsOfTwo(wider, narrower, env, look);
    TwoParts(wider, narrower, env, look);
  }

  lemma TwoParts(x: Expr, y: Expr, env: Env, look: Lookup)
    requires !x.Literal? && !y.Literal?
    ensures Width(Concat([x, y]), false, look) == WidthSum([x, y], look)
    ensures SelfWidth(Concat([x, y]), env, look) == SelfWidths([x, y], env, look)
  {
    var parts := [x, y];
    assert forall i :: 0 <= i < |parts| ==> !parts[i].Literal?;
  }

  /** The bits of e in the narrowest context a wire of the driver's width can give it: some may not fit the wire. */
  function AllBits(e: Expr, env: Env, look: Lookup): Bits
    requires DriverWidth(e, look).Some? && 0 <= DriverWidth(e, look).value
  {
    Eval(e, Max(DriverWidth(e, look).value, SelfWidth(e, env, look)), Signed(e, look), env, look)
  }

  /** Bit i of e in any context at least that wide. */
  function BitOf(e: Expr, i: nat, env: Env, look: Lookup): bool
    requires DriverWidth(e, look).Some? && 0 <= DriverWidth(e, look).value
  {
    var all := AllBits(e, env, look);
    if i < |all| then all[i] else Fill(e, Signed(e, look), env, look)
  }

  /** Where right shifts are harmless a wire of any width from the driver's on holds just those bits. */
  lemma DeclaredBits(e: Expr, wide: nat, env: Env, look: Lookup)
    requires Conforms(env, look) && ShiftsHarmless(e, Signed(e, look), env, look)
    requires DriverWidth(e, look).Some? && 0 <= DriverWidth(e, look).value <= wide
    ensures forall i :: 0 <= i < wide ==> Declared(e, wide, env, look)[i] == BitOf(e, i, env, look)
  {
    var w, own := DriverWidth(e, look).value, SelfWidth(e, env, look);
    WidensFromSelf(e, Max(w, own), Max(wide, own), Signed(e, look), env, look);
  }

  /** So sizing the wire at driver_width gives the same bits as any wider declaration; where parts fit, the extra bits
      are all the one Fill bit. */
  lemma DriverWidthKeepsBits(e: Expr, wide: nat, env: Env, look: Lookup)
    requires Conforms(env, look) && ShiftsHarmless(e, Signed(e, look), env, look)
    requires DriverWidth(e, look).Some? && 0 <= DriverWidth(e, look).value <= wide
    ensures Declared(e, wide, env, look)[..DriverWidth(e, look).value]
         == Declared(e, DriverWidth(e, look).value, env, look)
    ensures Legal(e) && PartsFit(e, env, look) ==>
              && Settles(Declared(e, wide, env, look), Declared(e, DriverWidth(e, look).value, env, look),
                         Fill(e, Signed(e, look), env, look))
              && (Signed(e, look) && DriverWidth(e, look).value > 0 ==>
                    Top(Declared(e, DriverWidth(e, look).value, env, look)) == Fill(e, Signed(e, look), env, look))
  {
    var w := DriverWidth(e, look).value;
    DeclaredBits(e, wide, env, look);
    DeclaredBits(e, w, env, look);
    if Legal(e) && PartsFit(e, env, look) { FittingBits(e, env, look); }
  }

  /** Where parts fit, the bits from the driver's width on are the Fill bit. */
  lemma FittingBits(e: Expr, env: Env, look: Lookup)
    requires Conforms(env, look) && ShiftsHarmless(e, Signed(e, look), env, look) && Legal(e) && PartsFit(e, env, look)
    requires DriverWidth(e, look).Some? && 0 <= DriverWidth(e, look).value
    ensures forall i :: DriverWidth(e, look).value <= i < |AllBits(e, env, look)| ==>
              AllBits(e, env, look)[i] == Fill(e, Signed(e, look), env, look)
    ensures Signed(e, look) && DriverWidth(e, look).value > 0 ==>
              Top(AllBits(e, env, look)[..DriverWidth(e, look).value]) == Fill(e, Signed(e, look), env, look)
  {
    var w, own := DriverWidth(e, look).value, SelfWidth(e, env, look);
    Widens(e, w, Max(w, own), Signed(e, look), env, look);
    Widens(e, w, w, Signed(e, look), env, look);
  }

  /** Reading the narrow wire back with driver_signed gives every wider declaration's value ... */
  ghost predicate ReadsBack(e: Expr, env: Env, look: Lookup)
    requires DriverWidth(e, look).Some? && 0 <= DriverWidth(e, look).value
  {
    forall wide: nat :: DriverWidth(e, look).value <= wide ==> ReadsBackAt(e, wide, env, look)
  }

  ghost predicate ReadsBackAt(e: Expr, wide: nat, env: Env, look: Lookup)
    requires DriverWidth(e, look).Some? && 0 <= DriverWidth(e, look).value
  {
    Declared(e, wide, env, look)
      == Extend(Declared(e, DriverWidth(e, look).value, env, look), DriverSigned(e, look), wide)
  }

  lemma ExtensionExactly(wide: Bits, narrow: Bits, s: bool)
    requires |narrow| <= |wide| && wide[..|narrow|] == narrow
    ensures wide == Extend(narrow, s, |wide|) <==> forall i :: |narrow| <= i < |wide| ==> wide[i] == (s && Top(narrow))
  {
    SameLowBits(wide, narrow);
    if wide == Extend(narrow, s, |wide|) {
      forall i | |narrow| <= i < |wide| ensures wide[i] == (s && Top(narrow)) {
        assert wide[i] == Extend(narrow, s, |wide|)[i];
      }
    }
  }

  lemma ReadsBackAtExactly(e: Expr, wide: nat, env: Env, look: Lookup)
    requires Conforms(env, look) && ShiftsHarmless(e, Signed(e, look), env, look)
    requires DriverWidth(e, look).Some? && 0 <= DriverWidth(e, look).value <= wide
    ensures ReadsBackAt(e, wide, env, look)
       <==> forall i :: DriverWidth(e, look).value <= i < wide ==> BitOf(e, i, env, look) == Resumed(e, env, look)
  {
    var w := DriverWidth(e, look).value;
    DeclaredBits(e, wide, env, look);
    DriverWidthKeepsBits(e, wide, env, look);
    ExtensionExactly(Declared(e, wide, env, look), Declared(e, w, env, look), Signed(e, look));
  }

  /** The bit that reading back puts above the driver's width. */
  function Resumed(e: Expr, env: Env, look: Lookup): bool
    requires DriverWidth(e, look).Some? && 0 <= DriverWidth(e, look).value
  {
    Signed(e, look) && Top(AllBits(e, env, look)[..DriverWidth(e, look).value])
  }

  /** ... exactly when all bits from the driver's width on are the one that is put there: those that do not fit the
      wire, and the Fill bit above them. */
  lemma ReadsBackExactly(e: Expr, env: Env, look: Lookup)
    requires Conforms(env, look) && ShiftsHarmless(e, Signed(e, look), env, look)
    requires DriverWidth(e, look).Some? && 0 <= DriverWidth(e, look).value
    ensures var all := AllBits(e, env, look);
            ReadsBack(e, env, look)
            <==> && Fill(e, Signed(e, look), env, look) == Resumed(e, env, look)
                 && forall i :: DriverWidth(e, look).value <= i < |all| ==> all[i] == Resumed(e, env, look)
  {
    var w, all, b := DriverWidth(e, look).value, AllBits(e, env, look), Resumed(e, env, look);
    if ReadsBack(e, env, look) {
      assert ReadsBackAt(e, |all| + 1, env, look);
      ReadsBackAtExactly(e, |all| + 1, env, look);
      assert BitOf(e, |all|, env, look) == b;
      forall i | w <= i < |all| ensures all[i] == b { assert BitOf(e, i, env, look) == b; }
    }
    if Fill(e, Signed(e, look), env, look) == b && forall i :: w <= i < |all| ==> all[i] == b {
      forall wide: nat | w <= wide ensures ReadsBackAt(e, wide, env, look) {
        ReadsBackAtExactly(e, wide, env, look);
      }
    }
  }

  /** Where parts fit that is to say: exactly when the driver is signed or its Fill bit is zero. */
  lemma FittingReadsBackExactly(e: Expr, env: Env, look: Lookup)
    requires Conforms(env, look) && ShiftsHarmless(e, Signed(e, look), env, look) && Legal(e) && PartsFit(e, env, look)
    requires DriverWidth(e, look).Some? && 0 < DriverWidth(e, look).value
    ensures ReadsBack(e, env, look) <==> Signed(e, look) || !Fill(e, Signed(e, look), env, look)
  {
    ReadsBackExactly(e, env, look);
    FittingBits(e, env, look);
  }

  /** A right shift that is not harmless brings a one into the top bit from outside. */
  lemma HarmfulShiftShows(e: Expr, w: nat, s: bool, env: Env, look: Lookup)
    requires e.Binary? && RightShift(e.bop) && w > 0 && !HarmlessShift(e.bop, e.left, e.right, s, env, look)
    requires var n := ToInt(Alone(e.right, env, look));
             Settles(Eval(e.left, w + n, s, env, look), Eval(e.left, w, s, env, look), Fill(e.left, s, env, look))
    ensures Eval(e, w + ToInt(Alone(e.right, env, look)), s, env, look)[..w] != Eval(e, w, s, env, look)
  {
    var n := ToInt(Alone(e.right, env, look));
    var a, b := Eval(e.left, w + n, s, env, look), Eval(e.left, w, s, env, look);
    assert Eval(e, w + n, s, env, look) == ShiftRight(a, n, e.bop.AShr? && s && Top(a));
    assert Eval(e, w, s, env, look) == ShiftRight(b, n, e.bop.AShr? && s && Top(b));
    assert Eval(e, w + n, s, env, look)[w - 1] == a[w - 1 + n] == true;
    assert !Eval(e, w, s, env, look)[w - 1];
    assert Eval(e, w + n, s, env, look)[..w][w - 1] != Eval(e, w, s, env, look)[w - 1];
  }

  /** One right shift over an operand that is itself fine keeps its low bits in every wider context exactly
      when it is harmless. */
  lemma RightShiftExact(e: Expr, w: nat, s: bool, env: Env, look: Lookup)
    requires Conforms(env, look) && e.Binary? && RightShift(e.bop) && Legal(e.left)
    requires PartsFit(e.left, env, look) && ShiftsHarmless(e.left, s, env, look)
    requires Width(e, s, look) == Some(w) && w > 0
    ensures (forall wide: nat :: w <= wide ==> Eval(e, wide, s, env, look)[..w] == Eval(e, w, s, env, look))
       <==> HarmlessShift(e.bop, e.left, e.right, s, env, look)
  {
    if HarmlessShift(e.bop, e.left, e.right, s, env, look) {
      forall wide: nat | w <= wide
        ensures Eval(e, wide, s, env, look)[..w] == Eval(e, w, s, env, look)
      {
        Widens(e.left, w, wide, s, env, look);
        ShiftSettles(e, w, wide, s, env, look);
      }
    } else {
      Widens(e.left, w, w + ToInt(Alone(e.right, env, look)), s, env, look);
      HarmfulShiftShows(e, w, s, env, look);
    }
  }

  // ---------------------------------------------------------------- whole expressions

  /** The low bits, as many as the width counts, are the same in every wider context. */
  ghost predicate KeepsLow(e: Expr, s: bool, env: Env, look: Lookup) {
    forall w: nat, wide: nat :: Width(e, s, look) == Some(w) && w <= wide ==>
      Eval(e, wide, s, env, look)[..w] == Eval(e, w, s, env, look)
  }

  /** That goes for e and for every operand that its width comes from. */
  ghost predicate AllKeepLow(e: Expr, s: bool, env: Env, look: Lookup) {
    KeepsLow(e, s, env, look) &&
    match e
    case Unary(op, x) => OneBitUnary(op) || AllKeepLow(x, s, env, look)
    case Binary(op, l, r) =>
      OneBitBinary(op) || (AllKeepLow(l, s, env, look) && (RightShift(op) || AllKeepLow(r, s, env, look)))
    case Ternary(_, y, n) => AllKeepLow(y, s, env, look) && AllKeepLow(n, s, env, look)
    case _ => true
  }

  /** No right shift moves an operand of no bits. */
  predicate NoEmptyShift(e: Expr, s: bool, look: Lookup) {
    match e
    case Unary(op, x) => OneBitUnary(op) || NoEmptyShift(x, s, look)
    case Binary(op, l, r) =>
      || OneBitBinary(op)
      || (NoEmptyShift(l, s, look) && if RightShift(op) then Width(l, s, look) != Some(0) else NoEmptyShift(r, s, look))
    case Ternary(_, y, n) => NoEmptyShift(y, s, look) && NoEmptyShift(n, s, look)
    case _ => true
  }

  /** In contexts at least as wide as Verilog makes e, as a wire's declaration is, bits do not depend on the context. */
  ghost predicate Stable(e: Expr, s: bool, env: Env, look: Lookup) {
    forall w: nat, wide: nat :: SelfWidth(e, env, look) <= w <= wide ==>
      Eval(e, wide, s, env, look)[..w] == Eval(e, w, s, env, look)
  }

  /** That goes for e and for every operand that its width comes from. */
  ghost predicate AllStable(e: Expr, s: bool, env: Env, look: Lookup) {
    Stable(e, s, env, look) &&
    match e
    case Unary(op, x) => OneBitUnary(op) || AllStable(x, s, env, look)
    case Binary(op, l, r) =>
      OneBitBinary(op) || (AllStable(l, s, env, look) && (RightShift(op) || AllStable(r, s, env, look)))
    case Ternary(_, y, n) => AllStable(y, s, env, look) && AllStable(n, s, env, look)
    case _ => true
  }

  /** No right shift moves an operand that has no bits in Verilog. */
  predicate NoVoidShift(e: Expr, env: Env, look: Lookup) {
    match e
    case Unary(op, x) => OneBitUnary(op) || NoVoidShift(x, env, look)
    case Binary(op, l, r) =>
      || OneBitBinary(op)
      || (&& NoVoidShift(l, env, look)
          && if RightShift(op) then SelfWidth(l, env, look) > 0 else NoVoidShift(r, env, look))
    case Ternary(_, y, n) => NoVoidShift(y, env, look) && NoVoidShift(n, env, look)
    case _ => true
  }

  /** Exactly, for a whole expression in such contexts, whatever it joins: it and all that its width comes from are
      stable if and only if its right shifts are harmless. */
  lemma {:induction false} AllStableExactly(e: Expr, s: bool, env: Env, look: Lookup)
    requires Conforms(env, look) && NoVoidShift(e, env, look) && Width(e, s, look).Some?
    ensures AllStable(e, s, env, look) <==> ShiftsHarmless(e, s, env, look)
  {
    if ShiftsHarmless(e, s, env, look) { HarmlessIsStable(e, s, env, look); }
    match e
    case Unary(op, x) => if !OneBitUnary(op) { AllStableExactly(x, s, env, look); }
    case Binary(op, l, r) =>
      if !OneBitBinary(op) {
        AllStableExactly(l, s, env, look);
        if RightShift(op) {
          if ShiftsHarmless(l, s, env, look) && !HarmlessShift(op, l, r, s, env, look) {
            HarmfulIsUnstable(e, s, env, look);
          }
        } else {
          AllStableExactly(r, s, env, look);
        }
      }
    case Ternary(_, y, n) =>
      AllStableExactly(y, s, env, look);
      AllStableExactly(n, s, env, look);
    case _ =>
  }

  lemma HarmlessIsStable(e: Expr, s: bool, env: Env, look: Lookup)
    requires Conforms(env, look) && ShiftsHarmless(e, s, env, look) && Width(e, s, look).Some?
    ensures Stable(e, s, env, look)
  {
    forall w: nat, wide: nat | SelfWidth(e, env, look) <= w <= wide
      ensures Eval(e, wide, s, env, look)[..w] == Eval(e, w, s, env, look)
    {
      WidensFromSelf(e, w, wide, s, env, look);
    }
  }

  lemma HarmfulIsUnstable(e: Expr, s: bool, env: Env, look: Lookup)
    requires Conforms(env, look) && e.Binary? && RightShift(e.bop) && Width(e, s, look).Some?
    requires SelfWidth(e, env, look) > 0 && ShiftsHarmless(e.left, s, env, look)
    requires !HarmlessShift(e.bop, e.left, e.right, s, env, look)
    ensures !Stable(e, s, env, look)
  {
    var w := SelfWidth(e, env, look);
    WidensFromSelf(e.left, w, w + ToInt(Alone(e.right, env, look)), s, env, look);
    HarmfulShiftShows(e, w, s, env, look);
  }

  /** What is shifted right has parts that fit. */
  ghost predicate ShiftedFit(e: Expr, env: Env, look: Lookup) {
    match e
    case Unary(op, x) => OneBitUnary(op) || ShiftedFit(x, env, look)
    case Binary(op, l, r) =>
      || OneBitBinary(op)
      || if RightShift(op) then Legal(l) && PartsFit(l, env, look)
         else ShiftedFit(l, env, look) && ShiftedFit(r, env, look)
    case Ternary(_, y, n) => ShiftedFit(y, env, look) && ShiftedFit(n, env, look)
    case _ => true
  }

  lemma {:induction false} FitIsShiftedFit(e: Expr, env: Env, look: Lookup)
    requires Legal(e) && PartsFit(e, env, look)
    ensures ShiftedFit(e, env, look)
  {
    match e
    case Unary(op, x) => if !OneBitUnary(op) { FitIsShiftedFit(x, env, look); }
    case Binary(op, l, r) =>
      if !OneBitBinary(op) && !RightShift(op) {
        FitIsShiftedFit(l, env, look);
        FitIsShiftedFit(r, env, look);
      }
    case Ternary(_, y, n) =>
      FitIsShiftedFit(y, env, look);
      FitIsShiftedFit(n, env, look);
    case _ =>
  }

  /** The bits below any width from the driver's on do not depend on the context. */
  lemma {:induction false} LowBitsStay(e: Expr, w: nat, wide: nat, s: bool, env: Env, look: Lookup)
    requires Conforms(env, look) && ShiftedFit(e, env, look) && ShiftsHarmless(e, s, env, look)
    requires Width(e, s, look).Some? && Width(e, s, look).value <= w <= wide
    ensures Eval(e, wide, s, env, look)[..w] == Eval(e, w, s, env, look)
  {
    if Contextual(e) {
      if e.Unary? {
        LowBitsStay(e.operand, w, wide, s, env, look);
        SameLowBits(Eval(e.operand, wide, s, env, look), Eval(e.operand, w, s, env, look));
      } else if e.Ternary? {
        LowBitsStay(e.yes, w, wide, s, env, look);
        LowBitsStay(e.no, w, wide, s, env, look);
      } else if RightShift(e.bop) {
        Widens(e.left, w, wide, s, env, look);
        ShiftSettles(e, w, wide, s, env, look);
      } else {
        LowBitsStay(e.left, w, wide, s, env, look);
        LowBitsStay(e.right, w, wide, s, env, look);
        BitwiseStays(e, w, wide, s, env, look);
      }
    }
  }

  lemma BitwiseStays(e: Expr, w: nat, wide: nat, s: bool, env: Env, look: Lookup)
    requires e.Binary? && Bitwise(e.bop) && w <= wide
    requires Eval(e.left, wide, s, env, look)[..w] == Eval(e.left, w, s, env, look)
    requires Eval(e.right, wide, s, env, look)[..w] == Eval(e.right, w, s, env, look)
    ensures Eval(e, wide, s, env, look)[..w] == Eval(e, w, s, env, look)
  {
    SameLowBits(Eval(e.left, wide, s, env, look), Eval(e.left, w, s, env, look));
    SameLowBits(Eval(e.right, wide, s, env, look), Eval(e.right, w, s, env, look));
  }

  lemma SameLowBits(wide: Bits, narrow: Bits)
    requires |narrow| <= |wide| && wide[..|narrow|] == narrow
    ensures forall i :: 0 <= i < |narrow| ==> wide[i] == narrow[i]
  {
    forall i | 0 <= i < |narrow| ensures wide[i] == narrow[i] { assert wide[..|narrow|][i] == narrow[i]; }
  }

  lemma HarmlessKeepsLow(e: Expr, s: bool, env: Env, look: Lookup)
    requires Conforms(env, look) && ShiftedFit(e, env, look) && ShiftsHarmless(e, s, env, look)
    ensures KeepsLow(e, s, env, look)
  {
    forall w: nat, wide: nat | Width(e, s, look) == Some(w) && w <= wide
      ensures Eval(e, wide, s, env, look)[..w] == Eval(e, w, s, env, look)
    {
      LowBitsStay(e, w, wide, s, env, look);
    }
  }

  lemma {:induction false} WidthIsNotNegative(e: Expr, s: bool, env: Env, look: Lookup)
    requires Conforms(env, look) && Legal(e) && PartsFit(e, env, look) && Width(e, s, look).Some?
    ensures Width(e, s, look).value >= 0
  {
    match e
    case Ident(n) => assert |env(n, 0)| == look(n).width.value;
    case Unary(op, x) => if !OneBitUnary(op) { WidthIsNotNegative(x, s, env, look); }
    case Binary(op, l, r) => if !OneBitBinary(op) { WidthIsNotNegative(l, s, env, look); }
    case Ternary(_, y, _) => WidthIsNotNegative(y, s, env, look);
    case Literal(_, _, _) =>
    case _ => OwnWidth(e, s, env, look);
  }

  /** Exactly, for a whole expression: it and all that its width comes from keep their low bits in every wider context
      if and only if its right shifts are harmless. Only what is shifted need fit. */
  lemma {:induction false} AllKeepLowExactly(e: Expr, s: bool, env: Env, look: Lookup)
    requires Conforms(env, look) && ShiftedFit(e, env, look) && NoEmptyShift(e, s, look)
    requires Width(e, s, look).Some?
    ensures AllKeepLow(e, s, env, look) <==> ShiftsHarmless(e, s, env, look)
  {
    if ShiftsHarmless(e, s, env, look) { HarmlessKeepsLow(e, s, env, look); }
    match e
    case Unary(op, x) => if !OneBitUnary(op) { AllKeepLowExactly(x, s, env, look); }
    case Binary(op, l, r) =>
      if !OneBitBinary(op) {
        if RightShift(op) {
          FitIsShiftedFit(l, env, look);
          AllKeepLowExactly(l, s, env, look);
          WidthIsNotNegative(l, s, env, look);
          if ShiftsHarmless(l, s, env, look) { RightShiftExact(e, Width(e, s, look).value, s, env, look); }
        } else {
          AllKeepLowExactly(l, s, env, look);
          AllKeepLowExactly(r, s, env, look);
        }
      }
    case Ternary(_, y, n) =>
      AllKeepLowExactly(y, s, env, look);
      AllKeepLowExactly(n, s, env, look);
    case _ =>
  }

  // ---------------------------------------------------------------- what a part sized too narrow costs

  /** The positions from n on hold zeros. */
  predicate ZeroFrom(b: Bits, n: nat) {
    forall i :: n <= i < |b| ==> !b[i]
  }

  lemma CutReadsBack(all: Bits, w: nat, wide: nat)
    requires w <= wide && ZeroFrom(all, w)
    ensures Extend(all, false, Max(wide, |all|))[..wide]
         == Extend(Extend(all, false, Max(w, |all|))[..w], false, wide)
  {
  }

  /** A concatenation or replication: unsigned, with bits of its own. */
  predicate Packed(e: Expr) { e.Concat? || e.Replicate? }

  lemma DeclaredPacked(e: Expr, w: nat, env: Env, look: Lookup)
    requires Packed(e)
    ensures var all := Own(e, env, look);
            Declared(e, w, env, look) == Extend(all, false, Max(w, |all|))[..w]
  {
    var all := Own(e, env, look);
    if e.Concat? { JoinedLength(e.parts, env, look); }
    assert SelfWidth(e, env, look) == |all| && !Signed(e, look);
    assert Eval(e, Max(w, |all|), false, env, look) == Extend(all, false, Max(w, |all|));
  }

  /** Packed bits read back exactly when those the driver's width has no room for are zero. */
  lemma PackedReadsBackExactly(e: Expr, env: Env, look: Lookup)
    requires Packed(e) && DriverWidth(e, look).Some? && 0 <= DriverWidth(e, look).value
    ensures ReadsBack(e, env, look) <==> ZeroFrom(Own(e, env, look), DriverWidth(e, look).value)
  {
    var w, all := DriverWidth(e, look).value, Own(e, env, look);
    DeclaredPacked(e, w, env, look);
    if ZeroFrom(all, w) {
      forall wide: nat | w <= wide ensures ReadsBackAt(e, wide, env, look) {
        DeclaredPacked(e, wide, env, look);
        CutReadsBack(all, w, wide);
      }
    } else {
      var i :| w <= i < |all| && all[i];
      DeclaredPacked(e, |all|, env, look);
      assert Declared(e, |all|, env, look)[i] && !Extend(all[..w], false, |all|)[i];
      assert !ReadsBackAt(e, |all|, env, look);
    }
  }

  lemma ConcatWidthIsSum(parts: seq<Expr>, look: Lookup)
    requires DriverWidth(Concat(parts), look).Some?
    ensures DriverWidth(Concat(parts), look) == WidthSum(parts, look)
    ensures parts != [] ==>
              && DriverWidth(parts[0], look).Some? && WidthSum(parts[1..], look).Some?
              && WidthSum(parts, look).value == DriverWidth(parts[0], look).value + WidthSum(parts[1..], look).value
  {
    if parts != [] { SumOfFirstAndRest(parts, look); }
  }

  lemma SumOfFirstAndRest(parts: seq<Expr>, look: Lookup)
    requires parts != [] && WidthSum(parts, look).Some?
    ensures DriverWidth(parts[0], look).Some? && WidthSum(parts[1..], look).Some?
    ensures WidthSum(parts, look).value == DriverWidth(parts[0], look).value + WidthSum(parts[1..], look).value
  {
  }

  /** So a concatenation sized too narrow loses nothing exactly when the bits it has no room for are zero. */
  lemma ConcatReadsBackExactly(parts: seq<Expr>, env: Env, look: Lookup)
    requires DriverWidth(Concat(parts), look).Some? && 0 <= DriverWidth(Concat(parts), look).value
    ensures ReadsBack(Concat(parts), env, look)
       <==> ZeroFrom(Joined(parts, env, look), DriverWidth(Concat(parts), look).value)
  {
    PackedReadsBackExactly(Concat(parts), env, look);
  }

  /** The copies a replication has no room for, whole or in part, must be zero: {2{b & 1}} is sized 2 of 64 bits. */
  lemma ReplicateReadsBackExactly(c: Constant, x: Expr, env: Env, look: Lookup)
    requires DriverWidth(Replicate(c, x), look).Some? && 0 <= DriverWidth(Replicate(c, x), look).value
    ensures ReadsBack(Replicate(c, x), env, look)
       <==> ZeroFrom(Repeat(Alone(x, env, look), Nat(c.value)), DriverWidth(Replicate(c, x), look).value)
  {
    PackedReadsBackExactly(Replicate(c, x), env, look);
  }

  /** A misfit of the first part alone, the most significant one, loses nothing exactly when it is not too narrow or its
      upper bits are zero: {b & 1, a} is fine. */
  lemma FirstPartMisfit(parts: seq<Expr>, env: Env, look: Lookup)
    requires Conforms(env, look) && Legal(Concat(parts)) && parts != []
    requires DriverWidth(Concat(parts), look).Some?
    requires DriverWidth(parts[0], look).Some? && 0 <= DriverWidth(parts[0], look).value
    requires PartsFitAll(parts[1..], env, look)
    requires PartsFit(parts[0], env, look) && ShiftsHarmless(parts[0], Signed(parts[0], look), env, look)
    ensures 0 <= DriverWidth(Concat(parts), look).value
    ensures ReadsBack(Concat(parts), env, look)
       <==> || SelfWidth(parts[0], env, look) <= DriverWidth(parts[0], look).value
            || !Fill(parts[0], Signed(parts[0], look), env, look)
  {
    var first, s := parts[0], Signed(parts[0], look);
    var w, own := Width(first, s, look).value, SelfWidth(first, env, look);
    ConcatWidthIsSum(parts, look);
    SumFitsExactly(parts[1..], env, look);
    JoinedLength(parts[1..], env, look);
    ConcatReadsBackExactly(parts, env, look);
    if w <= own {
      Widens(first, w, own, s, env, look);
      SettlesIntoZeros(Joined(parts[1..], env, look), Alone(first, env, look), Eval(first, w, s, env, look),
                       Fill(first, s, env, look));
    }
  }

  lemma SettlesIntoZeros(low: Bits, high: Bits, narrow: Bits, fill: bool)
    requires Settles(high, narrow, fill)
    ensures ZeroFrom(low + high, |low| + |narrow|) <==> |high| == |narrow| || !fill
  {
    if |narrow| < |high| {
      assert (low + high)[|low| + |narrow|] == high[|narrow|];
    }
  }

  /** A misfit of later parts pushes the first part's top bits out, as many as are missing, and once it is gone those
      of the later parts. */
  lemma LaterMisfitCutsFirstPart(parts: seq<Expr>, env: Env, look: Lookup)
    requires parts != [] && DriverWidth(Concat(parts), look).Some? && 0 <= DriverWidth(Concat(parts), look).value
    requires WidthSum(parts[1..], look).Some? && Fits(parts[0], Signed(parts[0], look), env, look)
    ensures var first, rest := Alone(parts[0], env, look), parts[1..];
            var missing := SelfWidths(rest, env, look) - WidthSum(rest, look).value;
            && missing <= |first| + SelfWidths(rest, env, look)
            && (PartsFitAll(rest, env, look) <==> missing == 0 && NoPartWider(rest, env, look))
            && (ReadsBack(Concat(parts), env, look)
                <==> && ZeroFrom(first, Max(|first| - missing, 0))
                     && ZeroFrom(Joined(rest, env, look), SelfWidths(rest, env, look) - Max(missing - |first|, 0)))
  {
    var low, first := Joined(parts[1..], env, look), Alone(parts[0], env, look);
    var missing := SelfWidths(parts[1..], env, look) - WidthSum(parts[1..], look).value;
    ConcatWidthIsSum(parts, look);
    SumFitsExactly(parts[1..], env, look);
    JoinedLength(parts[1..], env, look);
    ConcatReadsBackExactly(parts, env, look);
    ZeroAbove(low, first, |low| + |first| - missing);
  }

  lemma ZeroAbove(low: Bits, high: Bits, n: nat)
    ensures ZeroFrom(low + high, n) <==> ZeroFrom(low, Min(n, |low|)) && ZeroFrom(high, Max(n - |low|, 0))
  {
    var all := low + high;
    if ZeroFrom(all, n) {
      forall i | Min(n, |low|) <= i < |low| ensures !low[i] { assert all[i] == low[i]; }
      forall i | Max(n - |low|, 0) <= i < |high| ensures !high[i] { assert all[|low| + i] == high[i]; }
    }
  }

  // ---------------------------------------------------------------- conditions read off the expression

  /** No inversion that reaches the bits above the width of an unsigned expression. */
  predicate NoInversion(e: Expr) {
    match e
    case Unary(op, x) => OneBitUnary(op) || (!op.Invert? && NoInversion(x))
    case Binary(op, l, r) =>
      || OneBitBinary(op)
      || (op != BitXnor && NoInversion(l) && (!Bitwise(op) || NoInversion(r)))
    case Ternary(_, y, n) => NoInversion(y) && NoInversion(n)
    case _ => true
  }

  /** Every right shift is arithmetic in a signed expression, or over an unsigned operand without inversion. */
  predicate PlainShifts(e: Expr, s: bool) {
    match e
    case Unary(op, x) => OneBitUnary(op) || PlainShifts(x, s)
    case Binary(op, l, r) =>
      || OneBitBinary(op)
      || (PlainShifts(l, s) && if RightShift(op) then (if s then op.AShr? else NoInversion(l)) else PlainShifts(r, s))
    case Ternary(_, y, n) => PlainShifts(y, s) && PlainShifts(n, s)
    case _ => true
  }

  /** No unsized integer where it would widen an operand. */
  predicate AllSized(e: Expr) {
    match e
    case Literal(_, w, _) => w.Some?
    case Unary(op, x) => OneBitUnary(op) || AllSized(x)
    case Binary(op, l, r) => OneBitBinary(op) || (AllSized(l) && (RightShift(op) || AllSized(r)))
    case Ternary(_, y, n) => AllSized(y) && AllSized(n)
    case Concat(parts) => forall i :: 0 <= i < |parts| ==> AllSized(parts[i])
    case Replicate(_, x) => AllSized(x)
    case SignCast(_, x) => AllSized(x)
    case _ => true
  }

  /** Only what is concatenated, replicated or sign-cast must be sized; elsewhere unsized integers are fine. */
  predicate SizedParts(e: Expr) {
    match e
    case Unary(op, x) => OneBitUnary(op) || SizedParts(x)
    case Binary(op, l, r) => OneBitBinary(op) || (SizedParts(l) && (RightShift(op) || SizedParts(r)))
    case Ternary(_, y, n) => SizedParts(y) && SizedParts(n)
    case Concat(_) => AllSized(e)
    case Replicate(_, x) => AllSized(x)
    case SignCast(_, x) => AllSized(x)
    case _ => true
  }

  lemma {:induction false} NoInversionFillsZero(e: Expr, env: Env, look: Lookup)
    requires NoInversion(e)
    ensures !Fill(e, false, env, look)
  {
    if Contextual(e) {
      match e
      case Unary(_, x) => NoInversionFillsZero(x, env, look);
      case Binary(op, l, r) =>
        NoInversionFillsZero(l, env, look);
        if Bitwise(op) { NoInversionFillsZero(r, env, look); }
      case Ternary(_, y, n) =>
        NoInversionFillsZero(y, env, look);
        NoInversionFillsZero(n, env, look);
    }
  }

  lemma {:induction false} PlainShiftsAreHarmless(e: Expr, s: bool, env: Env, look: Lookup)
    requires PlainShifts(e, s)
    ensures ShiftsHarmless(e, s, env, look)
  {
    match e
    case Unary(op, x) => if !OneBitUnary(op) { PlainShiftsAreHarmless(x, s, env, look); }
    case Binary(op, l, r) =>
      if !OneBitBinary(op) {
        PlainShiftsAreHarmless(l, s, env, look);
        if !RightShift(op) { PlainShiftsAreHarmless(r, s, env, look); }
        else if !s { NoInversionFillsZero(l, env, look); }
      }
    case Ternary(_, y, n) =>
      PlainShiftsAreHarmless(y, s, env, look);
      PlainShiftsAreHarmless(n, s, env, look);
    case _ =>
  }

  /** Nothing where the width comes from carries or grows, and every width it is made of is known. */
  predicate Sizable(e: Expr, look: Lookup) {
    match e
    case Ident(n) => look(n).width.Some?
    case Literal(_, _, _) => true
    case Unary(op, x) => OneBitUnary(op) || (!op.Negate? && Sizable(x, look))
    case Binary(op, l, r) =>
      || OneBitBinary(op)
      || ((RightShift(op) || Bitwise(op)) && Sizable(l, look) && (RightShift(op) || Sizable(r, look)))
    case Ternary(_, y, n) => Sizable(y, look) && Sizable(n, look)
    case Concat(parts) => forall i :: 0 <= i < |parts| ==> Sizable(parts[i], look)
    case Replicate(c, x) => c.Known? && Sizable(x, look)
    case BitSelect(t, _) => t.Ident? && look(t.name).memory ==> look(t.name).width.Some?
    case RangeSelect(_, m, l) => m.Known? && l.Known?
    case PartSelect(_, _, w, _) => w.Known?
    case WidthCast(w, _) => w.Known?
    case SignCast(_, x) => Sizable(x, look)
  }

  lemma {:induction false} SizedIsNotBare(e: Expr)
    requires AllSized(e)
    ensures !AllBareInts(e)
  {
    match e
    case Unary(op, x) => if op.Invert? || op.Plus? { SizedIsNotBare(x); }
    case Binary(op, l, _) => if Bitwise(op) { SizedIsNotBare(l); }
    case Ternary(_, y, _) => SizedIsNotBare(y);
    case _ =>
  }

  /** A sized expression gets a width exactly when it is sizable: a designer is asked only where bits can grow. */
  lemma {:induction false} AnsweredExactly(e: Expr, s: bool, look: Lookup)
    requires AllSized(e)
    ensures Width(e, s, look).Some? <==> Sizable(e, look)
    decreases e, 1
  {
    match e
    case Unary(op, x) => if !OneBitUnary(op) { AnsweredExactly(x, s, look); }
    case Binary(op, l, r) =>
      if !OneBitBinary(op) {
        AnsweredExactly(l, s, look);
        if Bitwise(op) { AnsweredExactly(r, s, look); SizedIsNotBare(e); }
      }
    case Ternary(_, y, n) =>
      AnsweredExactly(y, s, look);
      AnsweredExactly(n, s, look);
      SizedIsNotBare(y);
    case Concat(parts) => SumAnsweredExactly(parts, look);
    case Replicate(_, x) => AnsweredExactly(x, Signed(x, look), look);
    case SignCast(toSigned, x) => AnsweredExactly(x, toSigned, look);
    case _ =>
  }

  lemma {:induction false} SumAnsweredExactly(parts: seq<Expr>, look: Lookup)
    requires forall i :: 0 <= i < |parts| ==> AllSized(parts[i])
    ensures WidthSum(parts, look).Some? <==> forall i :: 0 <= i < |parts| ==> Sizable(parts[i], look)
    decreases parts, 0
  {
    if parts != [] {
      AnsweredExactly(parts[0], Signed(parts[0], look), look);
      SumAnsweredExactly(parts[1..], look);
      assert forall i :: 1 <= i < |parts| ==> parts[i] == parts[1..][i - 1];
    }
  }

  /** On sized expressions the driver's width is the standard's self-determined width. */
  lemma {:induction false} SizedWidthIsSelfWidth(e: Expr, s: bool, env: Env, look: Lookup)
    requires Conforms(env, look) && Legal(e) && AllSized(e) && Width(e, s, look).Some?
    ensures Fits(e, s, env, look)
    decreases e, 1
  {
    match e
    case Ident(n) => assert |env(n, 0)| == look(n).width.value;
    case Unary(op, x) => if !OneBitUnary(op) { SizedWidthIsSelfWidth(x, s, env, look); }
    case Binary(op, l, r) =>
      if !OneBitBinary(op) {
        SizedWidthIsSelfWidth(l, s, env, look);
        if Bitwise(op) { SizedWidthIsSelfWidth(r, s, env, look); }
      }
    case Ternary(_, y, n) =>
      SizedWidthIsSelfWidth(y, s, env, look);
      SizedWidthIsSelfWidth(n, s, env, look);
    case Concat(parts) => SizedSumIsSelfWidths(parts, env, look);
    case Replicate(_, x) => SizedWidthIsSelfWidth(x, Signed(x, look), env, look);
    case BitSelect(t, _) =>
      if t.Ident? { assert look(t.name).width.Some? ==> |env(t.name, 0)| == look(t.name).width.value; }
    case SignCast(toSigned, x) => SizedWidthIsSelfWidth(x, toSigned, env, look);
    case _ =>
  }

  lemma {:induction false} SizedSumIsSelfWidths(parts: seq<Expr>, env: Env, look: Lookup)
    requires Conforms(env, look) && WidthSum(parts, look).Some?
    requires forall i :: 0 <= i < |parts| ==> Legal(parts[i]) && AllSized(parts[i])
    ensures WidthSum(parts, look) == Some(SelfWidths(parts, env, look))
    ensures forall i :: 0 <= i < |parts| ==> Fits(parts[i], Signed(parts[i], look), env, look)
    decreases parts, 0
  {
    if parts != [] {
      SizedWidthIsSelfWidth(parts[0], Signed(parts[0], look), env, look);
      SizedSumIsSelfWidths(parts[1..], env, look);
    }
  }

  lemma {:induction false} SizedPartsFit(e: Expr, s: bool, env: Env, look: Lookup)
    requires Conforms(env, look) && Legal(e) && SizedParts(e) && Width(e, s, look).Some?
    ensures PartsFit(e, env, look)
  {
    match e
    case Unary(op, x) => if !OneBitUnary(op) { SizedPartsFit(x, s, env, look); }
    case Binary(op, l, r) =>
      if !OneBitBinary(op) {
        SizedPartsFit(l, s, env, look);
        if Bitwise(op) { SizedPartsFit(r, s, env, look); }
      }
    case Ternary(_, y, n) =>
      SizedPartsFit(y, s, env, look);
      SizedPartsFit(n, s, env, look);
    case Concat(parts) => SizedSumIsSelfWidths(parts, env, look);
    case Replicate(_, x) => SizedWidthIsSelfWidth(x, Signed(x, look), env, look);
    case SignCast(toSigned, x) => SizedWidthIsSelfWidth(x, toSigned, env, look);
    case _ =>
  }

  /** The headline, from conditions a reader can check on the expression: for every value of every signal and every
      wider declaration the low bits agree. When signed or without inversion, and with parts that are sized or fit all
      the same, the extra bits are the sign bit, or zero. */
  lemma DriverWidthIsEnough(e: Expr, wide: nat, env: Env, look: Lookup)
    requires Conforms(env, look) && PlainShifts(e, Signed(e, look))
    requires DriverWidth(e, look).Some? && 0 <= DriverWidth(e, look).value <= wide
    ensures var narrow := Declared(e, DriverWidth(e, look).value, env, look);
            && Declared(e, wide, env, look)[..|narrow|] == narrow
            && (Legal(e) && (SizedParts(e) || PartsFit(e, env, look)) && DriverWidth(e, look).value > 0
                && (Signed(e, look) || NoInversion(e)) ==>
                  Declared(e, wide, env, look) == Extend(narrow, DriverSigned(e, look), wide))
  {
    PlainShiftsAreHarmless(e, Signed(e, look), env, look);
    DriverWidthKeepsBits(e, wide, env, look);
    if Legal(e) && (SizedParts(e) || PartsFit(e, env, look)) && DriverWidth(e, look).value > 0
       && (Signed(e, look) || NoInversion(e)) {
      if SizedParts(e) { SizedPartsFit(e, Signed(e, look), env, look); }
      if !Signed(e, look) { NoInversionFillsZero(e, env, look); }
      FittingReadsBackExactly(e, env, look);
      assert ReadsBackAt(e, wide, env, look);
    }
  }

  /** Whatever the parts, an unsigned driver without inversion reads back exactly when the bits that do not fit the wire
      are zero. */
  lemma UninvertedReadsBackExactly(e: Expr, env: Env, look: Lookup)
    requires Conforms(env, look) && PlainShifts(e, false) && NoInversion(e) && !Signed(e, look)
    requires DriverWidth(e, look).Some? && 0 <= DriverWidth(e, look).value
    ensures ReadsBack(e, env, look) <==> ZeroFrom(AllBits(e, env, look), DriverWidth(e, look).value)
  {
    PlainShiftsAreHarmless(e, false, env, look);
    NoInversionFillsZero(e, env, look);
    ReadsBackExactly(e, env, look);
  }

  // ---------------------------------------------------------------- inputs that show the conditions are needed

  /** What a declared one-bit signal contributes. */
  lemma SignalFacts(a: string, s: bool, env: Env, look: Lookup)
    ensures Width(Ident(a), s, look) == look(a).width && Signed(Ident(a), look) == look(a).signed
    ensures SelfWidth(Ident(a), env, look) == |env(a, 0)|
    ensures forall w: nat :: Eval(Ident(a), w, s, env, look) == Extend(env(a, 0), s, w)
  {
  }

  lemma OneAsShiftAmount(one: int, env: Env, look: Lookup)
    requires one == 1
    ensures ToInt(Alone(Literal(one, Some(one), false), env, look)) == 1
  {
    assert Alone(Literal(one, Some(one), false), env, look) == [BitAt(one, 0)];
  }

  lemma InvertedShiftLosesABit(a: string, one: int, env: Env, look: Lookup)
    requires look(a) == Decl(Some(1), false, false) && env(a, 0) == [false] && one == 1
    ensures var e := Binary(Shr, Unary(Invert, Ident(a)), Literal(one, Some(one), false));
            DriverWidth(e, look) == Some(1) && Declared(e, 2, env, look)[..1] != Declared(e, 1, env, look)
  {
    var x, n := Ident(a), Literal(one, Some(one), false);
    var y := Unary(Invert, x);
    var e := Binary(Shr, y, n);
    SignalFacts(a, false, env, look);
    OneAsShiftAmount(one, env, look);
    assert Signed(e, look) == Signed(y, look) == Signed(x, look);
    assert Width(e, false, look) == Width(y, false, look) == Width(x, false, look);
    assert SelfWidth(e, env, look) == SelfWidth(y, env, look) == SelfWidth(x, env, look);
    assert Eval(x, 2, false, env, look) == [false, false] && Eval(x, 1, false, env, look) == [false];
    assert Eval(y, 2, false, env, look) == [true, true] && Eval(y, 1, false, env, look) == [true];
    assert Declared(e, 2, env, look)[0] && !Declared(e, 1, env, look)[0];
  }

  lemma SignedLogicalShiftLosesABit(a: string, one: int, env: Env, look: Lookup)
    requires look(a) == Decl(Some(1), true, false) && env(a, 0) == [true] && one == 1
    ensures var e := Binary(Shr, Ident(a), Literal(one, Some(one), false));
            DriverWidth(e, look) == Some(1) && Declared(e, 2, env, look)[..1] != Declared(e, 1, env, look)
  {
    var x, n := Ident(a), Literal(one, Some(one), false);
    var e := Binary(Shr, x, n);
    SignalFacts(a, true, env, look);
    OneAsShiftAmount(one, env, look);
    assert Signed(e, look) == Signed(x, look);
    assert Width(e, true, look) == Width(x, true, look);
    assert SelfWidth(e, env, look) == SelfWidth(x, env, look);
    assert Top(env(a, 0));
    assert Eval(x, 2, true, env, look) == [true, true] && Eval(x, 1, true, env, look) == [true];
    assert Declared(e, 2, env, look)[0] && !Declared(e, 1, env, look)[0];
  }

  /** {a, b & 1}: only a bare unsized part is refused, so the width comes out as 2, while Verilog makes the
      second part 32 bits wide and puts a at bit 32: a is lost. */
  lemma UnsizedIntegerInsideAPartLosesA(a: string, b: string, one: int, env: Env, look: Lookup)
    requires look(a) == Decl(Some(1), false, false) && look(b) == Decl(Some(1), false, false)
    requires env(a, 0) == [true] && |env(b, 0)| == 1 && one == 1
    ensures var e := Concat([Ident(a), Binary(BitAnd, Ident(b), Literal(one, None, true))]);
            && DriverWidth(e, look) == Some(2)
            && SelfWidth(e, env, look) == 33
            && Declared(e, 33, env, look)[32]
            && !Extend(Declared(e, 2, env, look), DriverSigned(e, look), 33)[32]
  {
    var x, y, n := Ident(a), Ident(b), Literal(one, None, true);
    var p := Binary(BitAnd, y, n);
    var parts := [x, p];
    SignalFacts(a, false, env, look);
    SignalFacts(b, false, env, look);
    assert BitLength(one) == 1;
    assert Signed(p, look) == (Signed(y, look) && Signed(n, look));
    assert !AllBareInts(y) && !AllBareInts(p);
    assert Width(p, false, look) == MaxOf(Width(y, false, look), Width(n, false, look)) == Some(1);
    assert SelfWidth(p, env, look) == Max(SelfWidth(y, env, look), SelfWidth(n, env, look)) == 32;
    assert parts[1..] == [p] && [p][1..] == [];
    assert WidthSum([p][1..], look) == Some(0) && SelfWidths([p][1..], env, look) == 0;
    assert WidthSum([p], look) == Some(1) && SelfWidths([p], env, look) == 32;
    assert WidthSum(parts, look) == Some(2);
    assert forall i :: 0 <= i < |parts| ==> !parts[i].Literal?;
    assert Width(Concat(parts), false, look) == Some(2);
    assert Joined([p], env, look) == Alone(p, env, look);
    assert Joined(parts, env, look) == Alone(p, env, look) + Alone(x, env, look);
    assert Alone(x, env, look) == [true];
    assert Own(Concat(parts), env, look)[32];
  }
}
