/** Folded operations against exact ones: where folding cuts a result, and when that shows. */
module FoldedOperators {
  import opened Congruences
  import opened ConstEval
  import opened ConstOps
  import opened Numbers
  import opened Operators
  import opened Options

  /** The operation on unbounded integers, nothing cut; None where it has no answer. */
  function ExactBinary(op: BinOp, a: int, b: int): Option<int> {
    match op
    case Shl => if b < 0 then None else Some(a * Pow2(b))
    case Pow => if b < 0 then NegativePower(a, b) else Some(Power(a, b))
    case _ => BinaryConst(op, a, b, 0)                    // no other operation ever cuts
  }

  predicate Bitwise(op: BinOp) { op.And? || op.Or? || op.Xor? || op.Xnor? }

  /** The operators whose low bits depend on low bits, but for what shift counts and exponents do. */
  predicate Folds(op: BinOp) { op.Add? || op.Sub? || op.Mul? || op.Shl? || op.Shr? || op.Pow? || Bitwise(op) }

  predicate FoldsUnary(op: UnOp) { op.Plus? || op.Minus? || op.Tilde? }

  function Answered(r: Result): Option<int> { if r.Value? then Some(r.value) else None }

  /** The same answer modulo m, or none on either side. */
  ghost predicate Matches(folded: Option<int>, exact: Option<int>, m: int) {
    folded.Some? == exact.Some? && (folded.Some? ==> Congruent(folded.value, exact.value, m))
  }

  // ---------------------------------------------------------------- shifts

  lemma FoldedShl(a: int, exact: int, b: nat, bits: nat)
    requires Congruent(a, exact, Pow2(bits))
    ensures ConstShl(a, b, bits).Some? && Congruent(ConstShl(a, b, bits).value, exact * Pow2(b), Pow2(bits))
  {
    if b >= bits {
      Divides(exact, bits, b);
      Opposite(exact * Pow2(b), 0, Pow2(bits));
    } else {
      Same(Pow2(b), Pow2(bits));
      Products(a, exact, Pow2(b), Pow2(b), Pow2(bits));
    }
  }

  /** A shift by a count that folds to r but is exactly c. */
  predicate ShiftFoldsRight(exact: int, r: int, c: int, bits: nat) {
    if r < 0 || c < 0 then r < 0 && c < 0
    else r == c || exact * Pow2(Min(r, c)) % Pow2(bits) == 0
  }

  lemma LargeShiftIsZero(exact: int, small: nat, large: nat, bits: nat)
    requires small < large && Congruent(small, large, Pow2(bits))
    ensures Congruent(exact * Pow2(large), 0, Pow2(bits))
  {
    Apart(small, large, bits);
    Divides(exact, bits, large);
  }

  /** Exactly when a shift folds right, whatever its count is and folds to: both counts are negative, they are the
      same, or the smaller of them leaves no bit below the bound. */
  lemma ShiftFoldsExactly(a: int, exact: int, r: int, c: int, bits: nat)
    requires Congruent(a, exact, Pow2(bits)) && Congruent(r, c, Pow2(bits))
    ensures Matches(ConstShl(a, r, bits), ExactBinary(Shl, exact, c), Pow2(bits))
       <==> ShiftFoldsRight(exact, r, c, bits)
  {
    if r >= 0 && c >= 0 {
      FoldedShl(a, exact, r, bits);
      var folded, kept, wanted, m := ConstShl(a, r, bits).value, exact * Pow2(r), exact * Pow2(c), Pow2(bits);
      CongruentThrough(folded, kept, wanted, m);
      if r < c {
        LargeShiftIsZero(exact, r, c, bits);
        SameAsZero(wanted, kept, m);
      } else if c < r {
        Opposite(r, c, m);
        LargeShiftIsZero(exact, c, r, bits);
        SameAsZero(kept, wanted, m);
      } else {
        Same(kept, m);
      }
    }
  }

  lemma CongruentThrough(a: int, b: int, c: int, m: int)
    requires Congruent(a, b, m)
    ensures Congruent(a, c, m) <==> Congruent(b, c, m)
  {
    Opposite(a, b, m);
    if Congruent(a, c, m) { Chained(b, a, c, m); }
    if Congruent(b, c, m) { Chained(a, b, c, m); }
  }

  // ---------------------------------------------------------------- powers

  lemma FoldedPow(a: int, exact: int, b: nat, bits: nat)
    requires Congruent(a, exact, Pow2(bits))
    ensures ConstPow(a, b, bits).Some? && Congruent(ConstPow(a, b, bits).value, Power(exact, b), Pow2(bits))
  {
    Powers(a, exact, b, Pow2(bits));
    Remainder(Power(a, b), Pow2(bits));
    Chained(Power(a, b) % Pow2(bits), Power(a, b), Power(exact, b), Pow2(bits));
  }

  /** A power whose base folds to a but is exactly base, and whose exponent folds to r but is exactly c. */
  predicate PowerFoldsRight(a: int, base: int, r: int, c: int, bits: nat) {
    if r >= 0 && c >= 0 then r == c || base % 2 == 1 || Power(base, Min(r, c)) % Pow2(bits) == 0
    else if r < 0 && c < 0 then a == base || (Abs(a) > 1 && Abs(base) > 1)
    else
      var inverted := if r < 0 then a else base;
      Abs(inverted) == 1 || (inverted != 0 && Power(base, Max(r, c)) % Pow2(bits) == 0)
  }

  lemma EvenModulus(bits: nat)
    requires bits > 1
    ensures Pow2(bits) >= 4 && Pow2(bits) == 2 * Pow2(bits - 1)
  {
    assert Pow2(bits) == 2 * Pow2(bits - 1) && Pow2(bits - 1) == 2 * Pow2(bits - 2);
  }

  lemma SameParity(r: int, c: int, bits: nat)
    requires bits > 1 && Congruent(r, c, Pow2(bits))
    ensures r % 2 == c % 2
  {
    assert Pow2(1) == 2;
    CongruentLower(r, c, 1, bits);
  }

  /** Congruent numbers that are both small are the same. */
  lemma SmallAreSame(a: int, b: int, bits: nat)
    requires bits > 1 && Congruent(a, b, Pow2(bits)) && Abs(a) <= 1 && Abs(b) <= 1
    ensures a == b
  {
    EvenModulus(bits);
    var k :| Times(a, b, k, Pow2(bits));
    Multiples(k, Pow2(bits));
  }

  lemma NegativeExponents(a: int, base: int, r: int, c: int, bits: nat)
    requires bits > 1 && Congruent(a, base, Pow2(bits)) && Congruent(r, c, Pow2(bits)) && r < 0 && c < 0
    ensures Matches(NegativePower(a, r), NegativePower(base, c), Pow2(bits)) <==> PowerFoldsRight(a, base, r, c, bits)
  {
    var x, y := NegativePower(a, r), NegativePower(base, c);
    SameParity(r, c, bits);
    if x.Some? { Same(x.value, Pow2(bits)); }
    if Abs(a) <= 1 && Abs(base) <= 1 { SmallAreSame(a, base, bits); }
    if x.Some? && y.Some? && Congruent(x.value, y.value, Pow2(bits)) { SmallAreSame(x.value, y.value, bits); }
  }

  /** One exponent is negative, the other not: a unit's powers agree; otherwise the negative side is 0, or has no
      answer for 0 itself. */
  lemma MixedExponents(inverted: int, base: int, negative: int, n: nat, bits: nat)
    requires bits > 1 && Congruent(inverted, base, Pow2(bits)) && Congruent(negative, n, Pow2(bits)) && negative < 0
    ensures (NegativePower(inverted, negative).Some?
             && Congruent(NegativePower(inverted, negative).value, Power(base, n), Pow2(bits)))
       <==> Abs(inverted) == 1 || (inverted != 0 && Power(base, n) % Pow2(bits) == 0)
  {
    var m := Pow2(bits);
    SameParity(negative, n, bits);
    PowersOfUnits(n);
    Powers(inverted, base, n, m);
    Same(0, m);
    SameAsZero(0, Power(base, n), m);
  }

  /** Exactly when a power folds right, whatever base and exponent are and fold to. */
  lemma PowerFoldsExactly(a: int, base: int, r: int, c: int, bits: nat)
    requires bits > 1 && Congruent(a, base, Pow2(bits)) && Congruent(r, c, Pow2(bits))
    ensures Matches(ConstPow(a, r, bits), ExactBinary(Pow, base, c), Pow2(bits))
       <==> PowerFoldsRight(a, base, r, c, bits)
  {
    var m := Pow2(bits);
    if r >= 0 {
      FoldedPow(a, base, r, bits);
      if c >= 0 {
        CongruentThrough(ConstPow(a, r, bits).value, Power(base, r), Power(base, c), m);
        if r == c { Same(Power(base, r), m); } else { PowersAgreeExactly(base, r, c, bits); }
      } else {
        Opposite(r, c, m);
        Same(base, m);
        MixedExponents(base, base, c, r, bits);
        if NegativePower(base, c).Some? {
          CongruentThrough(ConstPow(a, r, bits).value, Power(base, r), NegativePower(base, c).value, m);
          EitherWay(Power(base, r), NegativePower(base, c).value, m);
        }
      }
    } else if c < 0 {
      NegativeExponents(a, base, r, c, bits);
    } else {
      MixedExponents(a, base, r, c, bits);
    }
  }

  lemma EitherWay(a: int, b: int, m: int)
    ensures Congruent(a, b, m) <==> Congruent(b, a, m)
  {
    if Congruent(a, b, m) { Opposite(a, b, m); }
    if Congruent(b, a, m) { Opposite(b, a, m); }
  }

  // ---------------------------------------------------------------- bitwise operators

  lemma HalvesCongruent(a: int, b: int, n: nat)
    requires n > 0 && Congruent(a, b, Pow2(n))
    ensures a % 2 == b % 2 && Congruent(a / 2, b / 2, Pow2(n - 1))
  {
    var k :| Times(a, b, k, Pow2(n));
    var half := k * Pow2(n - 1);
    assert k * (2 * Pow2(n - 1)) == 2 * half;
    assert Times(a / 2, b / 2, k, Pow2(n - 1));
  }

  lemma FromHalves(x: int, y: int, n: nat)
    requires n > 0 && x % 2 == y % 2 && Congruent(x / 2, y / 2, Pow2(n - 1))
    ensures Congruent(x, y, Pow2(n))
  {
    var k :| Times(x / 2, y / 2, k, Pow2(n - 1));
    var half := k * Pow2(n - 1);
    assert k * (2 * Pow2(n - 1)) == 2 * half;
    assert Times(x, y, k, Pow2(n));
  }

  lemma {:induction false} FoldedAnd(a: int, b: int, c: int, d: int, n: nat)
    requires Congruent(a, b, Pow2(n)) && Congruent(c, d, Pow2(n))
    ensures Congruent(BitAnd(a, c), BitAnd(b, d), Pow2(n))
    decreases n
  {
    var x, y := BitAnd(a, c), BitAnd(b, d);
    if n == 0 {
      assert Times(x, y, x - y, 1);
    } else {
      HalvesCongruent(a, b, n);
      HalvesCongruent(c, d, n);
      FoldedAnd(a / 2, b / 2, c / 2, d / 2, n - 1);
      BitAndHalves(a, c);
      BitAndHalves(b, d);
      FromHalves(x, y, n);
    }
  }

  /** Or, xor and xnor are sums over and. */
  lemma SumsOverAnd(a: int, b: int, c: int, d: int, x: int, y: int, m: int)
    requires Congruent(a, b, m) && Congruent(c, d, m) && Congruent(x, y, m)
    ensures Congruent(a + c - x, b + d - y, m) && Congruent(a + c - 2 * x, b + d - 2 * y, m)
    ensures Congruent(Invert(a + c - 2 * x), Invert(b + d - 2 * y), m)
  {
    Sums(a, b, c, d, m);
    Sums(a + c, b + d, x, y, m);
    Sums(a + c - x, b + d - y, x, y, m);
    Same(-1, m);
    Sums(-1, -1, a + c - 2 * x, b + d - 2 * y, m);
  }

  lemma FoldedBitwise(op: BinOp, a: int, b: int, c: int, d: int, bits: nat)
    requires Bitwise(op) && Congruent(a, b, Pow2(bits)) && Congruent(c, d, Pow2(bits))
    ensures Matches(BinaryConst(op, a, c, bits), ExactBinary(op, b, d), Pow2(bits))
  {
    FoldedAnd(a, b, c, d, bits);
    SumsOverAnd(a, b, c, d, BitAnd(a, c), BitAnd(b, d), Pow2(bits));
  }

  // ---------------------------------------------------------------- right shifts

  predicate SameBit(a: int, r: nat, base: int, c: nat, i: nat) { BitAt(a, r + i) == BitAt(base, c + i) }

  /** n bits of a from position r on are n bits of base from position c on. */
  predicate SameBits(a: int, r: nat, base: int, c: nat, n: nat) {
    forall i :: 0 <= i < n ==> SameBit(a, r, base, c, i)
  }

  lemma SameHalves(x: int, y: int, n: nat)
    requires n > 0
    ensures SameBits(x, 0, y, 0, n) <==> x % 2 == y % 2 && SameBits(x / 2, 0, y / 2, 0, n - 1)
  {
    assert SameBit(x, 0, y, 0, 0) <==> x % 2 == y % 2;
    assert forall i: nat :: SameBit(x / 2, 0, y / 2, 0, i) <==> SameBit(x, 0, y, 0, i + 1);
    if x % 2 == y % 2 && SameBits(x / 2, 0, y / 2, 0, n - 1) {
      forall i | 0 <= i < n ensures SameBit(x, 0, y, 0, i) {
        if i > 0 { assert SameBit(x / 2, 0, y / 2, 0, i - 1); }
      }
    }
  }

  /** Congruent modulo 2^n means the same low n bits. */
  lemma {:induction false} SameLowBits(x: int, y: int, n: nat)
    ensures Congruent(x, y, Pow2(n)) <==> SameBits(x, 0, y, 0, n)
    decreases n
  {
    if n == 0 {
      assert Times(x, y, x - y, 1);
    } else {
      SameHalves(x, y, n);
      SameLowBits(x / 2, y / 2, n - 1);
      if Congruent(x, y, Pow2(n)) { HalvesCongruent(x, y, n); }
      if SameBits(x, 0, y, 0, n) { FromHalves(x, y, n); }
    }
  }

  lemma HalveFirst(a: int, m: int)
    requires m > 0
    ensures a / (2 * m) == a / 2 / m
  {
    var q, s := a / 2 / m, a / 2 % m;
    Commute(m, q);
    Unique(a, q, 2 * s + a % 2, 2 * m);
  }

  lemma {:induction false} ShiftedBit(a: int, r: nat, i: nat)
    ensures BitAt(a / Pow2(r), i) == BitAt(a, r + i)
    decreases r
  {
    if r > 0 {
      HalveFirst(a, Pow2(r - 1));
      ShiftedBit(a / 2, r - 1, i);
    }
  }

  /** What is left after shifting is congruent exactly when the bits moved down agree. */
  lemma ShiftedSameBits(a: int, r: nat, base: int, c: nat, n: nat)
    ensures Congruent(a / Pow2(r), base / Pow2(c), Pow2(n)) <==> SameBits(a, r, base, c, n)
  {
    var x, y := a / Pow2(r), base / Pow2(c);
    SameLowBits(x, y, n);
    forall i | 0 <= i < n ensures SameBit(x, 0, y, 0, i) <==> SameBit(a, r, base, c, i) {
      ShiftedBit(a, r, i);
      ShiftedBit(base, c, i);
    }
  }

  /** A right shift of an operand that folds to a but is exactly base, by a count that folds to r but is exactly c. */
  predicate RightShiftFoldsRight(a: int, base: int, r: int, c: int, bits: nat) {
    if r < 0 || c < 0 then r < 0 && c < 0
    else SameBits(a, r, base, c, bits)
  }

  /** Exactly when a right shift folds right: both counts are negative, or the operands agree on the bits that it moves
      below the bound. Bits from above the bound are among them. */
  lemma RightShiftFoldsExactly(a: int, base: int, r: int, c: int, bits: nat)
    ensures Matches(ShiftRight(a, r), ShiftRight(base, c), Pow2(bits))
       <==> RightShiftFoldsRight(a, base, r, c, bits)
  {
    if r >= 0 && c >= 0 { ShiftedSameBits(a, r, base, c, bits); }
  }

  // ---------------------------------------------------------------- selects, casts and concatenations

  lemma RemaindersExactly(x: int, y: int, n: nat)
    ensures x % Pow2(n) == y % Pow2(n) <==> Congruent(x, y, Pow2(n))
  {
    var m := Pow2(n);
    if x % m == y % m {
      Remainder(x, m);
      Remainder(y, m);
      Opposite(x % m, x, m);
      Chained(x, x % m, y, m);
    } else if Congruent(x, y, m) {
      CongruentLower(x, y, n, n);
    }
  }

  lemma {:induction false} WiderPower(n: nat, bits: nat)
    requires n <= bits
    ensures Pow2(n) <= Pow2(bits)
  {
    if n < bits { WiderPower(n, bits - 1); }
  }

  /** Numbers cut to n bits are congruent modulo 2^bits exactly when they were modulo the smaller power. */
  lemma CutsExactly(x: int, y: int, n: nat, bits: nat)
    ensures Congruent(x % Pow2(n), y % Pow2(n), Pow2(bits)) <==> Congruent(x, y, Pow2(Min(n, bits)))
  {
    var u, v := x % Pow2(n), y % Pow2(n);
    RemaindersExactly(u, v, bits);
    RemaindersExactly(x, y, n);
    if n <= bits {
      WiderPower(n, bits);
      Unique(u, 0, u, Pow2(bits));
      Unique(v, 0, v, Pow2(bits));
    } else {
      Remainder(x, Pow2(n));
      Remainder(y, Pow2(n));
      SmallerModulus(u, x, bits, n);
      SmallerModulus(v, y, bits, n);
      CongruentThrough(u, x, v, Pow2(bits));
      EitherWay(x, v, Pow2(bits));
      CongruentThrough(v, y, x, Pow2(bits));
      EitherWay(x, y, Pow2(bits));
    }
  }

  /** n bits from position r of what folds to a but is exactly base, where they should be from position c. */
  predicate SelectFoldsRight(a: int, base: int, r: int, c: int, n: int, bits: nat) {
    if n < 0 then true else if r < 0 || c < 0 then r < 0 && c < 0 else SameBits(a, r, base, c, Min(n, bits))
  }

  /** Exactly when a select folds right: there is no answer on either side, or the operands agree on the bits selected,
      up to as many as the bound. */
  lemma SelectFoldsExactly(a: int, base: int, r: int, c: int, n: int, bits: nat)
    ensures Matches(Answered(Bits(a, r, n)), Answered(Bits(base, c, n)), Pow2(bits))
       <==> SelectFoldsRight(a, base, r, c, n, bits)
  {
    if n >= 0 && r >= 0 && c >= 0 {
      CutsExactly(a / Pow2(r), base / Pow2(c), n, bits);
      ShiftedSameBits(a, r, base, c, Min(n, bits));
    }
  }

  /** And without any bound: the same bits are selected. */
  lemma SelectIsSameExactly(a: int, base: int, r: int, c: int, n: int)
    ensures Answered(Bits(a, r, n)) == Answered(Bits(base, c, n))
       <==> if n < 0 then true else if r < 0 || c < 0 then r < 0 && c < 0 else SameBits(a, r, base, c, n)
  {
    if n >= 0 && r >= 0 && c >= 0 {
      RemaindersExactly(a / Pow2(r), base / Pow2(c), n);
      ShiftedSameBits(a, r, base, c, n);
    }
  }

  /** Cutting to any width keeps what folds right. */
  lemma FoldedCut(x: int, y: int, n: nat, bits: nat)
    requires Congruent(x, y, Pow2(bits))
    ensures Congruent(x % Pow2(n), y % Pow2(n), Pow2(bits))
  {
    if n <= bits { SmallerModulus(x, y, n, bits); }
    CutsExactly(x, y, n, bits);
  }

  lemma FoldedPush(c: int, d: int, x: int, y: int, n: nat, bits: nat)
    requires Congruent(c, d, Pow2(bits)) && Congruent(x, y, Pow2(bits))
    ensures Congruent(Push(c, x, n), Push(d, y, n), Pow2(bits))
  {
    var m := Pow2(bits);
    FoldedCut(x, y, n, bits);
    Same(Pow2(n), m);
    Products(c, d, Pow2(n), Pow2(n), m);
    Sums(c * Pow2(n), d * Pow2(n), x % Pow2(n), y % Pow2(n), m);
  }

  lemma {:induction false} FoldedRepeated(x: int, y: int, width: nat, n: int, c: int, d: int, bits: nat)
    requires Congruent(c, d, Pow2(bits)) && Congruent(x, y, Pow2(bits))
    ensures Congruent(Repeated(x, width, n, c), Repeated(y, width, n, d), Pow2(bits))
    decreases n
  {
    if n > 0 {
      FoldedPush(c, d, x, y, width, bits);
      FoldedRepeated(x, y, width, n - 1, Push(c, x, width), Push(d, y, width), bits);
    }
  }

  // ---------------------------------------------------------------- all of them

  /** Whether an operation folds right over operands that fold to a and r but are exactly base and c. */
  predicate FoldsRight(op: BinOp, a: int, base: int, r: int, c: int, bits: nat) {
    match op
    case Shl => ShiftFoldsRight(base, r, c, bits)
    case Pow => PowerFoldsRight(a, base, r, c, bits)
    case Shr => RightShiftFoldsRight(a, base, r, c, bits)
    case _ => true
  }

  lemma OperationFoldsExactly(op: BinOp, a: int, base: int, r: int, c: int, bits: nat)
    requires bits > 1 && Folds(op) && Congruent(a, base, Pow2(bits)) && Congruent(r, c, Pow2(bits))
    ensures Matches(BinaryConst(op, a, r, bits), ExactBinary(op, base, c), Pow2(bits))
       <==> FoldsRight(op, a, base, r, c, bits)
  {
    match op
    case Shl => ShiftFoldsExactly(a, base, r, c, bits);
    case Pow => PowerFoldsExactly(a, base, r, c, bits);
    case Shr => RightShiftFoldsExactly(a, base, r, c, bits);
    case Mul => Products(a, base, r, c, Pow2(bits));
    case And => FoldedBitwise(op, a, base, r, c, bits);
    case Or => FoldedBitwise(op, a, base, r, c, bits);
    case Xor => FoldedBitwise(op, a, base, r, c, bits);
    case Xnor => FoldedBitwise(op, a, base, r, c, bits);
    case _ => Sums(a, base, r, c, Pow2(bits));
  }

  lemma FoldedUnary(op: UnOp, a: int, c: int, m: int)
    requires FoldsUnary(op) && Congruent(a, c, m)
    ensures Matches(UnaryConst(op, a), UnaryConst(op, c), m)
  {
    Same(-1, m);
    Sums(a, c, a, c, m);
    Sums(-1, -1, a, c, m);
  }
}
