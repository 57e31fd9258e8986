/** RV32I instruction words: encoding against decoding (sections 2.3 and 2.4.1 of the RISC-V Unprivileged ISA). */
module Firmware {
  import opened Congruences
  import opened ConstOps
  import opened Numbers
  import opened Packing

  /** A field of an instruction word: its value, its lowest bit position and its width. */
  datatype Field = Field(value: int, at: nat, width: nat)

  /** val[hi:lo] of an integer of any size and sign. */
  function Bits(val: int, hi: nat, lo: nat): int
    requires lo <= hi
  {
    val / Pow2(lo) % Pow2(hi - lo + 1)
  }

  /** The fields shifted into place and or-ed together, in order. */
  function Assemble(fields: seq<Field>): int {
    if fields == [] then 0
    else
      var f := fields[|fields| - 1];
      BitOr(Assemble(fields[..|fields| - 1]), f.value * Pow2(f.at))
  }

  function SType(imm: int, rs2: nat, rs1: nat, funct3: nat, opcode: nat): seq<Field> {
    [Field(Bits(imm, 11, 5), 25, 7), Field(rs2, 20, 5), Field(rs1, 15, 5), Field(funct3, 12, 3),
     Field(Bits(imm, 4, 0), 7, 5), Field(opcode, 0, 7)]
  }

  function BType(imm: int, rs2: nat, rs1: nat, funct3: nat, opcode: nat): seq<Field> {
    [Field(Bits(imm, 12, 12), 31, 1), Field(Bits(imm, 10, 5), 25, 6), Field(rs2, 20, 5), Field(rs1, 15, 5),
     Field(funct3, 12, 3), Field(Bits(imm, 4, 1), 8, 4), Field(Bits(imm, 11, 11), 7, 1), Field(opcode, 0, 7)]
  }

  function UType(imm: int, rd: nat, opcode: nat): seq<Field> {
    [Field(imm % 0x10_0000, 12, 20), Field(rd, 7, 5), Field(opcode, 0, 7)]
  }

  function JType(imm: int, rd: nat, opcode: nat): seq<Field> {
    [Field(Bits(imm, 20, 20), 31, 1), Field(Bits(imm, 10, 1), 21, 10), Field(Bits(imm, 11, 11), 20, 1),
     Field(Bits(imm, 19, 12), 12, 8), Field(rd, 7, 5), Field(opcode, 0, 7)]
  }

  function IType(imm: int, rs1: nat, funct3: nat, rd: nat, opcode: nat): seq<Field> {
    [Field(imm % 0x1000, 20, 12), Field(rs1, 15, 5), Field(funct3, 12, 3), Field(rd, 7, 5), Field(opcode, 0, 7)]
  }

  // ---------------------------------------------------------------- any contiguous layout

  /** Each field starts where the next one ends, the last at bit 0, and every value fits. */
  predicate Laid(fields: seq<Field>) {
    && fields != [] && fields[|fields| - 1].at == 0
    && (forall i :: 0 <= i < |fields| ==> 0 <= fields[i].value < Pow2(fields[i].width))
    && (forall i :: 0 <= i < |fields| - 1 ==> fields[i].at == fields[i + 1].at + fields[i + 1].width)
  }

  /** The first n fields as one number. */
  function Leading(fields: seq<Field>, n: nat): nat
    requires n <= |fields| && forall i :: 0 <= i < |fields| ==> 0 <= fields[i].value
  {
    if n == 0 then 0 else Leading(fields, n - 1) * Pow2(fields[n - 1].width) + fields[n - 1].value
  }

  lemma {:induction false} ApartIsZero(a: nat, k: nat, b: nat)
    requires b < Pow2(k)
    ensures BitAnd(a * Pow2(k), b) == 0
    decreases k
  {
    if k > 0 && a > 0 && b > 0 {
      var x := a * Pow2(k - 1);
      assert a * Pow2(k) == 2 * x;
      ApartIsZero(a, k - 1, b / 2);
    }
  }

  lemma Shifted(w: nat, v: nat, at: nat)
    requires v < Pow2(w)
    ensures v * Pow2(at) < Pow2(w + at)
  {
    PowersOfTwo(w, at);
    Multiples(Pow2(w) - v, Pow2(at));
    Commute(Pow2(w) - v, Pow2(at));
    Distribute(Pow2(at), Pow2(w), 0 - v);
    Commute(Pow2(at), Pow2(w));
    Commute(Pow2(at), 0 - v);
  }

  /** Or-ing in the next field appends it. */
  lemma OrAppends(before: nat, w: nat, v: nat, at: nat)
    requires v < Pow2(w)
    ensures BitOr(before * Pow2(w + at), v * Pow2(at)) == (before * Pow2(w) + v) * Pow2(at)
  {
    Shifted(w, v, at);
    Disjoint(before, w + at, v * Pow2(at));
    PowersOfTwo(w, at);
    Associate(before, Pow2(w), Pow2(at));
    Distribute(Pow2(at), before * Pow2(w), v);
    Commute(Pow2(at), before * Pow2(w) + v);
    Commute(Pow2(at), before * Pow2(w));
    Commute(Pow2(at), v);
  }

  lemma FieldAppended(word: int, before: nat, leading: nat, w: nat, v: nat, at: nat)
    requires word == before * Pow2(w + at) && v < Pow2(w) && leading == before * Pow2(w) + v
    ensures BitOr(word, v * Pow2(at)) == leading * Pow2(at)
  {
    OrAppends(before, w, v, at);
    SameFactor(leading, before * Pow2(w) + v, Pow2(at));
  }

  lemma SameFactor(a: int, b: int, c: int)
    requires a == b
    ensures a * c == b * c
  {
  }

  lemma OneMoreField(fields: seq<Field>, f: Field, before: nat, leading: nat)
    requires Assemble(fields) == before * Pow2(f.width + f.at)
    requires 0 <= f.value < Pow2(f.width) && leading == before * Pow2(f.width) + f.value
    ensures Assemble(fields + [f]) == leading * Pow2(f.at)
  {
    assert (fields + [f])[..|fields|] == fields;
    FieldAppended(Assemble(fields), before, leading, f.width, f.value, f.at);
  }

  lemma {:induction false} AssembledPrefix(fields: seq<Field>, n: nat)
    requires Laid(fields) && 0 < n <= |fields|
    ensures Assemble(fields[..n]) == Leading(fields, n) * Pow2(fields[n - 1].at)
    decreases n, 1
  {
    FieldsBefore(fields, n);
    assert fields[..n] == fields[..n - 1] + [fields[n - 1]];
    OneMoreField(fields[..n - 1], fields[n - 1], Leading(fields, n - 1), Leading(fields, n));
  }

  lemma {:induction false} FieldsBefore(fields: seq<Field>, n: nat)
    requires Laid(fields) && 0 < n <= |fields|
    ensures Assemble(fields[..n - 1]) == Leading(fields, n - 1) * Pow2(fields[n - 1].width + fields[n - 1].at)
    decreases n, 0
  {
    if n > 1 {
      AssembledPrefix(fields, n - 1);
      assert fields[n - 2].at == fields[n - 1].width + fields[n - 1].at;
    } else {
      assert Leading(fields, 0) == 0 && fields[..0] == [];
    }
  }

  lemma Disjoint(a: nat, k: nat, b: nat)
    requires b < Pow2(k)
    ensures BitOr(a * Pow2(k), b) == a * Pow2(k) + b
  {
    ApartIsZero(a, k, b);
  }

  lemma {:induction false} WordAbove(fields: seq<Field>, i: nat)
    requires Laid(fields) && i < |fields|
    ensures Assemble(fields) / Pow2(fields[i].at) == Leading(fields, i + 1)
    decreases |fields| - i
  {
    if i == |fields| - 1 {
      AssembledPrefix(fields, |fields|);
      assert fields[..|fields|] == fields;
    } else {
      WordAbove(fields, i + 1);
      Stacked(Assemble(fields), Leading(fields, i + 2), Leading(fields, i + 1), fields[i + 1].value,
              fields[i + 1].width, fields[i + 1].at);
      assert fields[i + 1].width + fields[i + 1].at == fields[i].at;
    }
  }

  /** Slicing a word at a field's position gives the field's value. */
  predicate ReadsBack(fields: seq<Field>, word: int) {
    forall i :: 0 <= i < |fields| && fields[i].width > 0 ==>
      Bits(word, fields[i].at + fields[i].width - 1, fields[i].at) == fields[i].value
  }

  lemma FieldsReadBack(fields: seq<Field>)
    requires Laid(fields)
    ensures ReadsBack(fields, Assemble(fields))
  {
    forall i | 0 <= i < |fields| && fields[i].width > 0
      ensures Bits(Assemble(fields), fields[i].at + fields[i].width - 1, fields[i].at) == fields[i].value
    {
      WordAbove(fields, i);
      Unique(Leading(fields, i + 1), Leading(fields, i), fields[i].value, Pow2(fields[i].width));
    }
  }

  lemma One(fields: seq<Field>, word: int, i: nat)
    requires ReadsBack(fields, word) && i < |fields| && fields[i].width > 0
    ensures Bits(word, fields[i].at + fields[i].width - 1, fields[i].at) == fields[i].value
  {
  }

  // ---------------------------------------------------------------- immediates

  /** The n-bit pattern x as a two's complement number. */
  function SignExtend(x: int, n: nat): int
    requires n > 0
  {
    if x >= Pow2(n - 1) then x - Pow2(n) else x
  }

  function SImmediate(word: int): int { SignExtend(Bits(word, 31, 25) * 32 + Bits(word, 11, 7), 12) }

  function BImmediate(word: int): int {
    SignExtend(Bits(word, 31, 31) * 4096 + Bits(word, 7, 7) * 2048 + Bits(word, 30, 25) * 32
                 + Bits(word, 11, 8) * 2, 13)
  }

  function JImmediate(word: int): int {
    SignExtend(Bits(word, 31, 31) * 0x10_0000 + Bits(word, 19, 12) * 0x1000 + Bits(word, 20, 20) * 0x800
               + Bits(word, 30, 21) * 2, 21)
  }

  function IImmediate(word: int): int { SignExtend(Bits(word, 31, 20), 12) }
  function UImmediate(word: int): int { Bits(word, 31, 12) * 0x1000 }
  function Rd(word: int): int { Bits(word, 11, 7) }
  function Rs1(word: int): int { Bits(word, 19, 15) }
  function Rs2(word: int): int { Bits(word, 24, 20) }
  function Funct3(word: int): int { Bits(word, 14, 12) }
  function Opcode(word: int): int { Bits(word, 6, 0) }

  lemma SmallPowers()
    ensures Pow2(0) == 1 && Pow2(1) == 2 && Pow2(3) == 8 && Pow2(4) == 16
    ensures Pow2(5) == 32 && Pow2(6) == 64 && Pow2(7) == 128
    ensures Pow2(8) == 256 && Pow2(10) == 0x400 && Pow2(11) == 0x800 && Pow2(12) == 0x1000 && Pow2(13) == 0x2000
    ensures Pow2(20) == 0x10_0000 && Pow2(21) == 0x20_0000 && Pow2(32) == 0x1_0000_0000
  {
    PowersOfTwo(12, 8);
    PowersOfTwo(20, 12);
  }

  /** Two adjacent slices are the slice over both. */
  lemma Adjacent(v: int, hi: nat, mid: nat, lo: nat)
    requires lo <= mid < hi
    ensures Bits(v, hi, mid + 1) * Pow2(mid - lo + 1) + Bits(v, mid, lo) == Bits(v, hi, lo)
  {
    var x, m, n := v / Pow2(lo), Pow2(mid - lo + 1), Pow2(hi - mid);
    Quotients(v, lo, mid - lo + 1);
    PowersOfTwo(hi - mid, mid - lo + 1);
    SplitRemainder(x, n, m);
  }

  lemma Quotients(v: int, a: nat, b: nat)
    ensures v / Pow2(a + b) == v / Pow2(a) / Pow2(b)
  {
    var x := v / Pow2(a);
    assert x == Pow2(b) * (x / Pow2(b)) + x % Pow2(b);
    Commute(Pow2(b), x / Pow2(b));
    Stacked(v, x, x / Pow2(b), x % Pow2(b), b, a);
    assert b + a == a + b;
  }

  lemma SplitRemainder(x: int, n: nat, m: nat)
    requires n > 0 && m > 0
    ensures n * m > 0 && x / m % n * m + x % m == x % (n * m)
  {
    var q, r := x / m / n, x / m % n;
    assert x == m * (x / m) + x % m && x / m == n * q + r;
    StackedProduct(x, m, n, q, r, x % m) by { Commute(n, q); }
    Multiples(n, m);
    Unique(x, q, r * m + x % m, n * m);
  }

  lemma WholeSlice(v: int, hi: nat)
    requires 0 - Pow2(hi) <= v < Pow2(hi)
    ensures SignExtend(Bits(v, hi, 0), hi + 1) == v
  {
    var m := Pow2(hi + 1);
    assert m == 2 * Pow2(hi);
    if v >= 0 { Unique(v, 0, v, m); } else { Unique(v, -1, v + m, m); }
  }

  predicate Registers(a: nat, b: nat) { a < 32 && b < 32 }

  // What the decoded immediates can be at all.

  lemma SImmediateRange(word: int)
    ensures -2048 <= SImmediate(word) < 2048
  {
    SmallPowers();
  }

  lemma BImmediateRange(word: int)
    ensures -4096 <= BImmediate(word) < 4096 && BImmediate(word) % 2 == 0
  {
    SmallPowers();
  }

  lemma JImmediateRange(word: int)
    ensures -0x10_0000 <= JImmediate(word) < 0x10_0000 && JImmediate(word) % 2 == 0
  {
    SmallPowers();
  }

  /** Decoding an S-type word gives back every field, and the immediate exactly when it has 12 bits. */
  lemma STypeRoundTrip(imm: int, rs2: nat, rs1: nat, funct3: nat, opcode: nat)
    requires Registers(rs1, rs2) && funct3 < 8 && opcode < 128
    ensures var word := Assemble(SType(imm, rs2, rs1, funct3, opcode));
            && Rs1(word) == rs1 && Rs2(word) == rs2 && Funct3(word) == funct3 && Opcode(word) == opcode
            && (SImmediate(word) == imm <==> -2048 <= imm < 2048)
  {
    STypeLaid(imm, rs2, rs1, funct3, opcode);
    FieldsReadBack(SType(imm, rs2, rs1, funct3, opcode));
    SDecodes(Assemble(SType(imm, rs2, rs1, funct3, opcode)), imm, rs2, rs1, funct3, opcode);
    SImmediateRange(Assemble(SType(imm, rs2, rs1, funct3, opcode)));
  }

  lemma SDecodes(word: int, imm: int, rs2: nat, rs1: nat, funct3: nat, opcode: nat)
    requires Registers(rs1, rs2) && funct3 < 8 && opcode < 128
    requires ReadsBack(SType(imm, rs2, rs1, funct3, opcode), word)
    ensures Rs1(word) == rs1 && Rs2(word) == rs2 && Funct3(word) == funct3 && Opcode(word) == opcode
    ensures -2048 <= imm < 2048 ==> SImmediate(word) == imm
  {
    var f := SType(imm, rs2, rs1, funct3, opcode);
    One(f, word, 0); One(f, word, 1); One(f, word, 2); One(f, word, 3);
    One(f, word, 4); One(f, word, 5);
    if -2048 <= imm < 2048 { SPattern(imm); }
  }

  lemma STypeLaid(imm: int, rs2: nat, rs1: nat, funct3: nat, opcode: nat)
    requires Registers(rs1, rs2) && funct3 < 8 && opcode < 128
    ensures Laid(SType(imm, rs2, rs1, funct3, opcode))
  {
    SmallPowers();
  }

  lemma SPattern(imm: int)
    requires -2048 <= imm < 2048
    ensures SignExtend(Bits(imm, 11, 5) * 32 + Bits(imm, 4, 0), 12) == imm
  {
    SmallPowers();
    Adjacent(imm, 11, 4, 0);
    WholeSlice(imm, 11);
  }

  /** Decoding a B-type word gives back every field, and the offset exactly when it has 13 bits and is even. */
  lemma BTypeRoundTrip(imm: int, rs2: nat, rs1: nat, funct3: nat, opcode: nat)
    requires Registers(rs1, rs2) && funct3 < 8 && opcode < 128
    ensures var word := Assemble(BType(imm, rs2, rs1, funct3, opcode));
            && Rs1(word) == rs1 && Rs2(word) == rs2 && Funct3(word) == funct3 && Opcode(word) == opcode
            && (BImmediate(word) == imm <==> -4096 <= imm < 4096 && imm % 2 == 0)
  {
    BTypeLaid(imm, rs2, rs1, funct3, opcode);
    FieldsReadBack(BType(imm, rs2, rs1, funct3, opcode));
    BDecodes(Assemble(BType(imm, rs2, rs1, funct3, opcode)), imm, rs2, rs1, funct3, opcode);
    BImmediateRange(Assemble(BType(imm, rs2, rs1, funct3, opcode)));
  }

  lemma BDecodes(word: int, imm: int, rs2: nat, rs1: nat, funct3: nat, opcode: nat)
    requires Registers(rs1, rs2) && funct3 < 8 && opcode < 128
    requires ReadsBack(BType(imm, rs2, rs1, funct3, opcode), word)
    ensures Rs1(word) == rs1 && Rs2(word) == rs2 && Funct3(word) == funct3 && Opcode(word) == opcode
    ensures -4096 <= imm < 4096 && imm % 2 == 0 ==> BImmediate(word) == imm
  {
    var f := BType(imm, rs2, rs1, funct3, opcode);
    One(f, word, 0); One(f, word, 1); One(f, word, 2); One(f, word, 3);
    One(f, word, 4); One(f, word, 5); One(f, word, 6); One(f, word, 7);
    if -4096 <= imm < 4096 && imm % 2 == 0 { BPattern(imm); }
  }

  lemma BTypeLaid(imm: int, rs2: nat, rs1: nat, funct3: nat, opcode: nat)
    requires Registers(rs1, rs2) && funct3 < 8 && opcode < 128
    ensures Laid(BType(imm, rs2, rs1, funct3, opcode))
  {
    SmallPowers();
  }

  lemma BPattern(imm: int)
    requires -4096 <= imm < 4096 && imm % 2 == 0
    ensures SignExtend(Bits(imm, 12, 12) * 4096 + Bits(imm, 11, 11) * 2048 + Bits(imm, 10, 5) * 32
                         + Bits(imm, 4, 1) * 2, 13) == imm
  {
    SmallPowers();
    Adjacent(imm, 4, 0, 0); Adjacent(imm, 10, 4, 0); Adjacent(imm, 11, 10, 0); Adjacent(imm, 12, 11, 0);
    WholeSlice(imm, 12);
  }

  /** The same for a jump offset, which has 21 bits and is even too. */
  lemma JTypeRoundTrip(imm: int, rd: nat, opcode: nat)
    requires rd < 32 && opcode < 128
    ensures var word := Assemble(JType(imm, rd, opcode));
            && Rd(word) == rd && Opcode(word) == opcode
            && (JImmediate(word) == imm <==> -0x10_0000 <= imm < 0x10_0000 && imm % 2 == 0)
  {
    JTypeLaid(imm, rd, opcode);
    FieldsReadBack(JType(imm, rd, opcode));
    JDecodes(Assemble(JType(imm, rd, opcode)), imm, rd, opcode);
    JImmediateRange(Assemble(JType(imm, rd, opcode)));
  }

  lemma JDecodes(word: int, imm: int, rd: nat, opcode: nat)
    requires rd < 32 && opcode < 128
    requires ReadsBack(JType(imm, rd, opcode), word)
    ensures Rd(word) == rd && Opcode(word) == opcode
    ensures -0x10_0000 <= imm < 0x10_0000 && imm % 2 == 0 ==> JImmediate(word) == imm
  {
    var f := JType(imm, rd, opcode);
    One(f, word, 0); One(f, word, 1); One(f, word, 2); One(f, word, 3);
    One(f, word, 4); One(f, word, 5);
    assert Bits(word, 31, 31) == Bits(imm, 20, 20) && Bits(word, 30, 21) == Bits(imm, 10, 1);
    assert Bits(word, 20, 20) == Bits(imm, 11, 11) && Bits(word, 19, 12) == Bits(imm, 19, 12);
    if -0x10_0000 <= imm < 0x10_0000 && imm % 2 == 0 { JPattern(imm); }
  }

  lemma JTypeLaid(imm: int, rd: nat, opcode: nat)
    requires rd < 32 && opcode < 128
    ensures Laid(JType(imm, rd, opcode))
  {
    SmallPowers();
  }

  lemma JPattern(imm: int)
    requires -0x10_0000 <= imm < 0x10_0000 && imm % 2 == 0
    ensures SignExtend(Bits(imm, 20, 20) * 0x10_0000 + Bits(imm, 19, 12) * 0x1000 + Bits(imm, 11, 11) * 0x800
                       + Bits(imm, 10, 1) * 2, 21) == imm
  {
    SmallPowers();
    Adjacent(imm, 10, 0, 0); Adjacent(imm, 11, 10, 0); Adjacent(imm, 19, 11, 0); Adjacent(imm, 20, 19, 0);
    WholeSlice(imm, 20);
  }

  lemma UTypeRoundTrip(imm: int, rd: nat, opcode: nat)
    requires rd < 32 && opcode < 128
    ensures var word := Assemble(UType(imm, rd, opcode));
            UImmediate(word) == imm % 0x10_0000 * 0x1000 && Rd(word) == rd && Opcode(word) == opcode
  {
    UTypeLaid(imm, rd, opcode);
    FieldsReadBack(UType(imm, rd, opcode));
    UDecodes(Assemble(UType(imm, rd, opcode)), imm, rd, opcode);
  }

  lemma UDecodes(word: int, imm: int, rd: nat, opcode: nat)
    requires rd < 32 && opcode < 128
    requires ReadsBack(UType(imm, rd, opcode), word)
    ensures UImmediate(word) == imm % 0x10_0000 * 0x1000 && Rd(word) == rd && Opcode(word) == opcode
  {
    var f := UType(imm, rd, opcode);
    One(f, word, 0); One(f, word, 1); One(f, word, 2);
  }

  lemma UTypeLaid(imm: int, rd: nat, opcode: nat)
    requires rd < 32 && opcode < 128
    ensures Laid(UType(imm, rd, opcode))
  {
    SmallPowers();
  }

  lemma ITypeRoundTrip(imm: int, rs1: nat, funct3: nat, rd: nat, opcode: nat)
    requires Registers(rs1, rd) && funct3 < 8 && opcode < 128
    ensures var word := Assemble(IType(imm, rs1, funct3, rd, opcode));
            && IImmediate(word) == SignExtend(imm % 0x1000, 12) && Rs1(word) == rs1 && Rd(word) == rd
            && Funct3(word) == funct3 && Opcode(word) == opcode
  {
    ITypeLaid(imm, rs1, funct3, rd, opcode);
    FieldsReadBack(IType(imm, rs1, funct3, rd, opcode));
    IDecodes(Assemble(IType(imm, rs1, funct3, rd, opcode)), imm, rs1, funct3, rd, opcode);
  }

  lemma IDecodes(word: int, imm: int, rs1: nat, funct3: nat, rd: nat, opcode: nat)
    requires Registers(rs1, rd) && funct3 < 8 && opcode < 128
    requires ReadsBack(IType(imm, rs1, funct3, rd, opcode), word)
    ensures && IImmediate(word) == SignExtend(imm % 0x1000, 12) && Rs1(word) == rs1 && Rd(word) == rd
            && Funct3(word) == funct3 && Opcode(word) == opcode
  {
    var f := IType(imm, rs1, funct3, rd, opcode);
    One(f, word, 0); One(f, word, 1); One(f, word, 2); One(f, word, 3);
    One(f, word, 4);
  }

  // ---------------------------------------------------------------- loading a 32-bit constant

  type Registers32 = map<int, int>

  function Read(regs: Registers32, r: int): int { if r == 0 || r !in regs then 0 else regs[r] }

  /** LUI and ADDI; any other word is left alone here. */
  function Execute(word: int, regs: Registers32): Registers32 {
    if Opcode(word) == 0x37 then regs[Rd(word) := UImmediate(word) % 0x1_0000_0000]
    else if Opcode(word) == 0x13 && Funct3(word) == 0 then
      regs[Rd(word) := (Read(regs, Rs1(word)) + IImmediate(word)) % 0x1_0000_0000]
    else regs
  }

  function ExecuteAll(code: seq<int>, regs: Registers32): Registers32 {
    if code == [] then regs else ExecuteAll(code[1..], Execute(code[0], regs))
  }

  function Lui(rd: nat, imm20: int): int { Assemble(UType(imm20, rd, 0x37)) }
  function Addi(rd: nat, rs1: nat, imm: int): int { Assemble(IType(imm % 0x1000, rs1, 0, rd, 0x13)) }

  function Words(instrs: seq<int>): seq<int> {
    seq(|instrs|, i requires 0 <= i < |instrs| => instrs[i] % 0x1_0000_0000)
  }

  class FirmwareBuilder {
    var code: seq<int>

    constructor ()
      ensures code == []
    {
      code := [];
    }

    method Emit(instrs: seq<int>)
      modifies this
      ensures code == old(code) + Words(instrs)
    {
      for i := 0 to |instrs|
        invariant code == old(code) + Words(instrs[..i])
      {
        assert Words(instrs[..i + 1]) == Words(instrs[..i]) + [instrs[i] % 0x1_0000_0000];
        code := code + [instrs[i] % 0x1_0000_0000];
      }
      assert instrs[..|instrs|] == instrs;
    }

    /** Executing what is appended leaves the value, modulo 2^32, in rd (x0 stays zero) and touches no other
        register. */
    method EmitLi32(rd: nat, value: int)
      requires rd < 32
      modifies this
      ensures |code| == |old(code)| + 2 && code[..|old(code)|] == old(code)
      ensures forall regs: Registers32, r: int ::
                Read(ExecuteAll(code[|old(code)|..], regs), r)
                == if r == rd && r != 0 then value % 0x1_0000_0000 else Read(regs, r)
    {
      var v := value % 0x1_0000_0000;
      var upper := (v + 0x800) / 0x1000;
      var lower := v % 0x1000;
      if lower >= 0x800 { lower := lower - 0x1000; }
      Emit([Lui(rd, upper)]);
      Emit([Addi(rd, rd, lower % 0x1000)]);
      var pair := [Lui(rd, upper) % 0x1_0000_0000, Addi(rd, rd, lower % 0x1000) % 0x1_0000_0000];
      assert code[|old(code)|..] == pair;
      forall regs: Registers32, r: int
        ensures Read(ExecuteAll(pair, regs), r) == if r == rd && r != 0 then v else Read(regs, r)
      {
        PairLoads(rd, v, regs, r);
      }
    }
  }

  lemma ZeroQuotient(v: int, n: nat)
    requires v / Pow2(n) == 0
    ensures 0 <= v < Pow2(n)
  {
    assert v == Pow2(n) * (v / Pow2(n)) + v % Pow2(n);
  }

  lemma WordFits(fields: seq<Field>)
    requires Laid(fields) && fields[0].at + fields[0].width == 32
    ensures 0 <= Assemble(fields) < 0x1_0000_0000
  {
    WordAbove(fields, 0);
    assert Leading(fields, 1) == 0 * Pow2(fields[0].width) + fields[0].value by { assert Leading(fields, 0) == 0; }
    Stacked(Assemble(fields), Leading(fields, 1), 0, fields[0].value, fields[0].width, fields[0].at);
    ZeroQuotient(Assemble(fields), 32);
    SmallPowers();
  }

  lemma LuiWord(rd: nat, upper: int)
    requires rd < 32
    ensures var word := Lui(rd, upper);
            word % 0x1_0000_0000 == word && Opcode(word) == 0x37 && Rd(word) == rd
            && UImmediate(word) == upper % 0x10_0000 * 0x1000
  {
    UTypeLaid(upper, rd, 0x37);
    WordFits(UType(upper, rd, 0x37));
    UTypeRoundTrip(upper, rd, 0x37);
  }

  lemma AddiWord(rd: nat, x: nat)
    requires rd < 32 && x < 0x1000
    ensures var word := Addi(rd, rd, x);
            word % 0x1_0000_0000 == word && Opcode(word) == 0x13 && Funct3(word) == 0
            && Rd(word) == rd && Rs1(word) == rd
            && IImmediate(word) == SignExtend(x, 12)
  {
    assert x % 0x1000 == x;
    ITypeLaid(x, rd, 0, rd, 0x13);
    WordFits(IType(x, rd, 0, rd, 0x13));
    ITypeRoundTrip(x, rd, 0, rd, 0x13);
  }

  lemma ITypeLaid(imm: int, rs1: nat, funct3: nat, rd: nat, opcode: nat)
    requires Registers(rs1, rd) && funct3 < 8 && opcode < 128
    ensures Laid(IType(imm, rs1, funct3, rd, opcode))
  {
    SmallPowers();
  }

  lemma LowIsSigned(v: int)
    ensures SignExtend(SignedLow(v) % 0x1000, 12) == SignedLow(v)
  {
    SmallPowers();
  }

  /** Rounding the upper part up makes good what sign extension of the lower part takes away. */
  lemma UpperAndLower(v: int)
    requires 0 <= v < 0x1_0000_0000
    ensures -0x800 <= SignedLow(v) < 0x800
    ensures ((v + 0x800) / 0x1000 % 0x10_0000 * 0x1000 + SignedLow(v)) % 0x1_0000_0000 == v
  {
  }

  lemma PairLoads(rd: nat, v: int, regs: Registers32, r: int)
    requires rd < 32 && 0 <= v < 0x1_0000_0000
    ensures Read(ExecuteAll([Lui(rd, (v + 0x800) / 0x1000) % 0x1_0000_0000,
                             Addi(rd, rd, SignedLow(v) % 0x1000) % 0x1_0000_0000], regs), r)
         == if r == rd && r != 0 then v else Read(regs, r)
  {
    var upper, x := (v + 0x800) / 0x1000, SignedLow(v) % 0x1000;
    LuiWord(rd, upper);
    AddiWord(rd, x);
    LowIsSigned(v);
    UpperAndLower(v);
    TwoSteps(Lui(rd, upper), Addi(rd, rd, x), rd, upper % 0x10_0000 * 0x1000, SignedLow(v), regs, r);
  }

  lemma TwoSteps(first: int, second: int, rd: nat, upper: int, lower: int, regs: Registers32, r: int)
    requires 0 <= upper < 0x1_0000_0000
    requires Opcode(first) == 0x37 && Rd(first) == rd && UImmediate(first) == upper
    requires Opcode(second) == 0x13 && Funct3(second) == 0
    requires Rd(second) == rd == Rs1(second) && IImmediate(second) == lower
    ensures Read(ExecuteAll([first, second], regs), r)
         == if r == rd && r != 0 then (upper + lower) % 0x1_0000_0000 else Read(regs, r)
  {
    assert [first, second][1..] == [second] && [second][1..] == [];
    assert Execute(first, regs) == regs[rd := upper];
    assert ExecuteAll([second], Execute(first, regs)) == Execute(second, Execute(first, regs));
  }

  function SignedLow(v: int): int { if v % 0x1000 >= 0x800 then v % 0x1000 - 0x1000 else v % 0x1000 }
}
