/** What recorded widths can change about a constant: nothing that could be folded without them. */
module RecordedWidths {
  import opened CycleGuard
  import opened ConstEval

  const LACKS_WIDTH := Fail(NoWidth)

  /** The same parameters and the same values known by name. */
  predicate SameShape(w: World, w': World) {
    && w'.env == w.env && w.params.Keys == w'.params.Keys
    && forall p :: p in w.params ==> w.params[p].Some? == w'.params[p].Some?
  }

  /** The same expression with more widths recorded on its parts, none of which contradicts a width known before or,
      under $bits, what the environment says; the same goes for what it follows. */
  predicate More(e: Expr, e': Expr, w: World, w': World, l: Limit)
    requires SameShape(w, w')
    decreases Rank(w, l), e, 1
  {
    match e
    case Ident(_, _, resolved) =>
      && e' == e
      && (NeedsParameter(e, w) && !Stops(l, resolved.value) ==>
            More(w.params[resolved.value].value, w'.params[resolved.value].value, w, w', Under(w, l, resolved.value)))
    case Unary(op, x) => e'.Unary? && e'.uop == op && More(x, e'.operand, w, w', l)
    case Binary(op, x, y) => e'.Binary? && e'.bop == op && More(x, e'.left, w, w', l) && More(y, e'.right, w, w', l)
    case Ternary(c, x, y) =>
      e'.Ternary? && More(c, e'.cond, w, w', l) && More(x, e'.yes, w, w', l) && More(y, e'.no, w, w', l)
    case Concat(parts) => e'.Concat? && MoreParts(parts, e'.parts, w, w', l)
    case Replicate(n, part) =>
      && e'.Replicate? && KeepsWidth(part, e'.part)
      && More(n, e'.count, w, w', l) && More(part.expr, e'.part.expr, w, w', l)
    case RangeSelect(t, m, ls) =>
      e'.RangeSelect? && More(t, e'.target, w, w', l) && More(m, e'.msb, w, w', l) && More(ls, e'.lsb, w, w', l)
    case PartSelect(t, b, n, up) =>
      && e'.PartSelect? && e'.up == up
      && More(t, e'.target, w, w', l) && More(b, e'.base, w, w', l) && More(n, e'.size, w, w', l)
    case WidthCast(n, x) => e'.WidthCast? && More(n, e'.size, w, w', l) && More(x, e'.operand, w, w', l)
    case Mintypmax(x) => e'.Mintypmax? && More(x, e'.operand, w, w', l)
    case SignCall(x) => e'.SignCall? && More(x, e'.operand, w, w', l)
    case Clog2Call(x) => e'.Clog2Call? && More(x, e'.operand, w, w', l)
    case PowCall(x, y) => e'.PowCall? && More(x, e'.left, w, w', l) && More(y, e'.right, w, w', l)
    case BitsCall(part) => e'.BitsCall? && KeepsAnswer(part, e'.part, w.env)
    case _ => e' == e
  }

  predicate KeepsWidth(part: Part, part': Part) {
    PartWidth(part).Some? ==> PartWidth(part') == PartWidth(part)
  }

  predicate KeepsAnswer(part: Part, part': Part, env: map<string, int>) {
    BitsAnswer(part, env).Value? ==> BitsAnswer(part', env) == BitsAnswer(part, env)
  }

  predicate MoreParts(parts: seq<Part>, parts': seq<Part>, w: World, w': World, l: Limit)
    requires SameShape(w, w')
    decreases Rank(w, l), parts, 0
  {
    && |parts| == |parts'|
    && (parts != [] ==>
          assert (parts decreases to parts[0]) && (parts[0] decreases to parts[0].expr);
          && More(parts[0].expr, parts'[0].expr, w, w', l) && KeepsWidth(parts[0], parts'[0])
          && MoreParts(parts[1..], parts'[1..], w, w', l))
  }

  lemma {:induction false} MoreKeeps(e: Expr, e': Expr, w: World, w': World, l: Limit)
    requires SameShape(w, w') && More(e, e', w, w', l) && Eval(e, w, l) != LACKS_WIDTH
    ensures Eval(e', w', l) == Eval(e, w, l)
    decreases Rank(w, l), e, 2
  {
    match e
    case Literal(_, _, _) =>
    case Ident(_, _, _) => IdentKeeps(e, w, w', l);
    case Unary(_, _) => OperatorKeeps(e, e', w, w', l);
    case Binary(_, _, _) => OperatorKeeps(e, e', w, w', l);
    case Ternary(_, _, _) => TernaryKeeps(e, e', w, w', l);
    case Concat(parts) => ConcatKeeps(e, e', w, w', l);
    case Replicate(_, _) => ReplicateKeeps(e, e', w, w', l);
    case RangeSelect(_, _, _) => RangeSelectKeeps(e, e', w, w', l);
    case PartSelect(_, _, _, _) => PartSelectKeeps(e, e', w, w', l);
    case WidthCast(_, _) => WidthCastKeeps(e, e', w, w', l);
    case PowCall(_, _) => PowCallKeeps(e, e', w, w', l);
    case BitsCall(_) => BitsCallKeeps(e, e', w, w', l);
    case NotConstant =>
    case _ => CallKeeps(e, e', w, w', l);
  }

  lemma {:induction false} IdentKeeps(e: Expr, w: World, w': World, l: Limit)
    requires SameShape(w, w') && e.Ident? && More(e, e, w, w', l) && Eval(e, w, l) != LACKS_WIDTH
    ensures Eval(e, w', l) == Eval(e, w, l)
    decreases Rank(w, l), e, 1
  {
    IdentFollows(e, w, l);
    IdentFollows(e, w', l);
    if NeedsParameter(e, w) && !Stops(l, e.resolved.value) {
      var p := e.resolved.value;
      var inside := Under(w, l, p);
      assert Under(w', l, p) == inside;
      MoreKeeps(w.params[p].value, w'.params[p].value, w, w', inside);
    }
  }

  lemma {:induction false} ConcatKeeps(e: Expr, e': Expr, w: World, w': World, l: Limit)
    requires SameShape(w, w') && e.Concat? && More(e, e', w, w', l) && Eval(e, w, l) != LACKS_WIDTH
    ensures Eval(e', w', l) == Eval(e, w, l)
    decreases Rank(w, l), e, 1
  {
    if |e.parts| == 1 {
      assert (e decreases to e.parts) && (e.parts decreases to e.parts[0]) && (e.parts[0] decreases to e.parts[0].expr);
      assert MoreParts(e.parts, e'.parts, w, w', l);
      assert More(e.parts[0].expr, e'.parts[0].expr, w, w', l);
      MoreKeeps(e.parts[0].expr, e'.parts[0].expr, w, w', l);
    } else {
      PartsKeep(e.parts, e'.parts, 0, w, w', l);
    }
  }

  lemma {:induction false} PartsKeep(parts: seq<Part>, parts': seq<Part>, collected: int, w: World, w': World, l: Limit)
    requires SameShape(w, w') && MoreParts(parts, parts', w, w', l) && EvalParts(parts, collected, w, l) != LACKS_WIDTH
    ensures EvalParts(parts', collected, w', l) == EvalParts(parts, collected, w, l)
    decreases Rank(w, l), parts, 0
  {
    if parts != [] {
      var expr, width := parts[0].expr, PartWidth(parts[0]);
      assert (parts decreases to parts[0]) && (parts[0] decreases to expr);
      MoreKeeps(expr, parts'[0].expr, w, w', l);
      var v := Eval(expr, w, l);
      if v.Value? && width.Some? && width.value >= 0 {
        PartsKeep(parts[1..], parts'[1..], Push(collected, v.value, width.value), w, w', l);
      }
    }
  }

  lemma {:induction false} TwoKeep(e: Expr, x: Expr, y: Expr, x': Expr, y': Expr, w: World, w': World, l: Limit)
    requires SameShape(w, w') && x < e && y < e && More(x, x', w, w', l) && More(y, y', w, w', l)
    requires Eval(x, w, l) != LACKS_WIDTH && (Eval(x, w, l).Value? ==> Eval(y, w, l) != LACKS_WIDTH)
    ensures Eval(x', w', l) == Eval(x, w, l)
    ensures Eval(x, w, l).Value? ==> Eval(y', w', l) == Eval(y, w, l)
    decreases Rank(w, l), e, 0
  {
    MoreKeeps(x, x', w, w', l);
    if Eval(x, w, l).Value? { MoreKeeps(y, y', w, w', l); }
  }

  lemma {:induction false} ThreeKeep(e: Expr, x: Expr, y: Expr, z: Expr, x': Expr, y': Expr, z': Expr,
                                     w: World, w': World, l: Limit)
    requires x < e && y < e && z < e && SameShape(w, w')
    requires More(x, x', w, w', l) && More(y, y', w, w', l) && More(z, z', w, w', l)
    requires Eval(x, w, l) != LACKS_WIDTH && (Eval(x, w, l).Value? ==> Eval(y, w, l) != LACKS_WIDTH)
    requires Eval(x, w, l).Value? && Eval(y, w, l).Value? ==> Eval(z, w, l) != LACKS_WIDTH
    ensures Eval(x', w', l) == Eval(x, w, l)
    ensures Eval(x, w, l).Value? ==> Eval(y', w', l) == Eval(y, w, l)
    ensures Eval(x, w, l).Value? && Eval(y, w, l).Value? ==> Eval(z', w', l) == Eval(z, w, l)
    decreases Rank(w, l), e, 0
  {
    MoreKeeps(x, x', w, w', l);
    if Eval(x, w, l).Value? {
      MoreKeeps(y, y', w, w', l);
      if Eval(y, w, l).Value? { MoreKeeps(z, z', w, w', l); }
    }
  }

  lemma {:induction false} OperatorKeeps(e: Expr, e': Expr, w: World, w': World, l: Limit)
    requires e.Unary? || e.Binary?
    requires SameShape(w, w') && More(e, e', w, w', l) && Eval(e, w, l) != LACKS_WIDTH
    ensures Eval(e', w', l) == Eval(e, w, l)
    decreases Rank(w, l), e, 1
  {
    match e
    case Unary(_, x) => MoreKeeps(x, e'.operand, w, w', l);
    case Binary(_, x, y) => TwoKeep(e, x, y, e'.left, e'.right, w, w', l);
  }

  lemma {:induction false} TernaryKeeps(e: Expr, e': Expr, w: World, w': World, l: Limit)
    requires e.Ternary?
    requires SameShape(w, w') && More(e, e', w, w', l) && Eval(e, w, l) != LACKS_WIDTH
    ensures Eval(e', w', l) == Eval(e, w, l)
    decreases Rank(w, l), e, 1
  {
    MoreKeeps(e.cond, e'.cond, w, w', l);
    if Eval(e.cond, w, l).Value? {
      if Eval(e.cond, w, l).value != 0 {
        MoreKeeps(e.yes, e'.yes, w, w', l);
      } else {
        MoreKeeps(e.no, e'.no, w, w', l);
      }
    }
  }

  lemma {:induction false} ReplicateKeeps(e: Expr, e': Expr, w: World, w': World, l: Limit)
    requires e.Replicate?
    requires SameShape(w, w') && More(e, e', w, w', l) && Eval(e, w, l) != LACKS_WIDTH
    ensures Eval(e', w', l) == Eval(e, w, l)
    decreases Rank(w, l), e, 1
  {
    TwoKeep(e, e.count, e.part.expr, e'.count, e'.part.expr, w, w', l);
  }

  lemma {:induction false} RangeSelectKeeps(e: Expr, e': Expr, w: World, w': World, l: Limit)
    requires e.RangeSelect?
    requires SameShape(w, w') && More(e, e', w, w', l) && Eval(e, w, l) != LACKS_WIDTH
    ensures Eval(e', w', l) == Eval(e, w, l)
    decreases Rank(w, l), e, 1
  {
    ThreeKeep(e, e.target, e.msb, e.lsb, e'.target, e'.msb, e'.lsb, w, w', l);
  }

  lemma {:induction false} PartSelectKeeps(e: Expr, e': Expr, w: World, w': World, l: Limit)
    requires e.PartSelect?
    requires SameShape(w, w') && More(e, e', w, w', l) && Eval(e, w, l) != LACKS_WIDTH
    ensures Eval(e', w', l) == Eval(e, w, l)
    decreases Rank(w, l), e, 1
  {
    ThreeKeep(e, e.target, e.base, e.size, e'.target, e'.base, e'.size, w, w', l);
  }

  lemma {:induction false} WidthCastKeeps(e: Expr, e': Expr, w: World, w': World, l: Limit)
    requires e.WidthCast?
    requires SameShape(w, w') && More(e, e', w, w', l) && Eval(e, w, l) != LACKS_WIDTH
    ensures Eval(e', w', l) == Eval(e, w, l)
    decreases Rank(w, l), e, 1
  {
    TwoKeep(e, e.operand, e.size, e'.operand, e'.size, w, w', l);
  }

  lemma {:induction false} PowCallKeeps(e: Expr, e': Expr, w: World, w': World, l: Limit)
    requires e.PowCall?
    requires SameShape(w, w') && More(e, e', w, w', l) && Eval(e, w, l) != LACKS_WIDTH
    ensures Eval(e', w', l) == Eval(e, w, l)
    decreases Rank(w, l), e, 1
  {
    TwoKeep(e, e.left, e.right, e'.left, e'.right, w, w', l);
  }

  lemma {:induction false} CallKeeps(e: Expr, e': Expr, w: World, w': World, l: Limit)
    requires e.Mintypmax? || e.SignCall? || e.Clog2Call?
    requires SameShape(w, w') && More(e, e', w, w', l) && Eval(e, w, l) != LACKS_WIDTH
    ensures Eval(e', w', l) == Eval(e, w, l)
    decreases Rank(w, l), e, 1
  {
    MoreKeeps(e.operand, e'.operand, w, w', l);
  }

  lemma BitsCallKeeps(e: Expr, e': Expr, w: World, w': World, l: Limit)
    requires e.BitsCall?
    requires SameShape(w, w') && More(e, e', w, w', l) && Eval(e, w, l) != LACKS_WIDTH
    ensures Eval(e', w', l) == Eval(e, w, l)
  {
  }

  /** Every part has a width, and every $bits a recorded one. */
  predicate AllWidths(e: Expr) {
    match e
    case Unary(_, x) => AllWidths(x)
    case Binary(_, x, y) => AllWidths(x) && AllWidths(y)
    case Ternary(c, x, y) => AllWidths(c) && AllWidths(x) && AllWidths(y)
    case Concat(parts) => AllPartWidths(parts)
    case Replicate(n, part) => AllWidths(n) && AllWidths(part.expr) && PartWidth(part).Some?
    case RangeSelect(t, m, l) => AllWidths(t) && AllWidths(m) && AllWidths(l)
    case PartSelect(t, b, n, _) => AllWidths(t) && AllWidths(b) && AllWidths(n)
    case WidthCast(n, x) => AllWidths(n) && AllWidths(x)
    case Mintypmax(x) => AllWidths(x)
    case SignCall(x) => AllWidths(x)
    case Clog2Call(x) => AllWidths(x)
    case PowCall(x, y) => AllWidths(x) && AllWidths(y)
    case BitsCall(part) => part.recorded.Some?
    case _ => true
  }

  predicate AllPartWidths(parts: seq<Part>) {
    parts != [] ==>
      assert (parts decreases to parts[0]) && (parts[0] decreases to parts[0].expr);
      AllWidths(parts[0].expr) && PartWidth(parts[0]).Some? && AllPartWidths(parts[1..])
  }

  predicate WorldHasWidths(w: World) {
    forall p :: p in w.params && w.params[p].Some? ==> AllWidths(w.params[p].value)
  }

  lemma {:induction false} NeverLacksWidth(e: Expr, w: World, l: Limit)
    requires AllWidths(e) && WorldHasWidths(w)
    ensures Eval(e, w, l) != LACKS_WIDTH
    decreases Rank(w, l), e, 2
  {
    match e
    case Literal(_, _, _) =>
    case Ident(_, _, _) => IdentNeverLacksWidth(e, w, l);
    case Unary(_, x) => NeverLacksWidth(x, w, l);
    case Binary(_, x, y) =>
      NeverLacksWidth(x, w, l);
      NeverLacksWidth(y, w, l);
    case Ternary(c, x, y) =>
      NeverLacksWidth(c, w, l);
      NeverLacksWidth(x, w, l);
      NeverLacksWidth(y, w, l);
    case Concat(_) => PackedNeverLacksWidth(e, w, l);
    case Replicate(_, _) => PackedNeverLacksWidth(e, w, l);
    case RangeSelect(_, _, _) => SelectNeverLacksWidth(e, w, l);
    case PartSelect(_, _, _, _) => SelectNeverLacksWidth(e, w, l);
    case _ => CallNeverLacksWidth(e, w, l);
  }

  lemma {:induction false} IdentNeverLacksWidth(e: Expr, w: World, l: Limit)
    requires e.Ident? && WorldHasWidths(w)
    ensures Eval(e, w, l) != LACKS_WIDTH
    decreases Rank(w, l), e, 1
  {
    IdentFollows(e, w, l);
    if NeedsParameter(e, w) && !Stops(l, e.resolved.value) {
      var inside, default := Under(w, l, e.resolved.value), w.params[e.resolved.value].value;
      NeverLacksWidth(default, w, inside);
    }
  }

  lemma {:induction false} PackedNeverLacksWidth(e: Expr, w: World, l: Limit)
    requires (e.Concat? || e.Replicate?) && AllWidths(e) && WorldHasWidths(w)
    ensures Eval(e, w, l) != LACKS_WIDTH
    decreases Rank(w, l), e, 1
  {
    match e
    case Concat(parts) =>
      if |parts| == 1 {
        assert (e decreases to parts) && (parts decreases to parts[0]) && (parts[0] decreases to parts[0].expr);
        NeverLacksWidth(parts[0].expr, w, l);
      } else {
        PartsNeverLackWidth(parts, 0, w, l);
      }
    case Replicate(n, part) =>
      NeverLacksWidth(n, w, l);
      NeverLacksWidth(part.expr, w, l);
  }

  lemma {:induction false} SelectNeverLacksWidth(e: Expr, w: World, l: Limit)
    requires (e.RangeSelect? || e.PartSelect?) && AllWidths(e) && WorldHasWidths(w)
    ensures Eval(e, w, l) != LACKS_WIDTH
    decreases Rank(w, l), e, 1
  {
    match e
    case RangeSelect(t, m, ls) =>
      NeverLacksWidth(t, w, l);
      NeverLacksWidth(m, w, l);
      NeverLacksWidth(ls, w, l);
    case PartSelect(t, b, n, _) =>
      NeverLacksWidth(t, w, l);
      NeverLacksWidth(b, w, l);
      NeverLacksWidth(n, w, l);
  }

  lemma {:induction false} CallNeverLacksWidth(e: Expr, w: World, l: Limit)
    requires e.WidthCast? || e.Mintypmax? || e.SignCall? || e.Clog2Call? || e.PowCall? || e.BitsCall? || e.NotConstant?
    requires AllWidths(e) && WorldHasWidths(w)
    ensures Eval(e, w, l) != LACKS_WIDTH
    decreases Rank(w, l), e, 1
  {
    match e
    case WidthCast(n, x) =>
      NeverLacksWidth(n, w, l);
      NeverLacksWidth(x, w, l);
    case Mintypmax(x) => NeverLacksWidth(x, w, l);
    case SignCall(x) => NeverLacksWidth(x, w, l);
    case Clog2Call(x) => NeverLacksWidth(x, w, l);
    case PowCall(x, y) =>
      NeverLacksWidth(x, w, l);
      NeverLacksWidth(y, w, l);
    case _ =>
  }

  lemma {:induction false} PartsNeverLackWidth(parts: seq<Part>, collected: int, w: World, l: Limit)
    requires AllPartWidths(parts) && WorldHasWidths(w)
    ensures EvalParts(parts, collected, w, l) != LACKS_WIDTH
    decreases Rank(w, l), parts, 0
  {
    if parts != [] {
      var expr, width := parts[0].expr, PartWidth(parts[0]);
      assert (parts decreases to parts[0]) && (parts[0] decreases to expr);
      NeverLacksWidth(expr, w, l);
      var v := Eval(expr, w, l);
      if v.Value? && width.value >= 0 { PartsNeverLackWidth(parts[1..], Push(collected, v.value, width.value), w, l); }
    }
  }
}
