/** The parameter-cycle guard reports exactly the evaluations that never come to an end. */
module CycleGuard {
  import opened ConstEval

  const NO_END := Fail(Circular)

  predicate HasDefault(w: World, p: int) { p in w.params && w.params[p].Some? }

  /** Following an identifier to parameter p. */
  function Follow(p: int, w: World, l: Limit): Result
    requires HasDefault(w, p)
  {
    if Stops(l, p) then NO_END else Eval(w.params[p].value, w, Under(w, l, p))
  }

  /** Where following parameters ends under one limit, it ends with the same result under the other. */
  ghost predicate Carries(w: World, l: Limit, l': Limit) {
    forall p :: HasDefault(w, p) && Follow(p, w, l) != NO_END ==> Follow(p, w, l') == Follow(p, w, l)
  }

  predicate NeedsParameter(e: Expr, w: World)
    requires e.Ident?
  {
    e.path !in w.env && e.name !in w.env && e.resolved.Some? && HasDefault(w, e.resolved.value)
  }

  /** An identifier that is not known by name and has a default is followed; any other looks at no limit. */
  lemma IdentFollows(e: Expr, w: World, l: Limit)
    requires e.Ident?
    ensures Eval(e, w, l)
         == if NeedsParameter(e, w) then Follow(e.resolved.value, w, l)
            else if e.path in w.env then Value(w.env[e.path])
            else if e.name in w.env then Value(w.env[e.name])
            else Fail(UnknownIdentifier)
  {
  }

  /** Then so do all expressions. */
  lemma {:induction false} Transfer(e: Expr, w: World, l: Limit, l': Limit)
    requires Carries(w, l, l') && Eval(e, w, l) != NO_END
    ensures Eval(e, w, l') == Eval(e, w, l)
    decreases e, 1
  {
    match e
    case Literal(_, _, _) =>
    case Ident(_, _, _) =>
      IdentFollows(e, w, l);
      IdentFollows(e, w, l');
    case Unary(_, x) => Transfer(x, w, l, l');
    case Binary(_, x, y) => TransferTwo(e, x, y, w, l, l');
    case Ternary(c, yes, no) =>
      Transfer(c, w, l, l');
      if Eval(c, w, l).Value? {
        if Eval(c, w, l).value != 0 { Transfer(yes, w, l, l'); } else { Transfer(no, w, l, l'); }
      }
    case Concat(parts) =>
      if |parts| == 1 {
        assert (e decreases to parts) && (parts decreases to parts[0]) && (parts[0] decreases to parts[0].expr);
        Transfer(parts[0].expr, w, l, l');
      } else {
        TransferParts(parts, 0, w, l, l');
      }
    case Replicate(_, _) => TransferSelect(e, w, l, l');
    case RangeSelect(_, _, _) => TransferSelect(e, w, l, l');
    case PartSelect(_, _, _, _) => TransferSelect(e, w, l, l');
    case WidthCast(_, _) => TransferSelect(e, w, l, l');
    case _ => TransferCall(e, w, l, l');
  }

  lemma {:induction false} TransferSelect(e: Expr, w: World, l: Limit, l': Limit)
    requires e.Replicate? || e.RangeSelect? || e.PartSelect? || e.WidthCast?
    requires Carries(w, l, l') && Eval(e, w, l) != NO_END
    ensures Eval(e, w, l') == Eval(e, w, l)
    decreases e, 0, 1
  {
    match e
    case Replicate(count, part) => TransferTwo(e, count, part.expr, w, l, l');
    case RangeSelect(t, x, y) => TransferThree(e, t, x, y, w, l, l');
    case PartSelect(t, x, y, _) => TransferThree(e, t, x, y, w, l, l');
    case WidthCast(size, x) => TransferTwo(e, x, size, w, l, l');
  }

  lemma {:induction false} TransferCall(e: Expr, w: World, l: Limit, l': Limit)
    requires e.Mintypmax? || e.SignCall? || e.Clog2Call? || e.PowCall? || e.BitsCall? || e.NotConstant?
    requires Carries(w, l, l') && Eval(e, w, l) != NO_END
    ensures Eval(e, w, l') == Eval(e, w, l)
    decreases e, 0, 1
  {
    match e
    case Mintypmax(x) => Transfer(x, w, l, l');
    case SignCall(x) => Transfer(x, w, l, l');
    case Clog2Call(x) => Transfer(x, w, l, l');
    case PowCall(x, y) => TransferTwo(e, x, y, w, l, l');
    case _ =>
  }

  lemma {:induction false} TransferTwo(e: Expr, x: Expr, y: Expr, w: World, l: Limit, l': Limit)
    requires x < e && y < e && Carries(w, l, l')
    requires Eval(x, w, l) != NO_END && (Eval(x, w, l).Value? ==> Eval(y, w, l) != NO_END)
    ensures Eval(x, w, l') == Eval(x, w, l)
    ensures Eval(x, w, l).Value? ==> Eval(y, w, l') == Eval(y, w, l)
    decreases e, 0, 0
  {
    Transfer(x, w, l, l');
    if Eval(x, w, l).Value? { Transfer(y, w, l, l'); }
  }

  lemma {:induction false} TransferThree(e: Expr, x: Expr, y: Expr, z: Expr, w: World, l: Limit, l': Limit)
    requires x < e && y < e && z < e && Carries(w, l, l')
    requires Eval(x, w, l) != NO_END
    requires Eval(x, w, l).Value? ==> Eval(y, w, l) != NO_END
    requires Eval(x, w, l).Value? && Eval(y, w, l).Value? ==> Eval(z, w, l) != NO_END
    ensures Eval(x, w, l') == Eval(x, w, l)
    ensures Eval(x, w, l).Value? ==> Eval(y, w, l') == Eval(y, w, l)
    ensures Eval(x, w, l).Value? && Eval(y, w, l).Value? ==> Eval(z, w, l') == Eval(z, w, l)
    decreases e, 0, 0
  {
    Transfer(x, w, l, l');
    if Eval(x, w, l).Value? {
      Transfer(y, w, l, l');
      if Eval(y, w, l).Value? { Transfer(z, w, l, l'); }
    }
  }

  lemma {:induction false} TransferParts(parts: seq<Part>, collected: int, w: World, l: Limit, l': Limit)
    requires Carries(w, l, l') && EvalParts(parts, collected, w, l) != NO_END
    ensures EvalParts(parts, collected, w, l') == EvalParts(parts, collected, w, l)
    decreases parts, 0
  {
    if parts != [] {
      var Part(expr, _) := parts[0];
      var width := PartWidth(parts[0]);
      assert (parts decreases to parts[0]) && (parts[0] decreases to expr);
      Transfer(expr, w, l, l');
      var v := Eval(expr, w, l);
      if v.Value? && width.Some? && width.value >= 0 {
        TransferParts(parts[1..], Push(collected, v.value, width.value), w, l, l');
      }
    }
  }

  /** A deeper bound finds every result a shallower one finds. */
  lemma {:induction false} DeeperCarries(w: World, n: nat, n': nat)
    requires n <= n'
    ensures Carries(w, Depth(n), Depth(n'))
    decreases n
  {
    forall p | HasDefault(w, p) && Follow(p, w, Depth(n)) != NO_END
      ensures Follow(p, w, Depth(n')) == Follow(p, w, Depth(n))
    {
      DeeperCarries(w, n - 1, n' - 1);
      Transfer(w.params[p].value, w, Depth(n - 1), Depth(n' - 1));
    }
  }

  lemma LeastDepth(e: Expr, w: World, n: nat) returns (m: nat)
    requires Eval(e, w, Depth(n)) != NO_END
    ensures m <= n && Eval(e, w, Depth(m)) == Eval(e, w, Depth(n))
    ensures m > 0 ==> Eval(e, w, Depth(m - 1)) == NO_END
  {
    m := n;
    while m > 0 && Eval(e, w, Depth(m - 1)) != NO_END
      invariant m <= n && Eval(e, w, Depth(m)) == Eval(e, w, Depth(n))
    {
      DeeperCarries(w, m - 1, m);
      Transfer(e, w, Depth(m - 1), Depth(m));
      m := m - 1;
    }
  }

  /** A guard set none of whose parameters ends within n steps cannot get in the way of a result found within n:
      the shortest evaluation of a parameter never comes back to that parameter. */
  lemma {:induction false} GuardCarries(w: World, n: nat, resolving: set<int>)
    requires forall q :: q in resolving && HasDefault(w, q) ==> Follow(q, w, Depth(n)) == NO_END
    ensures Carries(w, Depth(n), Guard(resolving))
    decreases n
  {
    forall p | HasDefault(w, p) && Follow(p, w, Depth(n)) != NO_END
      ensures Follow(p, w, Guard(resolving)) == Follow(p, w, Depth(n))
    {
      var body := w.params[p].value;
      var m := LeastDepth(body, w, n - 1);
      forall q | q in resolving + {p} && HasDefault(w, q)
        ensures Follow(q, w, Depth(m)) == NO_END
      {
        if q != p { DeeperCarries(w, m, n); }
      }
      GuardCarries(w, m, resolving + {p});
      Transfer(body, w, Depth(m), Guard(resolving + {p}));
    }
  }

  /** What the guard lets through is found within as many steps as there are parameters not being resolved. */
  lemma {:induction false} DepthCarries(w: World, resolving: set<int>, n: nat)
    requires n >= |w.params.Keys - resolving|
    ensures Carries(w, Guard(resolving), Depth(n))
    decreases |w.params.Keys - resolving|
  {
    forall p | HasDefault(w, p) && Follow(p, w, Guard(resolving)) != NO_END
      ensures Follow(p, w, Depth(n)) == Follow(p, w, Guard(resolving))
    {
      var inside := Under(w, Guard(resolving), p);
      DepthCarries(w, resolving + {p}, n - 1);
      Transfer(w.params[p].value, w, inside, Depth(n - 1));
    }
  }

  /** On every finite, possibly cyclic parameter graph: whatever result an unguarded evaluation reaches at some
      depth, value or error, is the guarded result; the guard reports a cycle exactly when no depth is enough;
      and the number of parameters is a depth that always decides. */
  lemma GuardIsExact(e: Expr, w: World)
    ensures forall n: nat :: Eval(e, w, Depth(n)) != NO_END ==> Eval(e, w, Guard({})) == Eval(e, w, Depth(n))
    ensures Eval(e, w, Guard({})) == NO_END <==> forall n: nat :: Eval(e, w, Depth(n)) == NO_END
    ensures forall n: nat :: n >= |w.params| ==> Eval(e, w, Guard({})) == Eval(e, w, Depth(n))
  {
    forall n: nat | Eval(e, w, Depth(n)) != NO_END
      ensures Eval(e, w, Guard({})) == Eval(e, w, Depth(n))
    {
      GuardCarries(w, n, {});
      Transfer(e, w, Depth(n), Guard({}));
    }
    if Eval(e, w, Guard({})) != NO_END {
      assert w.params.Keys - {} == w.params.Keys;
      forall n: nat | n >= |w.params|
        ensures Eval(e, w, Guard({})) == Eval(e, w, Depth(n))
      {
        DepthCarries(w, {}, n);
        Transfer(e, w, Guard({}), Depth(n));
      }
      assert Eval(e, w, Guard({})) == Eval(e, w, Depth(|w.params|));
    }
  }
}
