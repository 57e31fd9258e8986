/** What concatenation, replication and selects of constants mean to each other. */
module Packing {
  import opened Numbers
  import opened Options
  import opened ConstEval
  import opened Congruences

  function TotalWidth(parts: seq<Part>): nat {
    if parts == [] then 0 else
    var width := PartWidth(parts[0]);
    (if width.Some? && width.value >= 0 then width.value else 0) + TotalWidth(parts[1..])
  }

  /** n parts are laid out with their first most significant, each cut to its width. */
  lemma {:induction false} PartsInPlace(parts: seq<Part>, c: int, w: World, l: Limit, i: nat)
    requires EvalParts(parts, c, w, l).Value?
    ensures EvalParts(parts, c, w, l).value / Pow2(TotalWidth(parts)) == c
    ensures i < |parts| ==>
              && PartWidth(parts[i]).Some? && PartWidth(parts[i]).value >= 0 && Eval(parts[i].expr, w, l).Value?
              && EvalParts(parts, c, w, l).value / Pow2(TotalWidth(parts[i + 1..])) % Pow2(PartWidth(parts[i]).value)
                 == Eval(parts[i].expr, w, l).value % Pow2(PartWidth(parts[i]).value)
    decreases |parts|
  {
    if parts == [] {
      assert Pow2(TotalWidth(parts)) == 1;
    } else {
      var Part(expr, _) := parts[0];
      var width := PartWidth(parts[0]);
      var rest := parts[1..];
      var x, n, t := Eval(expr, w, l).value, width.value, TotalWidth(rest);
      var pushed := Push(c, x, n);
      var v := EvalParts(parts, c, w, l).value;
      PartsInPlace(rest, pushed, w, l, if i > 0 then i - 1 else 0);
      if i > 0 && i < |parts| { assert rest[i - 1 + 1..] == parts[i + 1..]; }
      Stacked(v, pushed, c, x % Pow2(n), n, t);
      if i == 0 { Unique(pushed, c, x % Pow2(n), Pow2(n)); }
    }
  }

  /** v over 2^t is c * 2^n + y: then v over 2^(n + t) is c. */
  lemma Stacked(v: int, pushed: int, c: int, y: int, n: nat, t: nat)
    requires v / Pow2(t) == pushed == c * Pow2(n) + y && 0 <= y < Pow2(n)
    ensures v / Pow2(n + t) == c
  {
    PowersOfTwo(n, t);
    assert v == Pow2(t) * pushed + v % Pow2(t);
    StackedProduct(v, Pow2(t), Pow2(n), c, y, v % Pow2(t));
    Unique(v, c, y * Pow2(t) + v % Pow2(t), Pow2(n) * Pow2(t));
  }

  lemma StackedProduct(v: int, p: int, q: int, c: int, y: int, r: int)
    requires v == p * (c * q + y) + r && 0 <= y < q && 0 <= r < p
    ensures v == c * (q * p) + (y * p + r) && 0 <= y * p + r < q * p
  {
    Distribute(p, c * q, y);
    Associate(c, q, p);
    Commute(p, c * q);
    Commute(p, y);
    Distribute(p, q, -1 - y);
    Commute(p, q);
    Commute(p, -1 - y);
    NonNegative(y, p);
    NonNegative(q - 1 - y, p);
    Commute(q - 1 - y, p);
    assert p * (q + (-1 - y)) >= 0;
    assert (-1 - y) * p == -p - y * p;
  }

  /** A folded concatenation of two or more parts lies in [0, 2^(sum of widths)). */
  lemma ConcatIsInRange(parts: seq<Part>, w: World, l: Limit)
    requires |parts| >= 2 && Eval(Concat(parts), w, l).Value?
    ensures 0 <= Eval(Concat(parts), w, l).value < Pow2(TotalWidth(parts))
  {
    PartsInPlace(parts, 0, w, l, 0);
    var v, m := Eval(Concat(parts), w, l).value, Pow2(TotalWidth(parts));
    assert v == m * (v / m) + v % m;
  }

  /** Every way to select a part's bits, [hi:lo] in either order, +: and -:, gives back that part cut to its width. */
  lemma SelectsReturnParts(parts: seq<Part>, i: nat, w: World, l: Limit)
    requires |parts| >= 2 && i < |parts| && Eval(Concat(parts), w, l).Value?
    requires PartWidth(parts[i]).Some? && PartWidth(parts[i]).value >= 1
    ensures Eval(parts[i].expr, w, l).Value?
    ensures var n, lo := PartWidth(parts[i]).value, TotalWidth(parts[i + 1..]);
            var low, high, size := Literal(lo, None, false), Literal(lo + n - 1, None, false), Literal(n, None, false);
            var masked := Value(Eval(parts[i].expr, w, l).value % Pow2(n));
            && Eval(RangeSelect(Concat(parts), high, low), w, l) == masked
            && Eval(RangeSelect(Concat(parts), low, high), w, l) == masked
            && Eval(PartSelect(Concat(parts), low, size, true), w, l) == masked
            && Eval(PartSelect(Concat(parts), high, size, false), w, l) == masked
  {
    PartsInPlace(parts, 0, w, l, i);
  }

  function Copies(part: Part, n: nat): (r: seq<Part>)
    ensures |r| == n && forall i :: 0 <= i < n ==> r[i] == part
  {
    seq(n, i => part)
  }

  lemma {:induction false} CopiesRepeat(part: Part, n: nat, c: int, w: World, l: Limit)
    requires Eval(part.expr, w, l).Value? && PartWidth(part).Some? && PartWidth(part).value >= 0
    ensures EvalParts(Copies(part, n), c, w, l)
         == Value(Repeated(Eval(part.expr, w, l).value, PartWidth(part).value, n, c))
  {
    if n > 0 {
      assert Copies(part, n)[1..] == Copies(part, n - 1);
      CopiesRepeat(part, n - 1, Push(c, Eval(part.expr, w, l).value, PartWidth(part).value), w, l);
    }
  }

  /** {n{v}} folds to what the n-fold concatenation {v, ..., v} folds to, errors included. */
  lemma ReplicationIsConcatenation(part: Part, n: nat, w: World, l: Limit)
    requires n >= 2
    ensures Eval(Replicate(Literal(n, None, false), part), w, l) == Eval(Concat(Copies(part, n)), w, l)
  {
    var v := Eval(part.expr, w, l);
    if v.Value? && PartWidth(part).Some? && PartWidth(part).value >= 0 {
      CopiesRepeat(part, n, 0, w, l);
    }
  }

  /** No copies are the number zero, one copy is the value cut to its width. */
  lemma FewCopies(v: int, width: nat, n: int)
    ensures n <= 0 ==> Repeated(v, width, n, 0) == 0
    ensures Repeated(v, width, 1, 0) == v % Pow2(width)
  {
    assert Repeated(v, width, 1, 0) == Repeated(v, width, 0, Push(0, v, width));
  }

  /** The width of a part: recorded first, then a literal's own, then the sum over a concatenation all of whose parts
      have one; nothing else has a width. */
  lemma PartWidthKinds(part: Part, first: Part, second: Part)
    ensures part.recorded != None ==> PartWidth(part) == part.recorded
    ensures part.recorded == None && part.expr.Literal? ==>
              (PartWidth(part).Some? <==> part.expr.width.Some?)
              && (part.expr.width.Some? ==> PartWidth(part) == Some(part.expr.width.value))
    ensures part.recorded == None && !part.expr.Literal? && !part.expr.Concat? ==> PartWidth(part) == None
    ensures part == Part(Concat([first, second]), None) ==>
              && (PartWidth(part).Some? <==> PartWidth(first).Some? && PartWidth(second).Some?)
              && (PartWidth(part).Some? ==> PartWidth(part).value == PartWidth(first).value + PartWidth(second).value)
  {
    if part == Part(Concat([first, second]), None) {
      var parts := [first, second];
      assert parts[1..] == [second] && [second][1..] == [];
      assert PartWidths([second][1..]) == Some(0);
      assert PartWidths([second]) == PartWidth(second);
    }
  }
}
