/** Expression widths recorded on the nodes themselves, in whatever order nodes are visited. */
module WidthInference {
  import opened ConstEval
  import opened ConstOps
  import opened Numbers
  import opened Options
  import opened RecordedWidths

  datatype Callee = SignCast | Clog2 | BitsOf | PowFunction | Fixed(width: int) | Unknown

  /** What an identifier's declaration says of its width; the bounds of a range are folded each time. */
  datatype Declaration = NoWidth | Given(width: int) | Ranged(msb: nat, lsb: nat)

  /** A node of an expression; children are nodes, which several parents may share. Counts, bounds and sizes are
      nodes too. An identifier may be a parameter, and has the width an engine's symbol table gives its name.
      A reduction spelled ^~ is backwards. */
  datatype Node =
    | Literal(value: int, width: Option<nat>, signed: bool)
    | StringLiteral(length: nat)
    | Ident(declared: Declaration, param: Option<int>, tabled: int)
    | Unary(uop: UnOp, backwards: bool, operand: nat)
    | Binary(bop: BinOp, left: nat, right: nat)
    | Ternary(cond: nat, yes: nat, no: nat)
    | Concat(parts: seq<nat>)
    | Replicate(count: nat, operand: nat)
    | BitSelect(target: nat, index: nat)
    | RangeSelect(target: nat, msb: nat, lsb: nat)
    | PartSelect(target: nat, base: nat, size: nat, up: bool)
    | Call(callee: Callee, args: seq<nat>)
    | Mintypmax(typical: nat)
    | WidthCast(size: nat, operand: nat)

  /** The nodes, and each parameter's default value. */
  datatype Program = Program(nodes: seq<Node>, params: map<int, Option<nat>>)

  type Recorded = map<nat, int>

  /** Inference folds without values known by name. */
  const NO_NAMES: map<string, int> := map[]

  /** Expressions are finite: every node comes after its children. Parameters may refer to one another in a circle. */
  predicate Built(p: Program) {
    && (forall id :: 0 <= id < |p.nodes| ==> After(p.nodes[id], id, |p.nodes|))
    && (forall q :: q in p.params && p.params[q].Some? ==> p.params[q].value < |p.nodes|)
  }

  predicate After(n: Node, id: nat, total: nat) {
    match n
    case Ident(declared, _, _) => declared.Ranged? ==> declared.msb < total && declared.lsb < total
    case Unary(_, _, x) => x < id
    case Binary(_, l, r) => l < id && r < id
    case Ternary(c, y, z) => c < id && y < id && z < id
    case Concat(parts) => AllBefore(parts, id)
    case Replicate(c, x) => c < id && x < id
    case BitSelect(t, i) => t < id && i < id
    case RangeSelect(t, m, l) => t < id && m < id && l < id
    case PartSelect(t, b, s, _) => t < id && b < id && s < id
    case Call(_, args) => AllBefore(args, id)
    case Mintypmax(t) => t < id
    case WidthCast(s, x) => s < id && x < id
    case _ => true
  }

  predicate AllBefore(ids: seq<nat>, id: nat) {
    forall i :: 0 <= i < |ids| ==> ids[i] < id
  }

  // ---------------------------------------------------------------- folding with recorded widths

  /** The constant evaluator's view of a node: parts carry the widths recorded so far. */
  function Tree(p: Program, rec: Recorded, id: nat): Expr
    requires Built(p) && id < |p.nodes|
    decreases id, 1
  {
    assert After(p.nodes[id], id, |p.nodes|);
    match p.nodes[id]
    case Literal(v, w, s) => Expr.Literal(v, w, s)
    case Ident(_, param, _) => Expr.Ident("", "", param)
    case Unary(op, _, x) => Expr.Unary(op, Tree(p, rec, x))
    case Binary(op, l, r) => Expr.Binary(op, Tree(p, rec, l), Tree(p, rec, r))
    case Ternary(c, y, z) => Expr.Ternary(Tree(p, rec, c), Tree(p, rec, y), Tree(p, rec, z))
    case Concat(parts) => Expr.Concat(PartsOf(p, rec, parts, id))
    case Replicate(c, x) => Expr.Replicate(Tree(p, rec, c), Part(Tree(p, rec, x), WidthOf(rec, x)))
    case RangeSelect(t, m, l) => Expr.RangeSelect(Tree(p, rec, t), Tree(p, rec, m), Tree(p, rec, l))
    case PartSelect(t, b, s, up) => Expr.PartSelect(Tree(p, rec, t), Tree(p, rec, b), Tree(p, rec, s), up)
    case Call(callee, args) =>
      if callee.SignCast? && |args| == 1 then SignCall(Tree(p, rec, args[0]))
      else if callee.Clog2? && |args| == 1 then Clog2Call(Tree(p, rec, args[0]))
      else if callee.BitsOf? && |args| == 1 then BitsCall(Part(Tree(p, rec, args[0]), WidthOf(rec, args[0])))
      else if callee.PowFunction? && |args| == 2 then PowCall(Tree(p, rec, args[0]), Tree(p, rec, args[1]))
      else NotConstant
    case Mintypmax(t) => Expr.Mintypmax(Tree(p, rec, t))
    case WidthCast(s, x) => Expr.WidthCast(Tree(p, rec, s), Tree(p, rec, x))
    case _ => NotConstant
  }

  function PartsOf(p: Program, rec: Recorded, ids: seq<nat>, id: nat): (parts: seq<Part>)
    requires Built(p) && id < |p.nodes| && AllBefore(ids, id)
    ensures |parts| == |ids|
    decreases id, 0, |ids|
  {
    if ids == [] then [] else
    [Part(Tree(p, rec, ids[0]), WidthOf(rec, ids[0]))] + PartsOf(p, rec, ids[1..], id)
  }

  function WidthOf(rec: Recorded, id: nat): Option<int> { if id in rec then Some(rec[id]) else None }

  function Defaults(p: Program, rec: Recorded): World
    requires Built(p)
  {
    World(map q | q in p.params :: if p.params[q].Some? then Some(Tree(p, rec, p.params[q].value)) else None, NO_NAMES)
  }

  function FoldResult(p: Program, rec: Recorded, id: nat): Result
    requires Built(p) && id < |p.nodes|
  {
    Eval(Tree(p, rec, id), Defaults(p, rec), Guard({}))
  }

  /** A constant position's value, if it folds. */
  function Fold(p: Program, rec: Recorded, id: nat): Option<int>
    requires Built(p) && id < |p.nodes|
  {
    var r := FoldResult(p, rec, id);
    if r.Value? then Some(r.value) else None
  }

  // ---------------------------------------------------------------- inference

  /** The larger of two known widths, or the one that is known. (Of an unknown and a zero: the right one.) */
  function BestOf(l: Option<int>, r: Option<int>): Option<int> {
    if l.Some? && r.Some? then Some(Max(l.value, r.value)) else if l.Some? && l.value != 0 then l else r
  }

  function RangeOf(m: Option<int>, l: Option<int>): Option<int> {
    if m.Some? && l.Some? then Some(Abs(m.value - l.value) + 1) else None
  }

  function DeclaredWidth(p: Program, rec: Recorded, d: Declaration): Option<int>
    requires Built(p) && (d.Ranged? ==> d.msb < |p.nodes| && d.lsb < |p.nodes|)
  {
    match d
    case NoWidth => None
    case Given(w) => Some(w)
    case Ranged(m, l) => RangeOf(Fold(p, rec, m), Fold(p, rec, l))
  }

  function CallWidth(callee: Callee): Option<int> {
    match callee
    case Clog2 => Some(32)
    case BitsOf => Some(32)
    case Fixed(w) => Some(w)
    case _ => None
  }

  predicate Reduces(op: UnOp) { !(op.Plus? || op.Minus? || op.Tilde?) }

  predicate Relates(op: BinOp) { op.Eq? || op.Ne? || op.Lt? || op.Le? || op.Gt? || op.Ge? || op.LogAnd? || op.LogOr? }

  function UnaryWidth(op: UnOp, backwards: bool, x: Option<int>): Option<int> {
    if Reduces(op) && !backwards then Some(1) else x
  }

  function BinaryWidth(op: BinOp, l: Option<int>, r: Option<int>): Option<int> {
    if Relates(op) then Some(1) else if op.Shl? || op.Shr? then l else BestOf(l, r)
  }

  function Times(count: Option<int>, w: Option<int>): Option<int> {
    if count.Some? && w.Some? then Some(count.value * w.value) else None
  }

  /** A width found, and what is recorded by then. */
  datatype Outcome = Outcome(width: Option<int>, rec: Recorded)

  /** One call of the inference, with everything it records on the way. */
  function Infer(p: Program, rec: Recorded, id: nat): Outcome
    requires Built(p) && id < |p.nodes|
    decreases id, 2
  {
    if id in rec then Outcome(Some(rec[id]), rec) else
    var o := InferNew(p, rec, id);
    if o.width.Some? && o.width.value > 0 then o.(rec := o.rec[id := o.width.value]) else o
  }

  function InferNew(p: Program, rec: Recorded, id: nat): Outcome
    requires Built(p) && id < |p.nodes|
    decreases id, 1
  {
    assert After(p.nodes[id], id, |p.nodes|);
    match p.nodes[id]
    case Literal(_, w, _) => Outcome(if w.Some? then Some(w.value) else Some(32), rec)
    case StringLiteral(k) => Outcome(Some(8 * k), rec)
    case Ident(d, _, _) => Outcome(DeclaredWidth(p, rec, d), rec)
    case Unary(op, backwards, x) => var o := Infer(p, rec, x); Outcome(UnaryWidth(op, backwards, o.width), o.rec)
    case Binary(op, l, r) =>
      var ol := Infer(p, rec, l);
      var or := Infer(p, ol.rec, r);
      Outcome(BinaryWidth(op, ol.width, or.width), or.rec)
    case Ternary(c, y, z) =>
      var oy := Infer(p, Infer(p, rec, c).rec, y);
      var oz := Infer(p, oy.rec, z);
      Outcome(BestOf(oy.width, oz.width), oz.rec)
    case Concat(parts) => InferParts(p, rec, parts, 0, id)
    case Replicate(c, x) =>
      var o := Infer(p, rec, x);
      Outcome(Times(Fold(p, rec, c), o.width), o.rec)
    case BitSelect(t, i) => Outcome(Some(1), Infer(p, Infer(p, rec, t).rec, i).rec)
    case RangeSelect(t, m, l) =>
      var after := Infer(p, rec, t).rec;
      Outcome(RangeOf(Fold(p, after, m), Fold(p, after, l)), after)
    case PartSelect(t, b, s, _) =>
      var after := Infer(p, Infer(p, rec, t).rec, b).rec;
      Outcome(Fold(p, after, s), after)
    case Call(callee, args) =>
      var after := InferArgs(p, rec, args, id);
      if !callee.SignCast? then Outcome(CallWidth(callee), after)
      else if args == [] then Outcome(Some(0), after)
      else Infer(p, after, args[0])
    case Mintypmax(t) => Infer(p, rec, t)
    case WidthCast(_, _) => Outcome(None, rec)
  }

  /** Parts are summed until one has no width. */
  function InferParts(p: Program, rec: Recorded, parts: seq<nat>, total: int, id: nat): Outcome
    requires Built(p) && id < |p.nodes| && AllBefore(parts, id)
    decreases id, 0, |parts|
  {
    if parts == [] then Outcome(Some(total), rec) else
    var o := Infer(p, rec, parts[0]);
    if o.width.None? then o else InferParts(p, o.rec, parts[1..], total + o.width.value, id)
  }

  function InferArgs(p: Program, rec: Recorded, args: seq<nat>, id: nat): Recorded
    requires Built(p) && id < |p.nodes| && AllBefore(args, id)
    decreases id, 0, |args|
  {
    if args == [] then rec else InferArgs(p, Infer(p, rec, args[0]).rec, args[1..], id)
  }

  /** The larger of two widths, or the one that is known. */
  predicate IsBest(w: Option<int>, l: Option<int>, r: Option<int>) {
    && (l.Some? && r.Some? ==> w.Some? && w.value >= l.value && w.value >= r.value && w in {l, r})
    && (l.Some? && r.None? && l.value != 0 ==> w == l) && (l.None? ==> w == r)
  }

  /** Operators: comparisons, logical operators and reductions have one bit (^~ that of its operand), shifts the left
      operand's width, all others the larger one. */
  lemma OperatorWidths(p: Program, rec: Recorded, id: nat)
    requires Built(p) && id < |p.nodes| && (p.nodes[id].Unary? || p.nodes[id].Binary? || p.nodes[id].Ternary?)
    ensures var w := InferNew(p, rec, id).width;
            assert After(p.nodes[id], id, |p.nodes|);
            match p.nodes[id]
            case Unary(op, backwards, x) =>
              w == if op in {Bang, OrReduce, NorReduce, XorReduce, AndReduce, NandReduce, XnorReduce} && !backwards
                   then Some(1) else Infer(p, rec, x).width
            case Binary(op, l, r) =>
              var ol := Infer(p, rec, l);
              if op in {Eq, Ne, Lt, Le, Gt, Ge, LogAnd, LogOr} then w == Some(1)
              else if op in {Shl, Shr} then w == ol.width
              else IsBest(w, ol.width, Infer(p, ol.rec, r).width)
            case Ternary(c, y, z) =>
              var oy := Infer(p, Infer(p, rec, c).rec, y);
              IsBest(w, oy.width, Infer(p, oy.rec, z).width)
  {
  }

  /** The other kinds of nodes, from what counts and bounds fold to. */
  lemma NodeWidths(p: Program, rec: Recorded, id: nat)
    requires Built(p) && id < |p.nodes|
    ensures var w := InferNew(p, rec, id).width;
            assert After(p.nodes[id], id, |p.nodes|);
            match p.nodes[id]
            case Literal(_, own, _) => w == (if own.Some? then Some(own.value) else Some(32))
            case StringLiteral(length) => w == Some(8 * length)
            case Ident(NoWidth, _, _) => w == None
            case Ident(Given(own), _, _) => w == Some(own)
            case Ident(Ranged(m, l), _, _) => Spans(w, Fold(p, rec, m), Fold(p, rec, l))
            case Replicate(c, x) =>
              var n, own := Fold(p, rec, c), Infer(p, rec, x).width;
              if n.Some? && own.Some? then w == Some(n.value * own.value) else w == None
            case BitSelect(_, _) => w == Some(1)
            case RangeSelect(t, m, l) =>
              var after := Infer(p, rec, t).rec; Spans(w, Fold(p, after, m), Fold(p, after, l))
            case Call(Clog2, _) => w == Some(32)
            case Call(BitsOf, _) => w == Some(32)
            case Call(Fixed(own), _) => w == Some(own)
            case Call(PowFunction, _) => w == None
            case Call(Unknown, _) => w == None
            case Mintypmax(t) => w == Infer(p, rec, t).width
            case WidthCast(_, _) => w == None
            case _ => true
  {
  }

  /** A range from m to l, in either order, both bounds included. */
  predicate Spans(w: Option<int>, m: Option<int>, l: Option<int>) {
    if m.Some? && l.Some?
    then w.Some? && w.value > 0 && w.value - 1 in {m.value - l.value, l.value - m.value}
    else w == None
  }

  /** A pass: nodes are visited in the order of the walk. */
  function Pass(p: Program, rec: Recorded, walk: seq<nat>): Recorded
    requires Built(p) && forall i :: 0 <= i < |walk| ==> walk[i] < |p.nodes|
    decreases |walk|
  {
    if walk == [] then rec else Pass(p, Infer(p, rec, walk[0]).rec, walk[1..])
  }

  // ---------------------------------------------------------------- recording on the nodes

  class Annotator {
    const program: Program
    var inferredWidth: Recorded

    constructor (program: Program)
      ensures this.program == program && inferredWidth == map[]
    {
      this.program, inferredWidth := program, map[];
    }

    method InferExprWidth(id: nat) returns (width: Option<int>)
      requires Built(program) && id < |program.nodes|
      modifies `inferredWidth
      ensures Outcome(width, inferredWidth) == Infer(program, old(inferredWidth), id)
      decreases id, 2
    {
      if id in inferredWidth { return Some(inferredWidth[id]); }
      width := InferImpl(id);
      if width.Some? && width.value > 0 {
        inferredWidth := inferredWidth[id := width.value];
      }
    }

    method InferImpl(id: nat) returns (width: Option<int>)
      requires Built(program) && id < |program.nodes|
      modifies `inferredWidth
      ensures Outcome(width, inferredWidth) == InferNew(program, old(inferredWidth), id)
      decreases id, 1
    {
      assert After(program.nodes[id], id, |program.nodes|);
      match program.nodes[id]
      case Literal(_, w, _) => width := if w.Some? then Some(w.value) else Some(32);
      case StringLiteral(k) => width := Some(8 * k);
      case Ident(d, _, _) => width := DeclaredWidth(program, inferredWidth, d);
      case Unary(op, backwards, x) =>
        var w := InferExprWidth(x);
        width := UnaryWidth(op, backwards, w);
      case Binary(op, l, r) =>
        var lw := InferExprWidth(l);
        var rw := InferExprWidth(r);
        width := BinaryWidth(op, lw, rw);
      case Ternary(c, y, z) =>
        var _ := InferExprWidth(c);
        var yw := InferExprWidth(y);
        var zw := InferExprWidth(z);
        width := BestOf(yw, zw);
      case Concat(parts) => width := InferConcat(id);
      case Replicate(c, x) =>
        var count := Fold(program, inferredWidth, c);
        var w := InferExprWidth(x);
        width := Times(count, w);
      case BitSelect(t, i) =>
        var _ := InferExprWidth(t);
        var _ := InferExprWidth(i);
        width := Some(1);
      case RangeSelect(t, m, l) =>
        var _ := InferExprWidth(t);
        width := RangeOf(Fold(program, inferredWidth, m), Fold(program, inferredWidth, l));
      case PartSelect(t, b, s, _) =>
        var _ := InferExprWidth(t);
        var _ := InferExprWidth(b);
        width := Fold(program, inferredWidth, s);
      case Call(callee, args) => width := InferCall(id);
      case Mintypmax(t) => width := InferExprWidth(t);
      case WidthCast(_, _) => width := None;
    }

    method InferConcat(id: nat) returns (width: Option<int>)
      requires Built(program) && id < |program.nodes| && program.nodes[id].Concat?
      modifies `inferredWidth
      ensures Outcome(width, inferredWidth) == InferNew(program, old(inferredWidth), id)
      decreases id, 0
    {
      assert After(program.nodes[id], id, |program.nodes|);
      var parts, total := program.nodes[id].parts, 0;
      for i := 0 to |parts|
        invariant InferNew(program, old(inferredWidth), id) == InferParts(program, inferredWidth, parts[i..], total, id)
      {
        assert parts[i..][1..] == parts[i + 1..];
        var pw := InferExprWidth(parts[i]);
        if pw.None? { return None; }
        total := total + pw.value;
      }
      width := Some(total);
    }

    method InferCall(id: nat) returns (width: Option<int>)
      requires Built(program) && id < |program.nodes| && program.nodes[id].Call?
      modifies `inferredWidth
      ensures Outcome(width, inferredWidth) == InferNew(program, old(inferredWidth), id)
      decreases id, 0
    {
      assert After(program.nodes[id], id, |program.nodes|);
      var callee, args := program.nodes[id].callee, program.nodes[id].args;
      for i := 0 to |args|
        invariant InferArgs(program, old(inferredWidth), args, id) == InferArgs(program, inferredWidth, args[i..], id)
      {
        assert args[i..][1..] == args[i + 1..];
        var _ := InferExprWidth(args[i]);
      }
      if !callee.SignCast? { return CallWidth(callee); }
      if args == [] { return Some(0); }
      width := InferExprWidth(args[0]);
    }

    method InferWidths(walk: seq<nat>)
      requires Built(program) && forall i :: 0 <= i < |walk| ==> walk[i] < |program.nodes|
      modifies `inferredWidth
      ensures inferredWidth == Pass(program, old(inferredWidth), walk)
    {
      for i := 0 to |walk|
        invariant Pass(program, old(inferredWidth), walk) == Pass(program, inferredWidth, walk[i..])
      {
        assert walk[i..][1..] == walk[i + 1..];
        var _ := InferExprWidth(walk[i]);
      }
    }
  }

  // ---------------------------------------------------------------- what a fold reads

  /** The width a part is known to have with nothing recorded. */
  function Known(p: Program, id: nat): Option<int>
    requires Built(p) && id < |p.nodes|
  {
    PartWidth(Part(Tree(p, map[], id), None))
  }

  /** Nothing recorded contradicts a width known without records. */
  predicate Truthful(p: Program, rec: Recorded)
    requires Built(p)
  {
    forall id :: id in rec ==> id < |p.nodes| && (Known(p, id).Some? ==> rec[id] == Known(p, id).value)
  }

  /** The operands whose recorded widths the fold of a node may read: parts, what is repeated, what $bits is asked
      of. */
  function Reads(p: Program, id: nat): (ids: seq<nat>)
    requires Built(p) && id < |p.nodes|
    ensures AllBefore(ids, id)
  {
    assert After(p.nodes[id], id, |p.nodes|);
    match p.nodes[id]
    case Concat(parts) => parts
    case Replicate(_, x) => [x]
    case Call(callee, args) => if callee.BitsOf? && |args| == 1 then args else []
    case _ => []
  }

  /** The operands it evaluates. */
  function Inputs(p: Program, id: nat): (ids: seq<nat>)
    requires Built(p) && id < |p.nodes|
    ensures AllBefore(ids, id)
  {
    assert After(p.nodes[id], id, |p.nodes|);
    match p.nodes[id]
    case Unary(_, _, x) => [x]
    case Binary(_, l, r) => [l, r]
    case Ternary(c, y, z) => [c, y, z]
    case Concat(parts) => parts
    case Replicate(c, x) => [c, x]
    case RangeSelect(t, m, l) => [t, m, l]
    case PartSelect(t, b, n, _) => [t, b, n]
    case Call(callee, args) =>
      if ((callee.SignCast? || callee.Clog2?) && |args| == 1) || (callee.PowFunction? && |args| == 2) then args else []
    case Mintypmax(t) => [t]
    case WidthCast(n, x) => [n, x]
    case _ => []
  }

  /** The parameter an identifier is followed to, unless it is being resolved already. */
  predicate FollowsTo(p: Program, id: nat, resolving: set<int>, q: int)
    requires id < |p.nodes|
  {
    p.nodes[id].Ident? && p.nodes[id].param == Some(q) && q in p.params && p.params[q].Some? && q !in resolving
  }

  /** All that the fold of a node may read, here, further down and where it follows parameters, is in the set. */
  predicate ReadsIn(p: Program, good: set<nat>, id: nat, resolving: set<int>)
    requires Built(p) && id < |p.nodes|
    decreases |p.params.Keys - resolving|, id
  {
    && (forall k :: k in Reads(p, id) ==> k in good)
    && (forall k :: k in Inputs(p, id) ==> ReadsIn(p, good, k, resolving))
    && (p.nodes[id].Ident? && p.nodes[id].param.Some? && FollowsTo(p, id, resolving, p.nodes[id].param.value) ==>
          var q := p.nodes[id].param.value;
          FewerLeft(p, resolving, q);
          ReadsIn(p, good, p.params[q].value, resolving + {q}))
  }

  lemma FewerLeft(p: Program, resolving: set<int>, q: int)
    requires q in p.params && q !in resolving
    ensures |p.params.Keys - (resolving + {q})| < |p.params.Keys - resolving|
  {
    assert q in p.params.Keys - resolving && q !in p.params.Keys - (resolving + {q});
    Smaller(p.params.Keys - (resolving + {q}), p.params.Keys - resolving);
  }

  /** Going from one record to the other, what is known of the width of a node stays known. */
  predicate StaysKnown(p: Program, rec: Recorded, rec': Recorded, k: nat)
    requires Built(p) && k < |p.nodes|
  {
    && KeepsWidth(Part(Tree(p, rec, k), WidthOf(rec, k)), Part(Tree(p, rec', k), WidthOf(rec', k)))
    && (k in rec ==> k in rec' && rec'[k] == rec[k])
  }

  predicate AllStayKnown(p: Program, good: set<nat>, rec: Recorded, rec': Recorded)
    requires Built(p)
  {
    forall k :: k in good ==> k < |p.nodes| && StaysKnown(p, rec, rec', k)
  }

  lemma DefaultsHaveOneShape(p: Program, rec: Recorded, rec': Recorded)
    requires Built(p)
    ensures SameShape(Defaults(p, rec), Defaults(p, rec'))
  {
  }

  ghost predicate MoreTree(p: Program, rec: Recorded, rec': Recorded, id: nat, resolving: set<int>)
    requires Built(p) && id < |p.nodes|
  {
    DefaultsHaveOneShape(p, rec, rec');
    More(Tree(p, rec, id), Tree(p, rec', id), Defaults(p, rec), Defaults(p, rec'), Guard(resolving))
  }

  ghost predicate MorePartTrees(p: Program, rec: Recorded, rec': Recorded, ids: seq<nat>, id: nat, resolving: set<int>)
    requires Built(p) && id < |p.nodes| && AllBefore(ids, id)
  {
    DefaultsHaveOneShape(p, rec, rec');
    MoreParts(PartsOf(p, rec, ids, id), PartsOf(p, rec', ids, id), Defaults(p, rec), Defaults(p, rec'),
              Guard(resolving))
  }

  lemma {:induction false} TreeIsMore(p: Program, good: set<nat>, rec: Recorded, rec': Recorded, id: nat,
                                      resolving: set<int>)
    requires Built(p) && id < |p.nodes| && ReadsIn(p, good, id, resolving) && AllStayKnown(p, good, rec, rec')
    ensures MoreTree(p, rec, rec', id, resolving)
    decreases |p.params.Keys - resolving|, id, 1
  {
    assert After(p.nodes[id], id, |p.nodes|);
    DefaultsHaveOneShape(p, rec, rec');
    if p.nodes[id].Ident? {
      IdentIsMore(p, good, rec, rec', id, resolving);
    } else if p.nodes[id].Concat? {
      PartsAreMore(p, good, rec, rec', p.nodes[id].parts, id, resolving);
    } else {
      var inputs := Inputs(p, id);
      forall k | k in inputs ensures MoreTree(p, rec, rec', k, resolving) {
        TreeIsMore(p, good, rec, rec', k, resolving);
      }
      InputsMakeMore(p, rec, rec', id, resolving);
    }
  }

  /** One node over inputs with more recorded. */
  lemma InputsMakeMore(p: Program, rec: Recorded, rec': Recorded, id: nat, resolving: set<int>)
    requires Built(p) && id < |p.nodes| && !p.nodes[id].Ident? && !p.nodes[id].Concat?
    requires forall k :: k in Inputs(p, id) ==> MoreTree(p, rec, rec', k, resolving)
    requires forall k :: k in Reads(p, id) ==> StaysKnown(p, rec, rec', k)
    ensures MoreTree(p, rec, rec', id, resolving)
  {
    assert After(p.nodes[id], id, |p.nodes|);
    DefaultsHaveOneShape(p, rec, rec');
    match p.nodes[id]
    case Unary(_, _, x) => assert x in Inputs(p, id);
    case Binary(_, l, r) => assert l in Inputs(p, id) && r in Inputs(p, id);
    case Ternary(_, _, _) => ThreeMakeMore(p, rec, rec', id, resolving);
    case Replicate(c, x) => assert c in Inputs(p, id) && x in Inputs(p, id) && x in Reads(p, id);
    case RangeSelect(_, _, _) => ThreeMakeMore(p, rec, rec', id, resolving);
    case PartSelect(_, _, _, _) => ThreeMakeMore(p, rec, rec', id, resolving);
    case Call(_, _) => CallIsMore(p, rec, rec', id, resolving);
    case Mintypmax(t) => assert t in Inputs(p, id);
    case WidthCast(n, x) => assert n in Inputs(p, id) && x in Inputs(p, id);
    case _ =>
  }

  lemma ThreeMakeMore(p: Program, rec: Recorded, rec': Recorded, id: nat, resolving: set<int>)
    requires Built(p) && id < |p.nodes|
    requires p.nodes[id].Ternary? || p.nodes[id].RangeSelect? || p.nodes[id].PartSelect?
    requires forall k :: k in Inputs(p, id) ==> MoreTree(p, rec, rec', k, resolving)
    ensures MoreTree(p, rec, rec', id, resolving)
  {
    assert After(p.nodes[id], id, |p.nodes|);
    DefaultsHaveOneShape(p, rec, rec');
    match p.nodes[id]
    case Ternary(c, y, z) => assert c in Inputs(p, id) && y in Inputs(p, id) && z in Inputs(p, id);
    case RangeSelect(t, m, l) => assert t in Inputs(p, id) && m in Inputs(p, id) && l in Inputs(p, id);
    case PartSelect(t, b, n, _) => assert t in Inputs(p, id) && b in Inputs(p, id) && n in Inputs(p, id);
  }

  lemma CallIsMore(p: Program, rec: Recorded, rec': Recorded, id: nat, resolving: set<int>)
    requires Built(p) && id < |p.nodes| && p.nodes[id].Call?
    requires forall k :: k in Inputs(p, id) ==> MoreTree(p, rec, rec', k, resolving)
    requires forall k :: k in Reads(p, id) ==> StaysKnown(p, rec, rec', k)
    ensures MoreTree(p, rec, rec', id, resolving)
  {
    assert After(p.nodes[id], id, |p.nodes|);
    DefaultsHaveOneShape(p, rec, rec');
    var callee, args := p.nodes[id].callee, p.nodes[id].args;
    if (callee.SignCast? || callee.Clog2?) && |args| == 1 {
      assert args[0] in Inputs(p, id);
    } else if callee.PowFunction? && |args| == 2 {
      assert args[0] in Inputs(p, id) && args[1] in Inputs(p, id);
    } else if callee.BitsOf? && |args| == 1 {
      assert args[0] in Reads(p, id);
    }
  }

  lemma {:induction false} IdentIsMore(p: Program, good: set<nat>, rec: Recorded, rec': Recorded, id: nat,
                                       resolving: set<int>)
    requires Built(p) && id < |p.nodes| && p.nodes[id].Ident?
    requires ReadsIn(p, good, id, resolving) && AllStayKnown(p, good, rec, rec')
    ensures MoreTree(p, rec, rec', id, resolving)
    decreases |p.params.Keys - resolving|, id, 0
  {
    DefaultsHaveOneShape(p, rec, rec');
    var param := p.nodes[id].param;
    if param.Some? && FollowsTo(p, id, resolving, param.value) {
      var q := param.value;
      FewerLeft(p, resolving, q);
      TreeIsMore(p, good, rec, rec', p.params[q].value, resolving + {q});
    }
  }

  lemma {:induction false} PartsAreMore(p: Program, good: set<nat>, rec: Recorded, rec': Recorded, ids: seq<nat>,
                                        id: nat, resolving: set<int>)
    requires Built(p) && id < |p.nodes| && AllBefore(ids, id) && AllStayKnown(p, good, rec, rec')
    requires forall k :: k in ids ==> k in good && ReadsIn(p, good, k, resolving)
    ensures MorePartTrees(p, rec, rec', ids, id, resolving)
    decreases |p.params.Keys - resolving|, id, 0, |ids|
  {
    DefaultsHaveOneShape(p, rec, rec');
    if ids != [] {
      assert ids[0] in ids && ids == [ids[0]] + ids[1..];
      TreeIsMore(p, good, rec, rec', ids[0], resolving);
      PartsAreMore(p, good, rec, rec', ids[1..], id, resolving);
    }
  }

  /** Then a fold that lacks no width before comes out the same after. */
  lemma FoldStays(p: Program, good: set<nat>, rec: Recorded, rec': Recorded, c: nat)
    requires Built(p) && c < |p.nodes| && ReadsIn(p, good, c, {}) && AllStayKnown(p, good, rec, rec')
    requires FoldResult(p, rec, c) != LACKS_WIDTH
    ensures FoldResult(p, rec', c) == FoldResult(p, rec, c)
  {
    TreeIsMore(p, good, rec, rec', c, {});
    DefaultsHaveOneShape(p, rec, rec');
    MoreKeeps(Tree(p, rec, c), Tree(p, rec', c), Defaults(p, rec), Defaults(p, rec'), Guard({}));
  }

  function Nodes(p: Program): set<nat>
    requires Built(p)
  {
    Everywhere(p).Keys
  }

  lemma {:induction false} ReadsAreNodes(p: Program, id: nat, resolving: set<int>)
    requires Built(p) && id < |p.nodes|
    ensures ReadsIn(p, Nodes(p), id, resolving)
    decreases |p.params.Keys - resolving|, id
  {
    forall k | k in Inputs(p, id) ensures ReadsIn(p, Nodes(p), k, resolving) { ReadsAreNodes(p, k, resolving); }
    if p.nodes[id].Ident? && p.nodes[id].param.Some? && FollowsTo(p, id, resolving, p.nodes[id].param.value) {
      var q := p.nodes[id].param.value;
      FewerLeft(p, resolving, q);
      ReadsAreNodes(p, p.params[q].value, resolving + {q});
    }
  }

  /** A width known without records is not changed by truthful ones. */
  lemma {:induction false} TruthfulStaysKnown(p: Program, rec: Recorded, id: nat)
    requires Built(p) && id < |p.nodes| && Truthful(p, rec)
    ensures StaysKnown(p, map[], rec, id)
    decreases id, 1
  {
    if id !in rec && p.nodes[id].Concat? && Known(p, id).Some? {
      assert After(p.nodes[id], id, |p.nodes|);
      PartsStayKnown(p, rec, p.nodes[id].parts, id);
    }
  }

  lemma {:induction false} PartsStayKnown(p: Program, rec: Recorded, ids: seq<nat>, id: nat)
    requires Built(p) && id < |p.nodes| && AllBefore(ids, id) && Truthful(p, rec)
    requires PartWidths(PartsOf(p, map[], ids, id)).Some?
    ensures PartWidths(PartsOf(p, rec, ids, id)) == PartWidths(PartsOf(p, map[], ids, id))
    decreases id, 0, |ids|
  {
    if ids != [] {
      TruthfulStaysKnown(p, rec, ids[0]);
      PartsStayKnown(p, rec, ids[1..], id);
    }
  }

  /** With nothing recorded the fold does not come to a part, or a $bits, whose width only recording can tell. */
  predicate Settled(p: Program, c: nat)
    requires Built(p) && c < |p.nodes|
  {
    FoldResult(p, map[], c) != LACKS_WIDTH
  }

  /** Then nothing that has been recorded changes what it folds to. */
  lemma SettledFolds(p: Program, rec: Recorded, c: nat)
    requires Built(p) && c < |p.nodes| && Truthful(p, rec) && Settled(p, c)
    ensures FoldResult(p, rec, c) == FoldResult(p, map[], c) && Fold(p, rec, c) == Fold(p, map[], c)
  {
    ReadsAreNodes(p, c, {});
    forall k: nat | k < |p.nodes| ensures StaysKnown(p, map[], rec, k) { TruthfulStaysKnown(p, rec, k); }
    FoldStays(p, Nodes(p), map[], rec, c);
  }

  /** A width recorded on every node. */
  function Everywhere(p: Program): Recorded
    requires Built(p)
  {
    map id: nat | id < |p.nodes| :: if Known(p, id).Some? then Known(p, id).value else 1
  }

  lemma {:induction false} EverywhereHasWidths(p: Program, id: nat)
    requires Built(p) && id < |p.nodes|
    ensures AllWidths(Tree(p, Everywhere(p), id))
    decreases id, 1
  {
    var rec := Everywhere(p);
    assert After(p.nodes[id], id, |p.nodes|);
    match p.nodes[id]
    case Unary(_, _, x) => EverywhereHasWidths(p, x);
    case Binary(_, l, r) =>
      EverywhereHasWidths(p, l);
      EverywhereHasWidths(p, r);
    case Ternary(c, y, z) =>
      EverywhereHasWidths(p, c);
      EverywhereHasWidths(p, y);
      EverywhereHasWidths(p, z);
    case Concat(parts) => PartsHaveWidths(p, parts, id);
    case Replicate(c, x) =>
      EverywhereHasWidths(p, c);
      EverywhereHasWidths(p, x);
    case RangeSelect(t, m, l) =>
      EverywhereHasWidths(p, t);
      EverywhereHasWidths(p, m);
      EverywhereHasWidths(p, l);
    case PartSelect(t, b, n, _) =>
      EverywhereHasWidths(p, t);
      EverywhereHasWidths(p, b);
      EverywhereHasWidths(p, n);
    case Call(_, args) =>
      if |args| > 0 { EverywhereHasWidths(p, args[0]); }
      if |args| > 1 { EverywhereHasWidths(p, args[1]); }
    case Mintypmax(t) => EverywhereHasWidths(p, t);
    case WidthCast(n, x) =>
      EverywhereHasWidths(p, n);
      EverywhereHasWidths(p, x);
    case _ =>
  }

  lemma {:induction false} PartsHaveWidths(p: Program, ids: seq<nat>, id: nat)
    requires Built(p) && id < |p.nodes| && AllBefore(ids, id)
    ensures AllPartWidths(PartsOf(p, Everywhere(p), ids, id))
    decreases id, 0, |ids|
  {
    if ids != [] {
      EverywhereHasWidths(p, ids[0]);
      PartsHaveWidths(p, ids[1..], id);
    }
  }

  /** Exactly: a constant position folds the same whatever has been recorded if and only if, folded with nothing
      recorded, it does not fail for want of a width. */
  lemma FoldSettledExactly(p: Program, c: nat)
    requires Built(p) && c < |p.nodes|
    ensures (forall rec :: Truthful(p, rec) ==> FoldResult(p, rec, c) == FoldResult(p, map[], c)) <==> Settled(p, c)
  {
    if Settled(p, c) {
      forall rec | Truthful(p, rec) ensures FoldResult(p, rec, c) == FoldResult(p, map[], c) {
        SettledFolds(p, rec, c);
      }
    } else {
      var rec := Everywhere(p);
      assert Truthful(p, rec);
      EverywhereHasWidths(p, c);
      forall q | q in p.params && p.params[q].Some? ensures AllWidths(Tree(p, rec, p.params[q].value)) {
        EverywhereHasWidths(p, p.params[q].value);
      }
      NeverLacksWidth(Tree(p, rec, c), Defaults(p, rec), Guard({}));
    }
  }

  // ---------------------------------------------------------------- inference that does not depend on records

  predicate NodeSettled(p: Program, id: nat)
    requires Built(p) && id < |p.nodes|
  {
    assert After(p.nodes[id], id, |p.nodes|);
    match p.nodes[id]
    case Ident(d, _, _) => d.Ranged? ==> Settled(p, d.msb) && Settled(p, d.lsb)
    case Replicate(c, _) => Settled(p, c)
    case RangeSelect(_, m, l) => Settled(p, m) && Settled(p, l)
    case PartSelect(_, _, n, _) => Settled(p, n)
    case _ => true
  }

  /** The operands a node's width comes from. */
  function Sources(p: Program, id: nat): (ids: seq<nat>)
    requires Built(p) && id < |p.nodes|
    ensures AllBefore(ids, id)
  {
    assert After(p.nodes[id], id, |p.nodes|);
    match p.nodes[id]
    case Unary(op, backwards, x) => if Reduces(op) && !backwards then [] else [x]
    case Binary(op, l, r) => if Relates(op) then [] else if op.Shl? || op.Shr? then [l] else [l, r]
    case Ternary(_, y, z) => [y, z]
    case Concat(parts) => parts
    case Replicate(_, x) => [x]
    case Call(callee, args) => if callee.SignCast? && args != [] then [args[0]] else []
    case Mintypmax(t) => [t]
    case _ => []
  }

  /** The counts, bounds and sizes that the node's width comes from, here and further down, are settled. */
  predicate Below(p: Program, id: nat)
    requires Built(p) && id < |p.nodes|
    decreases id
  {
    NodeSettled(p, id) && forall k :: k in Sources(p, id) ==> Below(p, k)
  }

  /** The width inferred with nothing recorded and nothing being recorded. */
  function Width(p: Program, id: nat): Option<int>
    requires Built(p) && id < |p.nodes|
    decreases id, 1
  {
    assert After(p.nodes[id], id, |p.nodes|);
    match p.nodes[id]
    case Literal(_, w, _) => if w.Some? then Some(w.value) else Some(32)
    case StringLiteral(k) => Some(8 * k)
    case Ident(d, _, _) => DeclaredWidth(p, map[], d)
    case Unary(op, backwards, x) => UnaryWidth(op, backwards, Width(p, x))
    case Binary(op, l, r) => BinaryWidth(op, Width(p, l), Width(p, r))
    case Ternary(_, y, z) => BestOf(Width(p, y), Width(p, z))
    case Concat(parts) => WidthSum(p, parts, 0, id)
    case Replicate(c, x) => Times(Fold(p, map[], c), Width(p, x))
    case BitSelect(_, _) => Some(1)
    case RangeSelect(_, m, l) => RangeOf(Fold(p, map[], m), Fold(p, map[], l))
    case PartSelect(_, _, n, _) => Fold(p, map[], n)
    case Call(callee, args) =>
      if !callee.SignCast? then CallWidth(callee) else if args == [] then Some(0) else Width(p, args[0])
    case Mintypmax(t) => Width(p, t)
    case WidthCast(_, _) => None
  }

  function WidthSum(p: Program, parts: seq<nat>, total: int, id: nat): Option<int>
    requires Built(p) && id < |p.nodes| && AllBefore(parts, id)
    decreases id, 0, |parts|
  {
    if parts == [] then Some(total) else
    var w := Width(p, parts[0]);
    if w.None? then None else WidthSum(p, parts[1..], total + w.value, id)
  }

  /** Recorded widths are positive, and those of nodes that do not depend on records are their own. */
  predicate Consistent(p: Program, rec: Recorded)
    requires Built(p)
  {
    forall id :: id in rec ==> id < |p.nodes| && rec[id] > 0 && (Below(p, id) ==> Width(p, id) == Some(rec[id]))
  }

  ghost predicate Grown(before: Recorded, after: Recorded) {
    forall id :: id in before ==> id in after && after[id] == before[id]
  }

  lemma {:induction false} KnownIsWidth(p: Program, id: nat)
    requires Built(p) && id < |p.nodes| && Known(p, id).Some?
    ensures Below(p, id) && Width(p, id) == Known(p, id)
    decreases id, 1
  {
    assert After(p.nodes[id], id, |p.nodes|);
    if p.nodes[id].Concat? { KnownSumIsWidth(p, p.nodes[id].parts, 0, id); }
  }

  lemma {:induction false} KnownSumIsWidth(p: Program, ids: seq<nat>, total: int, id: nat)
    requires Built(p) && id < |p.nodes| && AllBefore(ids, id) && PartWidths(PartsOf(p, map[], ids, id)).Some?
    ensures forall k :: k in ids ==> Below(p, k)
    ensures WidthSum(p, ids, total, id) == Some(total + PartWidths(PartsOf(p, map[], ids, id)).value)
    decreases id, 0, |ids|
  {
    if ids != [] {
      var parts := PartsOf(p, map[], ids, id);
      assert parts[0] == Part(Tree(p, map[], ids[0]), None) && parts[1..] == PartsOf(p, map[], ids[1..], id);
      KnownIsWidth(p, ids[0]);
      KnownSumIsWidth(p, ids[1..], total + Width(p, ids[0]).value, id);
    }
  }

  lemma ConsistentIsTruthful(p: Program, rec: Recorded)
    requires Built(p) && Consistent(p, rec)
    ensures Truthful(p, rec)
  {
    forall id | id in rec && Known(p, id).Some? ensures rec[id] == Known(p, id).value {
      KnownIsWidth(p, id);
    }
  }

  lemma ConsistentFolds(p: Program, rec: Recorded, c: nat)
    requires Built(p) && Consistent(p, rec) && c < |p.nodes| && Settled(p, c)
    ensures Fold(p, rec, c) == Fold(p, map[], c)
  {
    ConsistentIsTruthful(p, rec);
    SettledFolds(p, rec, c);
  }

  /** From consistent records a call leaves consistent ones. */
  ghost predicate Keeps(p: Program, rec: Recorded, after: Recorded)
    requires Built(p)
  {
    Grown(rec, after) && (Consistent(p, rec) ==> Consistent(p, after))
  }

  /** And it finds the node's own width, if that does not depend on records. */
  predicate FindsOwn(p: Program, rec: Recorded, id: nat, width: Option<int>)
    requires Built(p) && id < |p.nodes|
  {
    Consistent(p, rec) && Below(p, id) ==> width == Width(p, id)
  }

  lemma {:induction false} InferFinds(p: Program, rec: Recorded, id: nat) returns (o: Outcome)
    requires Built(p) && id < |p.nodes|
    ensures o == Infer(p, rec, id) && Keeps(p, rec, o.rec) && FindsOwn(p, rec, id, o.width)
    ensures o.width.Some? && (id in rec || o.width.value > 0) ==> id in o.rec
    decreases id, 2
  {
    o := Infer(p, rec, id);
    if id !in rec {
      var found := InferNewFinds(p, rec, id);
    }
  }

  lemma {:induction false} InferNewFinds(p: Program, rec: Recorded, id: nat) returns (o: Outcome)
    requires Built(p) && id < |p.nodes|
    ensures o == InferNew(p, rec, id) && Keeps(p, rec, o.rec) && FindsOwn(p, rec, id, o.width)
    decreases id, 1
  {
    o := InferNew(p, rec, id);
    assert After(p.nodes[id], id, |p.nodes|);
    match p.nodes[id]
    case Ident(d, _, _) =>
      if d.Ranged? && Consistent(p, rec) && Below(p, id) {
        ConsistentFolds(p, rec, d.msb);
        ConsistentFolds(p, rec, d.lsb);
      }
    case Unary(_, _, _) => var ox := OperatorFinds(p, rec, id);
    case Binary(_, _, _) => var both := OperatorFinds(p, rec, id);
    case Ternary(_, _, _) => var both := OperatorFinds(p, rec, id);
    case Concat(parts) =>
      var ox := PartsFind(p, rec, parts, 0, id);
      if Below(p, id) { EachBelow(p, parts, id); }
    case Replicate(c, x) =>
      assert x in Sources(p, id);
      if Consistent(p, rec) && Below(p, id) { ConsistentFolds(p, rec, c); }
      var ox := InferFinds(p, rec, x);
    case BitSelect(t, i) => var both := TwoFind(p, rec, t, i);
    case RangeSelect(_, _, _) => var ot := SelectFinds(p, rec, id);
    case PartSelect(_, _, _, _) => var ot := SelectFinds(p, rec, id);
    case Call(_, _) => var oa := CallFinds(p, rec, id);
    case Mintypmax(t) =>
      assert t in Sources(p, id);
      var ot := InferFinds(p, rec, t);
    case _ =>
  }

  lemma {:induction false} OperatorFinds(p: Program, rec: Recorded, id: nat) returns (o: Outcome)
    requires Built(p) && id < |p.nodes| && (p.nodes[id].Unary? || p.nodes[id].Binary? || p.nodes[id].Ternary?)
    ensures o == InferNew(p, rec, id) && Keeps(p, rec, o.rec) && FindsOwn(p, rec, id, o.width)
    decreases id, 0
  {
    o := InferNew(p, rec, id);
    assert After(p.nodes[id], id, |p.nodes|);
    match p.nodes[id]
    case Unary(op, backwards, x) =>
      assert !(Reduces(op) && !backwards) ==> x in Sources(p, id);
      var ox := InferFinds(p, rec, x);
    case Binary(op, l, r) =>
      assert !Relates(op) ==> l in Sources(p, id) && (op.Shl? || op.Shr? || r in Sources(p, id));
      var both := TwoFind(p, rec, l, r);
    case Ternary(c, y, z) =>
      assert y in Sources(p, id) && z in Sources(p, id);
      var oc := InferFinds(p, rec, c);
      var both := TwoFind(p, oc.rec, y, z);
  }

  lemma {:induction false} SelectFinds(p: Program, rec: Recorded, id: nat) returns (o: Outcome)
    requires Built(p) && id < |p.nodes| && (p.nodes[id].RangeSelect? || p.nodes[id].PartSelect?)
    ensures o == InferNew(p, rec, id) && Keeps(p, rec, o.rec) && FindsOwn(p, rec, id, o.width)
    decreases id, 0
  {
    o := InferNew(p, rec, id);
    assert After(p.nodes[id], id, |p.nodes|);
    match p.nodes[id]
    case RangeSelect(t, m, l) =>
      var ot := InferFinds(p, rec, t);
      if Consistent(p, rec) && Below(p, id) {
        ConsistentFolds(p, ot.rec, m);
        ConsistentFolds(p, ot.rec, l);
      }
    case PartSelect(t, b, n, _) =>
      var both := TwoFind(p, rec, t, b);
      if Consistent(p, rec) && Below(p, id) { ConsistentFolds(p, both.rec, n); }
  }

  lemma {:induction false} CallFinds(p: Program, rec: Recorded, id: nat) returns (o: Outcome)
    requires Built(p) && id < |p.nodes| && p.nodes[id].Call?
    ensures o == InferNew(p, rec, id) && Keeps(p, rec, o.rec) && FindsOwn(p, rec, id, o.width)
    decreases id, 0
  {
    o := InferNew(p, rec, id);
    assert After(p.nodes[id], id, |p.nodes|);
    var args := p.nodes[id].args;
    var after := ArgsFind(p, rec, args, id);
    if args != [] {
      assert p.nodes[id].callee.SignCast? ==> args[0] in Sources(p, id);
      var oa := InferFinds(p, after, args[0]);
    }
  }

  lemma {:induction false} TwoFind(p: Program, rec: Recorded, x: nat, y: nat) returns (oy: Outcome)
    requires Built(p) && x < |p.nodes| && y < |p.nodes|
    ensures oy == Infer(p, Infer(p, rec, x).rec, y) && Keeps(p, rec, oy.rec)
    ensures FindsOwn(p, rec, x, Infer(p, rec, x).width) && FindsOwn(p, rec, y, oy.width)
    decreases Max(x, y), 3
  {
    var ox := InferFinds(p, rec, x);
    oy := InferFinds(p, ox.rec, y);
  }

  lemma {:induction false} PartsFind(p: Program, rec: Recorded, parts: seq<nat>, total: int, id: nat)
    returns (o: Outcome)
    requires Built(p) && id < |p.nodes| && AllBefore(parts, id)
    ensures o == InferParts(p, rec, parts, total, id) && Keeps(p, rec, o.rec)
    ensures FindsSum(p, rec, parts, total, id, o.width)
    decreases id, 0, |parts|
  {
    o := Outcome(Some(total), rec);
    if parts != [] {
      var first := InferFinds(p, rec, parts[0]);
      o := first;
      if first.width.Some? {
        o := PartsFind(p, first.rec, parts[1..], total + first.width.value, id);
        KeepsOn(p, rec, first.rec, o.rec);
        SumOn(p, rec, parts, total, id, first, o.width);
      } else {
        SumStops(p, rec, parts, total, id, first);
      }
    }
  }

  lemma SumStops(p: Program, rec: Recorded, parts: seq<nat>, total: int, id: nat, first: Outcome)
    requires Built(p) && id < |p.nodes| && AllBefore(parts, id) && parts != [] && first.width.None?
    requires FindsOwn(p, rec, parts[0], first.width)
    ensures FindsSum(p, rec, parts, total, id, None)
  {
  }

  predicate FindsSum(p: Program, rec: Recorded, parts: seq<nat>, total: int, id: nat, width: Option<int>)
    requires Built(p) && id < |p.nodes| && AllBefore(parts, id)
  {
    Consistent(p, rec) && AllBelow(p, parts, id) ==> width == WidthSum(p, parts, total, id)
  }

  lemma SumOn(p: Program, rec: Recorded, parts: seq<nat>, total: int, id: nat, first: Outcome, width: Option<int>)
    requires Built(p) && id < |p.nodes| && AllBefore(parts, id) && parts != [] && first.width.Some?
    requires Keeps(p, rec, first.rec) && FindsOwn(p, rec, parts[0], first.width)
    requires FindsSum(p, first.rec, parts[1..], total + first.width.value, id, width)
    ensures FindsSum(p, rec, parts, total, id, width)
  {
  }

  lemma KeepsOn(p: Program, before: Recorded, between: Recorded, after: Recorded)
    requires Built(p) && Keeps(p, before, between) && Keeps(p, between, after)
    ensures Keeps(p, before, after)
  {
  }

  predicate AllBelow(p: Program, ids: seq<nat>, id: nat)
    requires Built(p) && id < |p.nodes| && AllBefore(ids, id)
  {
    ids == [] || (Below(p, ids[0]) && AllBelow(p, ids[1..], id))
  }

  lemma {:induction false} EachBelow(p: Program, ids: seq<nat>, id: nat)
    requires Built(p) && id < |p.nodes| && AllBefore(ids, id) && forall k :: k in ids ==> Below(p, k)
    ensures AllBelow(p, ids, id)
  {
    if ids != [] { EachBelow(p, ids[1..], id); }
  }

  lemma {:induction false} ArgsFind(p: Program, rec: Recorded, args: seq<nat>, id: nat) returns (after: Recorded)
    requires Built(p) && id < |p.nodes| && AllBefore(args, id)
    ensures after == InferArgs(p, rec, args, id) && Keeps(p, rec, after)
    decreases id, 0, |args|
  {
    after := rec;
    if args != [] {
      var o := InferFinds(p, rec, args[0]);
      after := ArgsFind(p, o.rec, args[1..], id);
    }
  }

  /** Where a node's width does not depend on records, inference returns it, whatever inference on any nodes, of the
      kind or not, has recorded before. */
  lemma InferIsWidth(p: Program, rec: Recorded, id: nat)
    requires Built(p) && id < |p.nodes| && Consistent(p, rec)
    ensures var o := Infer(p, rec, id);
            && Consistent(p, o.rec)
            && (Below(p, id) ==> o.width == Width(p, id))
            && (o.width.Some? && o.width.value > 0 ==> id in o.rec)
  {
    var o := InferFinds(p, rec, id);
  }

  /** Settled or not, a recorded width is never changed: the first call that finds a positive one decides, and every
      later call returns it and records nothing more. */
  lemma FirstVisitDecides(p: Program, rec: Recorded, id: nat, walk: seq<nat>)
    requires Built(p) && id < |p.nodes| && forall i :: 0 <= i < |walk| ==> walk[i] < |p.nodes|
    ensures var o := Infer(p, rec, id);
            o.width.Some? && o.width.value > 0 ==>
              && id in Pass(p, o.rec, walk)
              && Infer(p, Pass(p, o.rec, walk), id) == Outcome(o.width, Pass(p, o.rec, walk))
  {
    var o := InferFinds(p, rec, id);
    var after := PassFinds(p, o.rec, walk);
  }

  /** Every node with a positive width, with that width. */
  ghost function Positive(p: Program): Recorded
    requires Built(p)
  {
    map id: nat | id < |p.nodes| && Width(p, id).Some? && Width(p, id).value > 0 :: Width(p, id).value
  }

  lemma {:induction false} PassFinds(p: Program, rec: Recorded, walk: seq<nat>) returns (after: Recorded)
    requires Built(p) && forall i :: 0 <= i < |walk| ==> walk[i] < |p.nodes|
    ensures after == Pass(p, rec, walk) && Keeps(p, rec, after)
    ensures Consistent(p, rec) ==>
              forall id :: id in walk && Below(p, id) && id in Positive(p) ==> id in after
    decreases |walk|
  {
    after := rec;
    if walk != [] {
      var o := InferFinds(p, rec, walk[0]);
      after := PassFinds(p, o.rec, walk[1..]);
    }
  }

  /** A node whose width does not depend on records gets it, or none if it is not positive, from every pass over any
      nodes that visits it: in any order, however often repeated, whatever such passes recorded before, and whatever
      else is in the program. */
  lemma PassIsOrderFree(p: Program, rec: Recorded, walk: seq<nat>, id: nat)
    requires Built(p) && (forall i :: 0 <= i < |walk| ==> walk[i] < |p.nodes|) && Consistent(p, rec)
    requires id < |p.nodes| && Below(p, id)
    ensures Consistent(p, Pass(p, rec, walk))
    ensures id in Pass(p, rec, walk) ==> id in Positive(p) && Pass(p, rec, walk)[id] == Positive(p)[id]
    ensures id in walk ==> (id in Pass(p, rec, walk) <==> id in Positive(p))
  {
    var after := PassFinds(p, rec, walk);
  }

  /** So if that goes for all nodes, a pass over all of them records exactly the positive widths. */
  lemma FullPassIsPositive(p: Program, rec: Recorded, walk: seq<nat>)
    requires Built(p) && (forall i :: 0 <= i < |walk| ==> walk[i] < |p.nodes|) && Consistent(p, rec)
    requires forall id: nat :: id < |p.nodes| ==> id in walk && NodeSettled(p, id)
    ensures Pass(p, rec, walk) == Positive(p)
  {
    var after := PassFinds(p, rec, walk);
    forall id: nat ensures id in after <==> id in Positive(p) {
      if id < |p.nodes| {
        SettledBelow(p, id);
        PassIsOrderFree(p, rec, walk, id);
      }
    }
    forall id | id in after ensures after[id] == Positive(p)[id] { SettledBelow(p, id); }
  }

  lemma {:induction false} SettledBelow(p: Program, id: nat)
    requires Built(p) && id < |p.nodes| && forall k: nat :: k < |p.nodes| ==> NodeSettled(p, k)
    ensures Below(p, id)
    decreases id
  {
    forall k | k in Sources(p, id) ensures Below(p, k) { SettledBelow(p, k); }
  }

  // ---------------------------------------------------------------- a fold over all passes

  /** The nodes whose width does not depend on records. */
  function Own(p: Program): set<nat>
    requires Built(p)
  {
    set k: nat | k < |p.nodes| && Below(p, k)
  }

  /** Whatever is recorded so far, what is known of such a node is its own width. */
  lemma {:induction false} OwnIsKnown(p: Program, rec: Recorded, id: nat)
    requires Built(p) && id < |p.nodes| && Consistent(p, rec) && Below(p, id)
    ensures var width := PartWidth(Part(Tree(p, rec, id), WidthOf(rec, id))); width.Some? ==> width == Width(p, id)
    decreases id, 1
  {
    if id !in rec && p.nodes[id].Concat? {
      assert After(p.nodes[id], id, |p.nodes|);
      EachBelow(p, p.nodes[id].parts, id);
      OwnPartsAreKnown(p, rec, p.nodes[id].parts, 0, id);
    }
  }

  lemma {:induction false} OwnPartsAreKnown(p: Program, rec: Recorded, ids: seq<nat>, total: int, id: nat)
    requires Built(p) && id < |p.nodes| && AllBefore(ids, id) && Consistent(p, rec) && AllBelow(p, ids, id)
    ensures var widths := PartWidths(PartsOf(p, rec, ids, id));
            widths.Some? ==> WidthSum(p, ids, total, id) == Some(total + widths.value)
    decreases id, 0, |ids|
  {
    if ids != [] {
      var parts := PartsOf(p, rec, ids, id);
      assert parts[0] == Part(Tree(p, rec, ids[0]), WidthOf(rec, ids[0]));
      assert parts[1..] == PartsOf(p, rec, ids[1..], id);
      OwnIsKnown(p, rec, ids[0]);
      if PartWidth(parts[0]).Some? { OwnPartsAreKnown(p, rec, ids[1..], total + PartWidth(parts[0]).value, id); }
    }
  }

  /** All such nodes recorded before are recorded after. */
  predicate OwnGrown(p: Program, rec: Recorded, rec': Recorded)
    requires Built(p)
  {
    forall k :: k in Own(p) && k in rec ==> k in rec'
  }

  lemma {:induction false} OwnStaysKnown(p: Program, rec: Recorded, rec': Recorded, id: nat)
    requires Built(p) && id < |p.nodes| && Consistent(p, rec) && Consistent(p, rec') && OwnGrown(p, rec, rec')
    requires Below(p, id)
    ensures StaysKnown(p, rec, rec', id)
    decreases id, 1
  {
    OwnIsKnown(p, rec, id);
    OwnIsKnown(p, rec', id);
    if id !in rec && p.nodes[id].Concat? && PartWidth(Part(Tree(p, rec, id), None)).Some? {
      assert After(p.nodes[id], id, |p.nodes|);
      EachBelow(p, p.nodes[id].parts, id);
      OwnPartsStayKnown(p, rec, rec', p.nodes[id].parts, id);
    }
  }

  lemma {:induction false} OwnPartsStayKnown(p: Program, rec: Recorded, rec': Recorded, ids: seq<nat>, id: nat)
    requires Built(p) && id < |p.nodes| && AllBefore(ids, id)
    requires Consistent(p, rec) && Consistent(p, rec') && OwnGrown(p, rec, rec') && AllBelow(p, ids, id)
    requires PartWidths(PartsOf(p, rec, ids, id)).Some?
    ensures PartWidths(PartsOf(p, rec', ids, id)) == PartWidths(PartsOf(p, rec, ids, id))
    decreases id, 0, |ids|
  {
    if ids != [] {
      OwnStaysKnown(p, rec, rec', ids[0]);
      OwnPartsStayKnown(p, rec, rec', ids[1..], id);
    }
  }

  /** A fold that reads only such widths keeps what it comes to when more of them are recorded. */
  lemma OwnFoldStays(p: Program, rec: Recorded, rec': Recorded, c: nat)
    requires Built(p) && c < |p.nodes| && ReadsIn(p, Own(p), c, {})
    requires Consistent(p, rec) && Consistent(p, rec') && OwnGrown(p, rec, rec')
    ensures FoldResult(p, rec, c) != LACKS_WIDTH ==> FoldResult(p, rec', c) == FoldResult(p, rec, c)
  {
    if FoldResult(p, rec, c) != LACKS_WIDTH {
      forall k | k in Own(p) ensures StaysKnown(p, rec, rec', k) { OwnStaysKnown(p, rec, rec', k); }
      FoldStays(p, Own(p), rec, rec', c);
    }
  }

  ghost predicate Visits(p: Program, walk: seq<nat>) { forall i :: 0 <= i < |walk| ==> walk[i] < |p.nodes| }

  /** It folds the same after every pass. */
  ghost predicate SameAfterPasses(p: Program, c: nat)
    requires Built(p) && c < |p.nodes|
  {
    forall walk :: Visits(p, walk) ==> FoldResult(p, Pass(p, map[], walk), c) == FoldResult(p, map[], c)
  }

  /** Exactly, over all records that passes leave: a count or bound that reads only widths which do not depend on
      records folds the same after every pass if and only if it folds the same once all of those are recorded. */
  lemma FoldOverPassesExactly(p: Program, c: nat)
    requires Built(p) && c < |p.nodes| && ReadsIn(p, Own(p), c, {})
    ensures SameAfterPasses(p, c) <==> FoldResult(p, Positive(p), c) == FoldResult(p, map[], c)
  {
    var all := seq(|p.nodes|, i requires 0 <= i < |p.nodes| => i);
    assert Visits(p, all);
    forall walk | Visits(p, walk)
      ensures Consistent(p, Pass(p, map[], walk)) && OwnGrown(p, Pass(p, map[], walk), Positive(p))
    {
      PassStaysBelow(p, walk);
    }
    var full := Pass(p, map[], all);
    forall k | k in Own(p) && k in Positive(p) ensures k in full {
      assert all[k] == k;
      PassIsOrderFree(p, map[], all, k);
    }
    OwnFoldStays(p, map[], Positive(p), c);
    if SameAfterPasses(p, c) {
      assert FoldResult(p, full, c) == FoldResult(p, map[], c);
      OwnFoldStays(p, Positive(p), full, c);
    }
    if FoldResult(p, Positive(p), c) == FoldResult(p, map[], c) {
      forall walk | Visits(p, walk) ensures FoldResult(p, Pass(p, map[], walk), c) == FoldResult(p, map[], c) {
        OwnFoldStays(p, map[], Pass(p, map[], walk), c);
        OwnFoldStays(p, Pass(p, map[], walk), Positive(p), c);
      }
    }
  }

  lemma PassStaysBelow(p: Program, walk: seq<nat>)
    requires Built(p) && Visits(p, walk)
    ensures Consistent(p, Pass(p, map[], walk)) && OwnGrown(p, Pass(p, map[], walk), Positive(p))
  {
    var after := PassFinds(p, map[], walk);
  }

  // ---------------------------------------------------------------- where order does matter

  /** {$bits(b){x}} + y, with b, x and y of given widths. */
  function ReplicatedByBits(b: nat, x: nat, y: nat): Program {
    Program([Node.Ident(Given(b), None, b), Call(BitsOf, [0]), Node.Ident(Given(x), None, x), Node.Replicate(1, 2),
             Node.Ident(Given(y), None, y), Node.Binary(Add, 3, 4)], map[])
  }

  lemma BitsFold(b: nat, x: nat, y: nat, rec: Recorded)
    ensures var p := ReplicatedByBits(b, x, y);
            Built(p) && FoldResult(p, rec, 1) == if 0 in rec then Value(rec[0]) else LACKS_WIDTH
  {
    var p := ReplicatedByBits(b, x, y);
    assert p.nodes[1] == Call(BitsOf, [0]) && Tree(p, rec, 1) == BitsCall(Part(Tree(p, rec, 0), WidthOf(rec, 0)));
  }

  lemma ReplicateStep(b: nat, x: nat, y: nat, rec: Recorded)
    requires x > 0 && 2 !in rec && 3 !in rec
    ensures var p := ReplicatedByBits(b, x, y);
            && Built(p)
            && InferNew(p, rec, 3) == Outcome(Times(if 0 in rec then Some(rec[0]) else None, Some(x)), rec[2 := x])
  {
    var p := ReplicatedByBits(b, x, y);
    BitsFold(b, x, y, rec);
    assert p.nodes[3] == Node.Replicate(1, 2) && p.nodes[2] == Node.Ident(Given(x), None, x);
    assert InferNew(p, rec, 2) == Outcome(Some(x), rec);
    assert Infer(p, rec, 2) == Outcome(Some(x), rec[2 := x]);
  }

  lemma AddendStep(b: nat, x: nat, y: nat, rec: Recorded)
    requires y > 0 && 4 !in rec
    ensures var p := ReplicatedByBits(b, x, y);
            Built(p) && Infer(p, rec, 4) == Outcome(Some(y), rec[4 := y])
  {
    var p := ReplicatedByBits(b, x, y);
    assert p.nodes[4] == Node.Ident(Given(y), None, y);
    assert InferNew(p, rec, 4) == Outcome(Some(y), rec);
  }

  lemma SumStep(b: nat, x: nat, y: nat, rec: Recorded)
    requires x > 0 && y > 0 && 2 !in rec && 3 !in rec && 4 !in rec && 5 !in rec && (0 in rec ==> rec[0] > 0)
    ensures var p := ReplicatedByBits(b, x, y);
            && Built(p)
            && Infer(p, rec, 5).width == Some(if 0 in rec then Max(rec[0] * x, y) else y)
            && 5 in Infer(p, rec, 5).rec && Infer(p, rec, 5).rec[5] == Infer(p, rec, 5).width.value
  {
    var p := ReplicatedByBits(b, x, y);
    ReplicateStep(b, x, y, rec);
    var o3 := Infer(p, rec, 3);
    AddendStep(b, x, y, o3.rec);
    assert p.nodes[5] == Node.Binary(Add, 3, 4);
    assert InferNew(p, rec, 5) == Outcome(BestOf(o3.width, Some(y)), o3.rec[4 := y]);
  }

  /** Visiting the sum before b records the width of y alone, and for good; visiting b first, because the node is
      shared or inferred by a direct call (the walk over a module visits each node before its parts), records the
      larger width. */
  lemma PassDependsOnOrder(b: nat, x: nat, y: nat)
    requires b > 0 && x > 0 && y > 0
    ensures var p := ReplicatedByBits(b, x, y);
            && Built(p) && !Settled(p, 1)
            && 5 in Pass(p, map[], [5, 0, 5]) && Pass(p, map[], [5, 0, 5])[5] == y
            && 5 in Pass(p, map[], [0, 5]) && Pass(p, map[], [0, 5])[5] == Max(b * x, y)
  {
    var p := ReplicatedByBits(b, x, y);
    BitsFold(b, x, y, map[]);
    SumStep(b, x, y, map[]);
    FirstVisitDecides(p, map[], 5, [0, 5]);
    assert [5, 0, 5][1..] == [0, 5];
    assert p.nodes[0] == Node.Ident(Given(b), None, b);
    assert Infer(p, map[], 0) == Outcome(Some(b), map[0 := b]);
    SumStep(b, x, y, map[0 := b]);
    assert [0, 5][1..] == [5] && [5][1..] == [];
    assert Pass(p, map[0 := b], [5]) == Infer(p, map[0 := b], 5).rec;
  }

  lemma CallStep(b: nat, x: nat, y: nat, rec: Recorded)
    requires b > 0 && 0 !in rec && 1 !in rec
    ensures var p := ReplicatedByBits(b, x, y);
            Built(p) && Infer(p, rec, 1) == Outcome(Some(32), rec[0 := b][1 := 32])
  {
    var p := ReplicatedByBits(b, x, y);
    assert p.nodes[1] == Call(BitsOf, [0]) && p.nodes[0] == Node.Ident(Given(b), None, b) && [0][1..] == [];
    assert Infer(p, rec, 0) == Outcome(Some(b), rec[0 := b]);
    assert InferArgs(p, rec, [0], 1) == InferArgs(p, rec[0 := b], [], 1) == rec[0 := b];
  }

  lemma RepeatedReplicateStep(b: nat, x: nat, y: nat, rec: Recorded)
    requires b > 0 && x > 0 && 0 in rec && rec[0] == b && 2 in rec && rec[2] == x && 3 !in rec
    ensures var p := ReplicatedByBits(b, x, y);
            Built(p) && Infer(p, rec, 3) == Outcome(Some(b * x), rec[3 := b * x])
  {
    var p := ReplicatedByBits(b, x, y);
    BitsFold(b, x, y, rec);
    assert p.nodes[3] == Node.Replicate(1, 2);
    assert InferNew(p, rec, 3) == Outcome(Some(b * x), rec);
    assert b * x > 0;
  }

  lemma FirstPass(b: nat, x: nat, y: nat)
    requires b > 0 && x > 0
    ensures var p := ReplicatedByBits(b, x, y);
            Built(p) && Pass(p, map[], [3, 1, 0, 2]) == map[2 := x][0 := b][1 := 32]
  {
    var p, once := ReplicatedByBits(b, x, y), map[2 := x][0 := b][1 := 32];
    ReplicateStep(b, x, y, map[]);
    assert Infer(p, map[], 3) == Outcome(None, map[2 := x]);
    CallStep(b, x, y, map[2 := x]);
    assert [3, 1, 0, 2][1..] == [1, 0, 2] && [1, 0, 2][1..] == [0, 2] && [0, 2][1..] == [2] && [2][1..] == [];
    assert Pass(p, once, [0, 2]) == Pass(p, once, [2]) == Pass(p, once, []) == once;
    assert Pass(p, map[2 := x], [1, 0, 2]) == once;
  }

  /** Repetition matters too: one pass over the replication and all below it, each node before its parts, leaves the
      replication without a width; a second such pass records one. */
  lemma PassDependsOnRepetition(b: nat, x: nat, y: nat)
    requires b > 0 && x > 0
    ensures var p := ReplicatedByBits(b, x, y);
            && Built(p) && 3 !in Pass(p, map[], [3, 1, 0, 2])
            && 3 in Pass(p, Pass(p, map[], [3, 1, 0, 2]), [3, 1, 0, 2])
            && Pass(p, Pass(p, map[], [3, 1, 0, 2]), [3, 1, 0, 2])[3] == b * x
  {
    var p, once := ReplicatedByBits(b, x, y), map[2 := x][0 := b][1 := 32];
    FirstPass(b, x, y);
    RepeatedReplicateStep(b, x, y, once);
    assert [3, 1, 0, 2][1..] == [1, 0, 2];
    var again := PassFinds(p, once[3 := b * x], [1, 0, 2]);
  }

  // ---------------------------------------------------------------- against the engines' width

  /** The self-determined width the engines use; constants as folded with nothing recorded. */
  function ExprWidth(p: Program, id: nat): int
    requires Built(p) && id < |p.nodes|
    decreases id, 1
  {
    assert After(p.nodes[id], id, |p.nodes|);
    match p.nodes[id]
    case Literal(v, w, signed) =>
      if w.None? && signed && v > 0 then Max(32, BitLength(v) + 1) else if w.Some? then w.value else 32
    case StringLiteral(k) => 8 * k
    case Ident(_, _, tabled) => tabled
    case Unary(op, _, x) => if Reduces(op) then 1 else ExprWidth(p, x)
    case Binary(op, l, r) =>
      if Relates(op) then 1
      else if op.Shl? || op.Shr? || op.Pow? then ExprWidth(p, l)
      else Max(ExprWidth(p, l), ExprWidth(p, r))
    case Ternary(_, y, z) => Max(ExprWidth(p, y), ExprWidth(p, z))
    case Concat(parts) => ExprWidthSum(p, parts, 0, id)
    case Replicate(c, x) =>
      var count := Fold(p, map[], c);
      (if count.Some? then count.value else 1) * ExprWidth(p, x)
    case BitSelect(_, _) => 1
    case RangeSelect(_, m, l) =>
      var w := RangeOf(Fold(p, map[], m), Fold(p, map[], l));
      if w.Some? then w.value else 1
    case PartSelect(_, _, n, _) => if Fold(p, map[], n).Some? then Fold(p, map[], n).value else 1
    case Call(callee, args) => if callee.SignCast? && args != [] then ExprWidth(p, args[0]) else 32
    case Mintypmax(t) => ExprWidth(p, t)
    case WidthCast(n, x) => if Fold(p, map[], n).Some? then Fold(p, map[], n).value else ExprWidth(p, x)
  }

  function ExprWidthSum(p: Program, parts: seq<nat>, total: int, id: nat): int
    requires Built(p) && id < |p.nodes| && AllBefore(parts, id)
    decreases id, 0, |parts|
  {
    if parts == [] then total else ExprWidthSum(p, parts[1..], total + ExprWidth(p, parts[0]), id)
  }

  predicate Same(p: Program, id: nat)
    requires Built(p) && id < |p.nodes|
  {
    Width(p, id) == Some(ExprWidth(p, id))
  }

  /** The operands the node's width comes from have the same width under both functions. */
  predicate OperandsSame(p: Program, id: nat)
    requires Built(p) && id < |p.nodes|
  {
    forall k :: k in Sources(p, id) ==> Same(p, k)
  }

  /** Where the two functions agree on a node: an unsized literal below 2^31; an identifier whose declaration has
      the tabled width; ^~ over one bit; ** whose exponent is no wider than its base; constants that fold; no
      width cast; of calls, sign casts and functions of 32 bits. */
  predicate Agreeing(p: Program, id: nat)
    requires Built(p) && id < |p.nodes|
  {
    assert After(p.nodes[id], id, |p.nodes|);
    match p.nodes[id]
    case Literal(v, w, signed) => w.None? && signed && v > 0 ==> BitLength(v) + 1 <= 32
    case Ident(d, _, tabled) => DeclaredWidth(p, map[], d) == Some(tabled)
    case Unary(op, backwards, x) => !(op in {Plus, Minus, Tilde}) && backwards ==> ExprWidth(p, x) == 1
    case Binary(op, l, r) => op.Pow? ==> ExprWidth(p, r) <= ExprWidth(p, l)
    case Replicate(c, _) => Fold(p, map[], c).Some?
    case RangeSelect(_, m, l) => Fold(p, map[], m).Some? && Fold(p, map[], l).Some?
    case PartSelect(_, _, n, _) => Fold(p, map[], n).Some?
    case Call(callee, args) => if callee == SignCast then args != [] else callee in {Clog2, BitsOf, Fixed(32)}
    case WidthCast(_, _) => false
    case _ => true
  }

  lemma {:induction false} SumsSame(p: Program, parts: seq<nat>, total: int, id: nat)
    requires Built(p) && id < |p.nodes| && AllBefore(parts, id) && forall i :: 0 <= i < |parts| ==> Same(p, parts[i])
    ensures WidthSum(p, parts, total, id) == Some(ExprWidthSum(p, parts, total, id))
    decreases |parts|
  {
    if parts != [] {
      assert Same(p, parts[0]);
      SumsSame(p, parts[1..], total + ExprWidth(p, parts[0]), id);
    }
  }

  /** Node by node the condition is exact. */
  lemma SameExactlyWhenAgreeing(p: Program, id: nat)
    requires Built(p) && id < |p.nodes| && OperandsSame(p, id)
    ensures Same(p, id) <==> Agreeing(p, id)
  {
    assert After(p.nodes[id], id, |p.nodes|);
    match p.nodes[id]
    case Unary(op, backwards, x) => assert !(Reduces(op) && !backwards) ==> x in Sources(p, id);
    case Binary(op, l, r) =>
      assert !Relates(op) ==> l in Sources(p, id) && (op.Shl? || op.Shr? || r in Sources(p, id));
    case Ternary(_, y, z) => assert y in Sources(p, id) && z in Sources(p, id);
    case Concat(parts) =>
      assert forall i :: 0 <= i < |parts| ==> parts[i] in Sources(p, id);
      SumsSame(p, parts, 0, id);
    case Replicate(_, x) => assert x in Sources(p, id);
    case Call(callee, args) => assert callee.SignCast? && args != [] ==> args[0] in Sources(p, id);
    case Mintypmax(t) => assert t in Sources(p, id);
    case _ =>
  }

  /** The condition holds of the node and of all that its width comes from. */
  predicate AgreeingBelow(p: Program, id: nat)
    requires Built(p) && id < |p.nodes|
    decreases id
  {
    Agreeing(p, id) && forall k :: k in Sources(p, id) ==> AgreeingBelow(p, k)
  }

  /** The two widths agree on the node and on all that its width comes from. */
  predicate SameBelow(p: Program, id: nat)
    requires Built(p) && id < |p.nodes|
    decreases id
  {
    Same(p, id) && forall k :: k in Sources(p, id) ==> SameBelow(p, k)
  }

  /** Exactly, for one expression: both widths agree all through it if and only if every node its width comes from
      meets the condition. What else is in the program does not matter. */
  lemma {:induction false} SameBelowExactly(p: Program, id: nat)
    requires Built(p) && id < |p.nodes|
    ensures SameBelow(p, id) <==> AgreeingBelow(p, id)
    decreases id
  {
    forall k | k in Sources(p, id) ensures SameBelow(p, k) <==> AgreeingBelow(p, k) { SameBelowExactly(p, k); }
    if forall k :: k in Sources(p, id) ==> SameBelow(p, k) { SameExactlyWhenAgreeing(p, id); }
  }

  lemma {:induction false} AllAgreeingBelow(p: Program, id: nat)
    requires Built(p) && id < |p.nodes| && forall k: nat :: k <= id ==> Agreeing(p, k)
    ensures AgreeingBelow(p, id)
    decreases id
  {
    forall k | k in Sources(p, id) ensures AgreeingBelow(p, k) { AllAgreeingBelow(p, k); }
  }

  /** Exactly, for the whole program: both widths agree on every node if and only if every node meets the condition. */
  lemma AllSameExactly(p: Program)
    requires Built(p)
    ensures (forall id: nat :: id < |p.nodes| ==> Same(p, id)) <==> forall id: nat :: id < |p.nodes| ==> Agreeing(p, id)
  {
    if forall id: nat :: id < |p.nodes| ==> Agreeing(p, id) {
      forall id: nat | id < |p.nodes| ensures Same(p, id) {
        AllAgreeingBelow(p, id);
        SameBelowExactly(p, id);
      }
    }
    if forall id: nat :: id < |p.nodes| ==> Same(p, id) {
      forall id: nat | id < |p.nodes| ensures Agreeing(p, id) { SameExactlyWhenAgreeing(p, id); }
    }
  }

  /** Constants that fold with nothing recorded are settled. */
  lemma {:induction false} AgreeingIsSettled(p: Program, id: nat)
    requires Built(p) && id < |p.nodes| && AgreeingBelow(p, id)
    ensures Below(p, id)
    decreases id
  {
    forall k | k in Sources(p, id) ensures Below(p, k) { AgreeingIsSettled(p, k); }
  }

  /** And then any pass over any nodes that visits this one leaves the engines' width on it, if that is positive. */
  lemma RecordedIsEnginesWidth(p: Program, rec: Recorded, walk: seq<nat>, id: nat)
    requires Built(p) && (forall i :: 0 <= i < |walk| ==> walk[i] < |p.nodes|) && Consistent(p, rec)
    requires id < |p.nodes| && AgreeingBelow(p, id)
    ensures id in Pass(p, rec, walk) ==> Pass(p, rec, walk)[id] == ExprWidth(p, id)
    ensures id in walk ==> (id in Pass(p, rec, walk) <==> ExprWidth(p, id) > 0)
  {
    AgreeingIsSettled(p, id);
    PassIsOrderFree(p, rec, walk, id);
    SameBelowExactly(p, id);
  }

  /** The engines' width by operator: one bit for comparisons, logical operators and all reductions; the left operand's
      for shifts and **; the larger one for all others; 32 for calls that are not sign casts. */
  lemma EnginesWidths(p: Program, id: nat)
    requires Built(p) && id < |p.nodes|
    ensures var w := ExprWidth(p, id);
            assert After(p.nodes[id], id, |p.nodes|);
            match p.nodes[id]
            case Unary(op, _, x) =>
              w == if op in {Bang, OrReduce, NorReduce, XorReduce, AndReduce, NandReduce, XnorReduce} then 1
                   else ExprWidth(p, x)
            case Binary(op, l, r) =>
              if op in {Eq, Ne, Lt, Le, Gt, Ge, LogAnd, LogOr} then w == 1
              else if op in {Shl, Shr, Pow} then w == ExprWidth(p, l)
              else IsBest(Some(w), Some(ExprWidth(p, l)), Some(ExprWidth(p, r)))
            case Ternary(_, y, z) => IsBest(Some(w), Some(ExprWidth(p, y)), Some(ExprWidth(p, z)))
            case RangeSelect(_, m, l) =>
              if Fold(p, map[], m).Some? && Fold(p, map[], l).Some?
              then Spans(Some(w), Fold(p, map[], m), Fold(p, map[], l)) else w == 1
            case Call(callee, args) => w == if callee == SignCast && args != [] then ExprWidth(p, args[0]) else 32
            case _ => true
  {
  }
}
