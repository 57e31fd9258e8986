/** Finding the loops of a code object: worklist reachability over its instructions. */
module BytecodeLoops {
  import opened Options

  /** An instruction: its offset, whether it is a jump, an exception handler's setup, an await's own resend jump,
      or an end of straight-line flow, and the offset it names, if it names one. */
  datatype Instr = Instr(offset: int, jumps: bool, handlerSetup: bool, resend: bool, endsFlow: bool,
                         target: Option<int>)

  /** Position of each offset among the first n instructions. */
  function PositionsUpTo(ins: seq<Instr>, n: nat): (m: map<int, nat>)
    requires n <= |ins|
    ensures forall o :: o in m ==> m[o] < n
  {
    if n == 0 then map[] else PositionsUpTo(ins, n - 1)[ins[n - 1].offset := n - 1]
  }

  function Positions(ins: seq<Instr>): map<int, nat> { PositionsUpTo(ins, |ins|) }

  /** An offset leads to the last instruction that has it. */
  lemma {:induction false} PositionsExactly(ins: seq<Instr>, n: nat, o: int)
    requires n <= |ins|
    ensures o in PositionsUpTo(ins, n) <==> exists i :: 0 <= i < n && ins[i].offset == o
    ensures o in PositionsUpTo(ins, n) ==>
              && ins[PositionsUpTo(ins, n)[o]].offset == o
              && forall j :: PositionsUpTo(ins, n)[o] < j < n ==> ins[j].offset != o
  {
    if n > 0 { PositionsExactly(ins, n - 1, o); }
  }

  predicate Jumps(ins: seq<Instr>, a: nat)
    requires a < |ins|
  {
    ins[a].jumps && !ins[a].handlerSetup && ins[a].target.Some? && ins[a].target.value in Positions(ins)
  }

  /** Normal control flow: falling through, or jumping, but not into a handler. */
  predicate Edge(ins: seq<Instr>, a: nat, b: nat) {
    && a < |ins| && b < |ins|
    && ((b == a + 1 && !ins[a].endsFlow) || (Jumps(ins, a) && b == Positions(ins)[ins[a].target.value]))
  }

  /** A walk from the first instruction. */
  ghost predicate Walk(ins: seq<Instr>, p: seq<nat>) {
    && p != [] && p[0] == 0 < |ins|
    && forall i :: 0 <= i < |p| - 1 ==> Edge(ins, p[i], p[i + 1])
  }

  ghost predicate Reachable(ins: seq<Instr>, n: nat) {
    exists p :: Walk(ins, p) && p[|p| - 1] == n
  }

  ghost function ReachableSet(ins: seq<Instr>): set<nat> {
    set n: nat | n < |ins| && Reachable(ins, n)
  }

  /** Control goes from a to the next instruction unless a ends straight-line flow, and from a jump that sets up no
      handler to the last instruction at the offset it names. */
  lemma EdgeExactly(ins: seq<Instr>, a: nat, b: nat)
    requires a < |ins| && b < |ins|
    ensures Edge(ins, a, b)
       <==> || (b == a + 1 && !ins[a].endsFlow)
            || (&& ins[a].jumps && !ins[a].handlerSetup && ins[a].target == Some(ins[b].offset)
                && forall j :: b < j < |ins| ==> ins[j].offset != ins[b].offset)
  {
    PositionsExactly(ins, |ins|, ins[b].offset);
    if ins[a].target.Some? { PositionsExactly(ins, |ins|, ins[a].target.value); }
  }

  /** A reached jump backwards that is not an await's resend loop. */
  predicate IsLoop(i: Instr) {
    i.jumps && !i.handlerSetup && !i.resend && i.target.Some? && i.target.value < i.offset
  }

  /** (header offset, back-jump offset) of the loops among the first n instructions that lie in reached. */
  function LoopsUpTo(ins: seq<Instr>, reached: set<nat>, n: nat): seq<(int, int)>
    requires n <= |ins|
  {
    if n == 0 then [] else
    LoopsUpTo(ins, reached, n - 1)
    + (if n - 1 in reached && IsLoop(ins[n - 1]) then [(ins[n - 1].target.value, ins[n - 1].offset)] else [])
  }

  lemma WalkOn(ins: seq<Instr>, a: nat, b: nat)
    requires Reachable(ins, a) && Edge(ins, a, b)
    ensures Reachable(ins, b)
  {
    var p :| Walk(ins, p) && p[|p| - 1] == a;
    assert Walk(ins, p + [b]) && (p + [b])[|p|] == b;
  }

  lemma EntryIsReachable(ins: seq<Instr>)
    requires ins != []
    ensures Reachable(ins, 0)
  {
    assert Walk(ins, [0]);
  }

  /** A set that holds the entry and is closed under the edges holds everything reachable. */
  lemma {:induction false} ClosedHoldsWalk(ins: seq<Instr>, reached: set<nat>, p: seq<nat>)
    requires Walk(ins, p) && 0 in reached
    requires forall a, b :: a in reached && Edge(ins, a, b) ==> b in reached
    ensures p[|p| - 1] in reached
    decreases |p|
  {
    if |p| > 1 {
      var q := p[..|p| - 1];
      assert Walk(ins, q);
      ClosedHoldsWalk(ins, reached, q);
      assert Edge(ins, p[|p| - 2], p[|p| - 1]);
    }
  }

  /** Every edge out of the reached instructions leads to one that is reached, still to be visited, or current. */
  ghost predicate Covered(ins: seq<Instr>, reached: set<nat>, todo: seq<nat>, current: int) {
    && (forall a, b :: a in reached && Edge(ins, a, b) ==> b in reached || b in todo || b == current)
    && (ins != [] ==> 0 in reached || 0 in todo || 0 == current)
  }

  ghost predicate Justified(ins: seq<Instr>, reached: set<nat>, todo: seq<nat>) {
    && (forall n :: n in reached ==> n < |ins| && Reachable(ins, n))
    && (forall n :: n in todo && n < |ins| ==> Reachable(ins, n))
  }

  function Indices(n: nat): (r: set<nat>)
    ensures forall k: nat :: k in r <==> k < n
  {
    if n == 0 then {} else Indices(n - 1) + {n - 1}
  }

  lemma CoveredIsReachableSet(ins: seq<Instr>, reached: set<nat>)
    requires Justified(ins, reached, []) && Covered(ins, reached, [], -1)
    ensures reached == ReachableSet(ins)
  {
    forall n: nat | n < |ins| && Reachable(ins, n)
      ensures n in reached
    {
      var p :| Walk(ins, p) && p[|p| - 1] == n;
      ClosedHoldsWalk(ins, reached, p);
    }
  }

  /** Visiting n: its jump target is put on the worklist, falling through makes n + 1 current. */
  lemma Visit(ins: seq<Instr>, reached: set<nat>, todo: seq<nat>, n: nat)
    requires Justified(ins, reached, todo) && Covered(ins, reached, todo, n)
    requires n < |ins| && Reachable(ins, n)
    ensures var todo' := todo + (if Jumps(ins, n) then [Positions(ins)[ins[n].target.value]] else []);
            && Justified(ins, reached + {n}, todo')
            && (ins[n].endsFlow ==> Covered(ins, reached + {n}, todo', -1))
            && (!ins[n].endsFlow ==> Covered(ins, reached + {n}, todo', n + 1))
    ensures !ins[n].endsFlow && n + 1 < |ins| ==> Reachable(ins, n + 1)
  {
    if Jumps(ins, n) { WalkOn(ins, n, Positions(ins)[ins[n].target.value]); }
    if !ins[n].endsFlow && n + 1 < |ins| { WalkOn(ins, n, n + 1); }
  }

  method IndexPositions(ins: seq<Instr>) returns (index: map<int, nat>)
    ensures index == Positions(ins)
  {
    index := map[];
    for n := 0 to |ins|
      invariant index == PositionsUpTo(ins, n)
    {
      index := index[ins[n].offset := n];
    }
  }

  /** The worklist: ends on every instruction list, with exactly the reachable instructions. */
  method Reach(ins: seq<Instr>, index: map<int, nat>) returns (reached: set<nat>)
    requires index == Positions(ins)
    ensures reached == ReachableSet(ins)
  {
    reached := {};
    var todo: seq<nat> := [0];
    if ins != [] { EntryIsReachable(ins); }
    while todo != []
      invariant Justified(ins, reached, todo) && Covered(ins, reached, todo, -1)
      decreases Indices(|ins|) - reached, |todo|
    {
      var n: nat := todo[|todo| - 1];
      assert todo == todo[..|todo| - 1] + [n];
      todo := todo[..|todo| - 1];
      ghost var reached0, todo0 := reached, todo;
      while n < |ins| && n !in reached
        invariant Justified(ins, reached, todo) && Covered(ins, reached, todo, n)
        invariant n < |ins| ==> Reachable(ins, n)
        invariant reached0 <= reached && (reached == reached0 ==> todo == todo0)
        decreases Indices(|ins|) - reached
      {
        Visit(ins, reached, todo, n);
        assert n in Indices(|ins|) - reached;
        reached := reached + {n};
        var i := ins[n];
        if i.jumps && !i.handlerSetup && i.target.Some? && i.target.value in index {
          todo := todo + [index[i.target.value]];
        }
        if i.endsFlow {
          break;
        }
        n := n + 1;
      }
    }
    CoveredIsReachableSet(ins, reached);
  }

  method Loops(ins: seq<Instr>) returns (loops: seq<(int, int)>)
    ensures loops == LoopsUpTo(ins, ReachableSet(ins), |ins|)
  {
    var index := IndexPositions(ins);
    var reached := Reach(ins, index);
    loops := [];
    for n := 0 to |ins|
      invariant loops == LoopsUpTo(ins, reached, n)
    {
      var i := ins[n];
      if n in reached && i.jumps && !i.handlerSetup && !i.resend && i.target.Some? && i.target.value < i.offset {
        loops := loops + [(i.target.value, i.offset)];
      }
    }
  }

  lemma {:induction false} LoopsAmong(ins: seq<Instr>, reached: set<nat>, n: nat, pair: (int, int))
    requires n <= |ins|
    ensures pair in LoopsUpTo(ins, reached, n)
       <==> exists k :: 0 <= k < n && k in reached && IsLoop(ins[k]) && pair == (ins[k].target.value, ins[k].offset)
  {
    if n > 0 {
      LoopsAmong(ins, reached, n - 1, pair);
    }
  }

  /** The pairs found are exactly the backward jumps some walk from the entry comes to, other than handler setups
      and resend loops. */
  lemma LoopsAreExact(ins: seq<Instr>, pair: (int, int))
    ensures pair in LoopsUpTo(ins, ReachableSet(ins), |ins|)
       <==> exists k: nat :: k < |ins| && Reachable(ins, k)
                          && ins[k].jumps && !ins[k].handlerSetup && !ins[k].resend
                          && ins[k].target == Some(pair.0) && ins[k].offset == pair.1 && pair.0 < pair.1
  {
    LoopsAmong(ins, ReachableSet(ins), |ins|, pair);
  }
}
