/** The latch check of combinational always blocks: what a clean report promises about every path. */
module LatchLint {
  import opened Options

  datatype Stmt =
    | Assign(lhs: Option<string>)                    // None: the left side is not a plain identifier
    | SeqBlock(stmts: seq<Stmt>)
    | If(thenBody: Option<Stmt>, elseBody: Option<Stmt>)
    | Case(items: seq<Item>)
    | Loop(body: Option<Stmt>)                       // for, while, repeat, forever
    | Other

  datatype Item = Item(isDefault: bool, body: Option<Stmt>)

  datatype Warning = NoElse(signal: string) | NotAllPaths(signal: string) | NoDefault(signal: string)

  // ---------------------------------------------------------------- what the walks compute

  /** Names assigned anywhere under a statement. */
  function Targets(s: Stmt): set<string> {
    match s
    case Assign(lhs) => if lhs.Some? then {lhs.value} else {}
    case SeqBlock(stmts) => TargetsOfAll(stmts)
    case If(t, e) => TargetsIn(t) + TargetsIn(e)
    case Case(items) => TargetsOfItems(items)
    case Loop(b) => TargetsIn(b)
    case Other => {}
  }

  function TargetsIn(s: Option<Stmt>): set<string> { if s.Some? then Targets(s.value) else {} }

  function TargetsOfAll(stmts: seq<Stmt>): set<string> {
    if stmts == [] then {} else Targets(stmts[0]) + TargetsOfAll(stmts[1..])
  }

  function TargetsOfItems(items: seq<Item>): set<string> {
    if items == [] then {} else
    var Item(_, body) := items[0];
    assert (items decreases to items[0]) && (items[0] decreases to body);
    TargetsIn(body) + TargetsOfItems(items[1..])
  }

  predicate HasDefault(items: seq<Item>) { exists i :: 0 <= i < |items| && items[i].isDefault }

  /** The signals one statement is reported for, its parts aside. */
  function Reported(s: Stmt): set<string> {
    match s
    case If(t, None) => TargetsIn(t)
    case If(t, e) => (TargetsIn(t) - TargetsIn(e)) + (TargetsIn(e) - TargetsIn(t))
    case Case(items) => if HasDefault(items) then {} else TargetsOfItems(items)
    case _ => {}
  }

  function WarningFor(s: Stmt, signal: string): Warning {
    if s.Case? then NoDefault(signal) else if s.If? && s.elseBody.None? then NoElse(signal) else NotAllPaths(signal)
  }

  function OwnWarnings(s: Stmt): set<Warning> { set sig | sig in Reported(s) :: WarningFor(s, sig) }

  function Warnings(s: Stmt): set<Warning> {
    OwnWarnings(s) +
    match s
    case SeqBlock(stmts) => WarningsOfAll(stmts)
    case If(t, e) => WarningsIn(t) + WarningsIn(e)
    case Case(items) => WarningsOfItems(items)
    case Loop(b) => WarningsIn(b)
    case _ => {}
  }

  function WarningsIn(s: Option<Stmt>): set<Warning> { if s.Some? then Warnings(s.value) else {} }

  function WarningsOfAll(stmts: seq<Stmt>): set<Warning> {
    if stmts == [] then {} else Warnings(stmts[0]) + WarningsOfAll(stmts[1..])
  }

  function WarningsOfItems(items: seq<Item>): set<Warning> {
    if items == [] then {} else
    var Item(_, body) := items[0];
    assert (items decreases to items[0]) && (items[0] decreases to body);
    WarningsIn(body) + WarningsOfItems(items[1..])
  }

  // ---------------------------------------------------------------- the walks

  function Listed(warnings: seq<Warning>): set<Warning> { set w | w in warnings }

  /** The collections the visitors add to. */
  class Visitor {
    var targets: set<string>
    var warnings: seq<Warning>

    constructor ()
      ensures targets == {} && warnings == []
    {
      targets, warnings := {}, [];
    }

    method CollectTargets(stmt: Option<Stmt>)
      modifies `targets
      ensures targets == old(targets) + TargetsIn(stmt)
      decreases stmt, 1
    {
      if stmt.Some? { CollectFrom(stmt.value); }
    }

    method CollectFrom(s: Stmt)
      modifies `targets
      ensures targets == old(targets) + Targets(s)
      decreases s, 0
    {
      match s
      case Assign(lhs) => if lhs.Some? { targets := targets + {lhs.value}; }
      case SeqBlock(stmts) =>
        for i := 0 to |stmts|
          invariant targets + TargetsOfAll(stmts[i..]) == old(targets) + Targets(s)
        {
          assert stmts[i] in stmts && stmts[i..][1..] == stmts[i + 1..];
          CollectFrom(stmts[i]);
        }
      case If(t, e) =>
        CollectTargets(t);
        CollectTargets(e);
      case Case(items) =>
        for i := 0 to |items|
          invariant targets + TargetsOfItems(items[i..]) == old(targets) + Targets(s)
        {
          assert items[i] in items && items[i..][1..] == items[i + 1..];
          CollectTargets(items[i].body);
        }
      case Loop(b) => CollectTargets(b);
      case Other =>
    }

    method CheckLatchInferred(stmt: Option<Stmt>)
      modifies `warnings
      ensures Listed(warnings) == Listed(old(warnings)) + WarningsIn(stmt)
      decreases stmt, 1
    {
      if stmt.Some? { CheckFrom(stmt.value); }
    }

    method CheckFrom(s: Stmt)
      modifies `warnings
      ensures Listed(warnings) == Listed(old(warnings)) + Warnings(s)
      decreases s, 0
    {
      Check(s);
      match s
      case SeqBlock(stmts) =>
        for i := 0 to |stmts|
          invariant Listed(warnings) + WarningsOfAll(stmts[i..]) == Listed(old(warnings)) + Warnings(s)
        {
          assert stmts[i] in stmts && stmts[i..][1..] == stmts[i + 1..];
          CheckFrom(stmts[i]);
        }
      case If(t, e) =>
        CheckLatchInferred(t);
        CheckLatchInferred(e);
      case Case(items) =>
        for i := 0 to |items|
          invariant Listed(warnings) + WarningsOfItems(items[i..]) == Listed(old(warnings)) + Warnings(s)
        {
          assert items[i] in items && items[i..][1..] == items[i + 1..];
          CheckLatchInferred(items[i].body);
        }
      case Loop(b) => CheckLatchInferred(b);
      case Assign(_) =>
      case Other =>
    }

    /** The visitor itself: one statement, its parts aside. */
    method Check(s: Stmt)
      modifies `warnings
      ensures Listed(warnings) == Listed(old(warnings)) + OwnWarnings(s)
    {
      var signals: set<string> := {};
      if s.If? {
        var inThen := new Visitor();
        inThen.CollectTargets(s.thenBody);
        if s.elseBody.None? {
          signals := inThen.targets;
        } else {
          var inElse := new Visitor();
          inElse.CollectTargets(s.elseBody);
          signals := (inThen.targets - inElse.targets) + (inElse.targets - inThen.targets);
        }
      } else if s.Case? && !HasDefault(s.items) {
        var all := new Visitor();
        for i := 0 to |s.items|
          invariant all.targets + TargetsOfItems(s.items[i..]) == TargetsOfItems(s.items)
          invariant fresh(all) && warnings == old(warnings)
        {
          assert s.items[i..][1..] == s.items[i + 1..];
          all.CollectTargets(s.items[i].body);
        }
        signals := all.targets;
      }
      assert signals == Reported(s);
      while signals != {}
        invariant signals <= Reported(s)
        invariant Listed(warnings) + (set sig | sig in signals :: WarningFor(s, sig))
               == Listed(old(warnings)) + OwnWarnings(s)
        decreases signals
      {
        var sig :| sig in signals;
        warnings := warnings + [WarningFor(s, sig)];
        signals := signals - {sig};
      }
    }
  }

  // ---------------------------------------------------------------- paths

  /** The names assigned on some path through a statement; which branch is taken, and how often a loop turns, is not
      decided. When once is set every loop turns at least once. */
  ghost predicate Assigns(s: Stmt, names: set<string>, once: bool)
    decreases s, 0
  {
    match s
    case Assign(_) => names == Targets(s)
    case SeqBlock(stmts) => AssignsAll(stmts, names, once)
    case If(t, e) => AssignsIn(t, names, once) || AssignsIn(e, names, once)
    case Case(items) => AssignsSome(items, names, once) || (!HasDefault(items) && names == {})
    case Loop(b) => exists n: nat :: (once ==> n > 0) && AssignsTurns(b, names, n, once)
    case Other => names == {}
  }

  /** A missing branch assigns nothing. */
  ghost predicate AssignsIn(s: Option<Stmt>, names: set<string>, once: bool)
    decreases s, 1
  {
    if s.Some? then Assigns(s.value, names, once) else names == {}
  }

  ghost predicate AssignsTurns(s: Option<Stmt>, names: set<string>, n: nat, once: bool)
    decreases s, 2, n
  {
    if n == 0 then names == {} else
    exists first, rest :: AssignsIn(s, first, once) && AssignsTurns(s, rest, n - 1, once) && names == first + rest
  }

  ghost predicate AssignsAll(stmts: seq<Stmt>, names: set<string>, once: bool)
    decreases stmts, 0
  {
    if stmts == [] then names == {} else
    exists first, rest :: Assigns(stmts[0], first, once) && AssignsAll(stmts[1..], rest, once) && names == first + rest
  }

  ghost predicate AssignsSome(items: seq<Item>, names: set<string>, once: bool)
    decreases items, 0
  {
    items != [] &&
    var Item(_, body) := items[0];
    assert (items decreases to items[0]) && (items[0] decreases to body);
    AssignsIn(body, names, once) || AssignsSome(items[1..], names, once)
  }

  predicate BranchesAgree(items: seq<Item>, names: set<string>) {
    forall i :: 0 <= i < |items| ==> TargetsIn(items[i].body) == names
  }

  /** Blocks, ifs, assignments, cases and loops. A loop that need not turn assigns nothing, and the branches of a case
      with a default assign the same names, since the check looks at neither. */
  predicate Checked(s: Stmt, once: bool)
    decreases s, 0
  {
    match s
    case SeqBlock(stmts) => forall i :: 0 <= i < |stmts| ==> Checked(stmts[i], once)
    case If(t, e) => CheckedIn(t, once) && CheckedIn(e, once)
    case Case(items) => CheckedItems(items, once) && (HasDefault(items) ==> BranchesAgree(items, TargetsOfItems(items)))
    case Loop(b) => CheckedIn(b, once) && (once || TargetsIn(b) == {})
    case _ => true
  }

  predicate CheckedIn(s: Option<Stmt>, once: bool)
    decreases s, 1
  {
    s.Some? ==> Checked(s.value, once)
  }

  predicate CheckedItems(items: seq<Item>, once: bool)
    decreases items, 0
  {
    items == [] ||
    var Item(_, body) := items[0];
    assert (items decreases to items[0]) && (items[0] decreases to body);
    CheckedIn(body, once) && CheckedItems(items[1..], once)
  }

  lemma NoOwnWarnings(s: Stmt)
    requires OwnWarnings(s) == {}
    ensures Reported(s) == {}
  {
    assert forall sig :: sig in Reported(s) ==> WarningFor(s, sig) in OwnWarnings(s);
  }

  /** A clean report means that every path assigns the same names: all that the body assigns anywhere. */
  lemma {:induction false} CleanMeansEveryPathAssignsAll(s: Stmt, names: set<string>, once: bool)
    requires Checked(s, once) && Warnings(s) == {} && Assigns(s, names, once)
    ensures names == Targets(s)
    decreases s, 0
  {
    NoOwnWarnings(s);
    match s
    case Assign(_) =>
    case Other =>
    case SeqBlock(stmts) => CleanBlock(stmts, names, once);
    case If(t, e) => if AssignsIn(t, names, once) { CleanBranch(t, names, once); } else { CleanBranch(e, names, once); }
    case Case(items) =>
      if !HasDefault(items) { NoTargetsAgree(items); }
      if AssignsSome(items, names, once) { CleanItems(items, names, Targets(s), once); }
    case Loop(b) =>
      var n: nat :| (once ==> n > 0) && AssignsTurns(b, names, n, once);
      CleanTurns(b, names, n, once);
  }

  lemma {:induction false} NoTargetsAgree(items: seq<Item>)
    requires TargetsOfItems(items) == {}
    ensures BranchesAgree(items, {})
  {
    if items != [] {
      NoTargetsAgree(items[1..]);
      assert forall i :: 1 <= i < |items| ==> items[i] == items[1..][i - 1];
    }
  }

  lemma {:induction false} CleanBranch(s: Option<Stmt>, names: set<string>, once: bool)
    requires CheckedIn(s, once) && WarningsIn(s) == {} && AssignsIn(s, names, once)
    ensures names == TargetsIn(s)
    decreases s, 1
  {
    if s.Some? { CleanMeansEveryPathAssignsAll(s.value, names, once); }
  }

  lemma {:induction false} CleanTurns(s: Option<Stmt>, names: set<string>, n: nat, once: bool)
    requires CheckedIn(s, once) && WarningsIn(s) == {} && AssignsTurns(s, names, n, once)
    ensures names == if n == 0 then {} else TargetsIn(s)
    decreases s, 2, n
  {
    if n > 0 {
      var first, rest :| AssignsIn(s, first, once) && AssignsTurns(s, rest, n - 1, once) && names == first + rest;
      CleanBranch(s, first, once);
      CleanTurns(s, rest, n - 1, once);
    }
  }

  lemma {:induction false} CleanBlock(stmts: seq<Stmt>, names: set<string>, once: bool)
    requires (forall i :: 0 <= i < |stmts| ==> Checked(stmts[i], once)) && WarningsOfAll(stmts) == {}
    requires AssignsAll(stmts, names, once)
    ensures names == TargetsOfAll(stmts)
    decreases stmts, 0
  {
    if stmts != [] {
      var first, rest :| Assigns(stmts[0], first, once) && AssignsAll(stmts[1..], rest, once) && names == first + rest;
      CleanMeansEveryPathAssignsAll(stmts[0], first, once);
      CleanBlock(stmts[1..], rest, once);
    }
  }

  lemma {:induction false} CleanItems(items: seq<Item>, names: set<string>, all: set<string>, once: bool)
    requires CheckedItems(items, once) && WarningsOfItems(items) == {} && AssignsSome(items, names, once)
    requires BranchesAgree(items, all)
    ensures names == all
    decreases items, 0
  {
    var Item(_, body) := items[0];
    assert (items decreases to items[0]) && (items[0] decreases to body);
    if AssignsIn(body, names, once) {
      CleanBranch(body, names, once);
    } else {
      CleanItems(items[1..], names, all, once);
    }
  }

  lemma {:induction false} CleanHasAPath(s: Stmt, once: bool)
    requires Checked(s, once) && Warnings(s) == {}
    ensures Assigns(s, Targets(s), once)
    decreases s, 0
  {
    NoOwnWarnings(s);
    match s
    case SeqBlock(stmts) => CleanBlockHasAPath(stmts, once);
    case If(t, e) =>
      if t.Some? { CleanHasAPath(t.value, once); }
      assert AssignsIn(t, TargetsIn(t), once) && AssignsIn(None, {}, once);
      assert e.None? ==> TargetsIn(t) == {};
      assert e.Some? ==> TargetsIn(t) - TargetsIn(e) == {} && TargetsIn(e) - TargetsIn(t) == {};
      assert Targets(s) == TargetsIn(t);
    case Case(items) =>
      if HasDefault(items) {
        var Item(_, body) := items[0];
        assert (s decreases to items) && (items decreases to items[0]) && (items[0] decreases to body);
        assert WarningsIn(body) <= WarningsOfItems(items) <= Warnings(s);
        assert CheckedItems(items, once) && CheckedIn(body, once);
        if body.Some? { CleanHasAPath(body.value, once); }
        assert TargetsIn(items[0].body) == Targets(s);
      }
    case Loop(body) =>
      if body.Some? { CleanHasAPath(body.value, once); }
      OneTurn(body, TargetsIn(body), once);
    case _ =>
  }

  lemma OneTurn(s: Option<Stmt>, names: set<string>, once: bool)
    requires AssignsIn(s, names, once)
    ensures Assigns(Loop(s), names, once)
  {
    assert AssignsTurns(s, {}, 0, once) && names == names + {};
    assert AssignsTurns(s, names, 1, once);
  }

  lemma {:induction false} CleanBlockHasAPath(stmts: seq<Stmt>, once: bool)
    requires (forall i :: 0 <= i < |stmts| ==> Checked(stmts[i], once)) && WarningsOfAll(stmts) == {}
    ensures AssignsAll(stmts, TargetsOfAll(stmts), once)
    decreases stmts, 0
  {
    if stmts != [] {
      CleanHasAPath(stmts[0], once);
      CleanBlockHasAPath(stmts[1..], once);
    }
  }

  predicate PartsClean(s: Stmt) {
    match s
    case SeqBlock(stmts) => WarningsOfAll(stmts) == {}
    case If(t, e) => WarningsIn(t) == {} && WarningsIn(e) == {}
    case Case(items) => WarningsOfItems(items) == {}
    case Loop(b) => WarningsIn(b) == {}
    case _ => true
  }

  /** Some path through the statement leaves the signal alone. */
  ghost predicate Misses(s: Stmt, signal: string, once: bool) {
    exists names :: Assigns(s, names, once) && signal !in names
  }

  lemma BranchPath(s: Option<Stmt>, once: bool)
    requires CheckedIn(s, once) && WarningsIn(s) == {}
    ensures AssignsIn(s, TargetsIn(s), once)
  {
    if s.Some? { CleanHasAPath(s.value, once); }
  }

  /** The check is exact at each statement: over parts that are clean themselves it reports just the signals that
      some path assigns and some path misses. */
  lemma ReportedExactly(s: Stmt, signal: string, once: bool)
    requires Checked(s, once) && PartsClean(s)
    ensures signal in Reported(s) <==> signal in Targets(s) && Misses(s, signal, once)
  {
    match s
    case SeqBlock(stmts) =>
      if names :| Assigns(s, names, once) && signal !in names { CleanBlock(stmts, names, once); }
    case If(t, e) =>
      BranchPath(t, once);
      BranchPath(e, once);
      assert Assigns(s, TargetsIn(t), once) && Assigns(s, TargetsIn(e), once);
      if names :| Assigns(s, names, once) && signal !in names {
        if AssignsIn(t, names, once) { CleanBranch(t, names, once); } else { CleanBranch(e, names, once); }
      }
    case Case(items) =>
      if HasDefault(items) {
        if names :| Assigns(s, names, once) && signal !in names { CleanItems(items, names, Targets(s), once); }
      } else {
        assert Assigns(s, {}, once);
      }
    case Loop(body) =>
      if names :| Assigns(s, names, once) && signal !in names {
        assert Assigns(Loop(body), names, once);
        var n: nat :| (once ==> n > 0) && AssignsTurns(body, names, n, once);
        CleanTurns(body, names, n, once);
      }
    case _ =>
  }

  // ---------------------------------------------------------------- the whole tree

  /** The paths of the statement and of each statement in it agree. */
  ghost predicate PathsAgree(s: Stmt, once: bool)
    decreases s, 0
  {
    Always(s, Targets(s), once) &&
    match s
    case SeqBlock(stmts) => forall i :: 0 <= i < |stmts| ==> PathsAgree(stmts[i], once)
    case If(t, e) => PathsAgreeIn(t, once) && PathsAgreeIn(e, once)
    case Case(items) => PathsAgreeItems(items, once)
    case Loop(b) => PathsAgreeIn(b, once)
    case _ => true
  }

  ghost predicate PathsAgreeIn(s: Option<Stmt>, once: bool)
    decreases s, 1
  {
    s.Some? ==> PathsAgree(s.value, once)
  }

  ghost predicate PathsAgreeItems(items: seq<Item>, once: bool)
    decreases items, 0
  {
    items == [] ||
    var Item(_, body) := items[0];
    assert (items decreases to items[0]) && (items[0] decreases to body);
    PathsAgreeIn(body, once) && PathsAgreeItems(items[1..], once)
  }

  /** A path assigns nothing that is not assigned somewhere. */
  lemma {:induction false} PathsStayInside(s: Stmt, names: set<string>, once: bool)
    requires Assigns(s, names, once)
    ensures names <= Targets(s)
    decreases s, 0
  {
    match s
    case SeqBlock(stmts) => BlockPathsStayInside(stmts, names, once);
    case If(t, e) =>
      if AssignsIn(t, names, once) { BranchStaysInside(t, names, once); } else { BranchStaysInside(e, names, once); }
    case Case(items) => if AssignsSome(items, names, once) { ItemPathsStayInside(items, names, once); }
    case Loop(b) =>
      var n: nat :| (once ==> n > 0) && AssignsTurns(b, names, n, once);
      TurnsStayInside(b, names, n, once);
    case _ =>
  }

  lemma {:induction false} BranchStaysInside(s: Option<Stmt>, names: set<string>, once: bool)
    requires AssignsIn(s, names, once)
    ensures names <= TargetsIn(s)
    decreases s, 1
  {
    if s.Some? { PathsStayInside(s.value, names, once); }
  }

  lemma {:induction false} TurnsStayInside(s: Option<Stmt>, names: set<string>, n: nat, once: bool)
    requires AssignsTurns(s, names, n, once)
    ensures names <= TargetsIn(s)
    decreases s, 2, n
  {
    if n > 0 {
      var first, rest :| AssignsIn(s, first, once) && AssignsTurns(s, rest, n - 1, once) && names == first + rest;
      BranchStaysInside(s, first, once);
      TurnsStayInside(s, rest, n - 1, once);
    }
  }

  lemma {:induction false} BlockPathsStayInside(stmts: seq<Stmt>, names: set<string>, once: bool)
    requires AssignsAll(stmts, names, once)
    ensures names <= TargetsOfAll(stmts)
    decreases stmts, 0
  {
    if stmts != [] {
      var first, rest :| Assigns(stmts[0], first, once) && AssignsAll(stmts[1..], rest, once) && names == first + rest;
      PathsStayInside(stmts[0], first, once);
      BlockPathsStayInside(stmts[1..], rest, once);
    }
  }

  lemma {:induction false} ItemPathsStayInside(items: seq<Item>, names: set<string>, once: bool)
    requires AssignsSome(items, names, once)
    ensures names <= TargetsOfItems(items)
    decreases items, 0
  {
    var Item(_, body) := items[0];
    assert (items decreases to items[0]) && (items[0] decreases to body);
    if AssignsIn(body, names, once) {
      BranchStaysInside(body, names, once);
    } else {
      ItemPathsStayInside(items[1..], names, once);
    }
  }

  /** Over clean parts a statement is not reported exactly when its paths agree. */
  lemma OwnCleanExactly(s: Stmt, once: bool)
    requires Checked(s, once) && PartsClean(s)
    ensures OwnWarnings(s) == {} <==> Always(s, Targets(s), once)
  {
    if OwnWarnings(s) == {} {
      NoOwnWarnings(s);
      forall names | Assigns(s, names, once) ensures names == Targets(s) {
        PathsStayInside(s, names, once);
        forall signal | signal in Targets(s) ensures signal in names { ReportedExactly(s, signal, once); }
      }
    } else {
      var warning :| warning in OwnWarnings(s);
      var signal :| signal in Reported(s) && warning == WarningFor(s, signal);
      ReportedExactly(s, signal, once);
    }
  }

  /** Exactly, for the whole body: the report is empty if and only if the paths of every statement in it agree. It is
      not enough that the body's own paths do. */
  lemma {:induction false} CleanExactly(s: Stmt, once: bool)
    requires Checked(s, once)
    ensures Warnings(s) == {} <==> PathsAgree(s, once)
    decreases s, 0
  {
    match s {
      case SeqBlock(stmts) => CleanBlockExactly(stmts, once);
      case If(t, e) =>
        CleanBranchExactly(t, once);
        CleanBranchExactly(e, once);
      case Case(items) => CleanItemsExactly(items, once);
      case Loop(b) => CleanBranchExactly(b, once);
      case _ =>
    }
    if PartsClean(s) { OwnCleanExactly(s, once); }
  }

  lemma {:induction false} CleanBranchExactly(s: Option<Stmt>, once: bool)
    requires CheckedIn(s, once)
    ensures WarningsIn(s) == {} <==> PathsAgreeIn(s, once)
    decreases s, 1
  {
    if s.Some? { CleanExactly(s.value, once); }
  }

  lemma {:induction false} CleanBlockExactly(stmts: seq<Stmt>, once: bool)
    requires forall i :: 0 <= i < |stmts| ==> Checked(stmts[i], once)
    ensures WarningsOfAll(stmts) == {} <==> forall i :: 0 <= i < |stmts| ==> PathsAgree(stmts[i], once)
    decreases stmts, 0
  {
    if stmts != [] {
      CleanExactly(stmts[0], once);
      CleanBlockExactly(stmts[1..], once);
      assert forall i :: 1 <= i < |stmts| ==> stmts[i] == stmts[1..][i - 1];
    }
  }

  lemma {:induction false} CleanItemsExactly(items: seq<Item>, once: bool)
    requires CheckedItems(items, once)
    ensures WarningsOfItems(items) == {} <==> PathsAgreeItems(items, once)
    decreases items, 0
  {
    if items != [] {
      var Item(_, body) := items[0];
      assert (items decreases to items[0]) && (items[0] decreases to body);
      CleanBranchExactly(body, once);
      CleanItemsExactly(items[1..], once);
    }
  }

  lemma {:induction false} ItemPaths(items: seq<Item>, names: set<string>, once: bool)
    requires CheckedItems(items, once) && WarningsOfItems(items) == {}
    ensures AssignsSome(items, names, once) <==> exists i :: 0 <= i < |items| && names == TargetsIn(items[i].body)
  {
    if items != [] {
      var Item(_, body) := items[0];
      ItemPaths(items[1..], names, once);
      if AssignsIn(body, names, once) { CleanBranch(body, names, once); }
      if body.Some? { CleanHasAPath(body.value, once); }
      assert AssignsIn(body, names, once) <==> names == TargetsIn(body);
      assert forall i :: 1 <= i < |items| ==> items[i] == items[1..][i - 1];
    }
  }

  /** Every path assigns just these names. */
  ghost predicate Always(s: Stmt, names: set<string>, once: bool) {
    forall n :: Assigns(s, n, once) ==> n == names
  }

  /** A case with a default over clean branches, which the check never reports: every path assigns the same names
      exactly when all branches assign all of them. */
  lemma DefaultCaseExactly(items: seq<Item>, once: bool)
    requires HasDefault(items) && CheckedItems(items, once) && WarningsOfItems(items) == {}
    ensures Warnings(Case(items)) == {}
    ensures Always(Case(items), Targets(Case(items)), once) <==> BranchesAgree(items, Targets(Case(items)))
  {
    var s := Case(items);
    forall names
      ensures Assigns(s, names, once) <==> exists i :: 0 <= i < |items| && names == TargetsIn(items[i].body)
    {
      ItemPaths(items, names, once);
      assert Assigns(s, names, once) <==> AssignsSome(items, names, once);
    }
    if Always(s, Targets(s), once) {
      forall i | 0 <= i < |items| ensures TargetsIn(items[i].body) == Targets(s) {
        assert Assigns(s, TargetsIn(items[i].body), once);
      }
    }
  }

  /** A loop over a clean body is never reported either: every path assigns the same names exactly when the loop turns
      at least once or assigns nothing. */
  lemma LoopExactly(b: Option<Stmt>, once: bool)
    requires CheckedIn(b, once) && WarningsIn(b) == {}
    ensures Warnings(Loop(b)) == {}
    ensures Always(Loop(b), Targets(Loop(b)), once) <==> once || TargetsIn(b) == {}
  {
    var s := Loop(b);
    if once || TargetsIn(b) == {} {
      assert Checked(s, once);
      forall names | Assigns(s, names, once) ensures names == Targets(s) {
        CleanMeansEveryPathAssignsAll(s, names, once);
      }
    } else {
      assert AssignsTurns(b, {}, 0, once);
      assert Assigns(s, {}, once);
    }
  }

  /** The check is one way only: a default value assigned first makes every path assign x, and is still reported. */
  lemma CompleteBodyCanBeReported(x: string, names: set<string>, once: bool)
    ensures var s := SeqBlock([Assign(Some(x)), If(Some(Assign(Some(x))), None)]);
            && (Assigns(s, names, once) ==> names == Targets(s))
            && Warnings(s) != {}
  {
    var a := Assign(Some(x));
    var b := If(Some(a), None);
    var stmts := [a, b];
    assert Targets(a) == {x} && TargetsIn(Some(a)) == {x};
    assert stmts[1..] == [b] && [b][1..] == [];
    assert Targets(b) == TargetsIn(Some(a)) + TargetsIn(None) == {x};
    assert TargetsOfAll([b][1..]) == {} && TargetsOfAll([b]) == Targets(b) + {};
    assert TargetsOfAll(stmts) == {x};
    assert x in Reported(b);
    assert WarningFor(b, x) in OwnWarnings(b);
    assert WarningFor(b, x) in Warnings(b);
    assert WarningFor(b, x) in WarningsOfAll([b]);
    if AssignsAll(stmts, names, once) {
      var first, rest :| Assigns(a, first, once) && AssignsAll([b], rest, once) && names == first + rest;
      var second, none :| Assigns(b, second, once) && AssignsAll([], none, once) && rest == second + none;
      assert Assigns(b, second, once) == (AssignsIn(Some(a), second, once) || AssignsIn(None, second, once));
      if AssignsIn(Some(a), second, once) { assert Assigns(a, second, once); }
      assert first == {x} && (second == {x} || second == {}) && none == {};
    }
  }

  /** Branches of a case with a default are not compared: a clean report of one promises nothing. */
  lemma DefaultHidesALatch(x: string, once: bool)
    ensures var s := Case([Item(false, Some(Assign(Some(x)))), Item(true, Some(Other))]);
            Warnings(s) == {} && Assigns(s, {x}, once) && Assigns(s, {}, once)
  {
    var first, last := Item(false, Some(Assign(Some(x)))), Item(true, Some(Other));
    var items := [first, last];
    assert items[1..] == [last] && [last][1..] == [];
    assert items[1].isDefault;
    var a := Assign(Some(x));
    assert Assigns(a, {x}, once) && AssignsIn(Some(a), {x}, once) && AssignsSome(items, {x}, once);
    assert Assigns(Other, {}, once) && AssignsIn(Some(Other), {}, once);
    assert AssignsSome([last], {}, once) && AssignsSome(items, {}, once);
    assert Reported(a) == {} && Reported(Other) == {};
    assert Warnings(a) == {} && Warnings(Other) == {};
    assert WarningsIn(Some(a)) == {} && WarningsIn(Some(Other)) == {};
    assert WarningsOfItems([last]) == {};
    assert WarningsOfItems(items) == {};
  }

  /** The warnings of one statement by kind: everything an if without else assigns, what just one branch of an if with
      else assigns, everything a case without default assigns; no others. */
  lemma OwnWarningsExactly(s: Stmt, warning: Warning)
    ensures warning in OwnWarnings(s)
       <==> || (s.If? && s.elseBody == None && warning == NoElse(warning.signal)
                && warning.signal in TargetsIn(s.thenBody))
            || (s.If? && s.elseBody != None && warning == NotAllPaths(warning.signal)
                && (warning.signal in TargetsIn(s.thenBody)) != (warning.signal in TargetsIn(s.elseBody)))
            || (s.Case? && warning == NoDefault(warning.signal) && warning.signal in TargetsOfItems(s.items)
                && forall i :: 0 <= i < |s.items| ==> !s.items[i].isDefault)
  {
    if warning in OwnWarnings(s) {
      var signal :| signal in Reported(s) && warning == WarningFor(s, signal);
    }
    if warning.signal in Reported(s) { assert WarningFor(s, warning.signal) in OwnWarnings(s); }
  }

  /** The names a body assigns are those of the assignments in it. */
  lemma AssignmentTargets(lhs: Option<string>, name: string)
    ensures name in Targets(Assign(lhs)) <==> lhs == Some(name)
  {
  }
}
