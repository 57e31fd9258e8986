/** Clocks and resets promoted through a design's instances, with a cache and a sentinel against cycles. */
module ClockReset {
  import opened Options

  datatype Reset = Reset(name: string, style: string, activeLow: bool, edge: string, clock: Option<string>)

  /** Clocks (name to edge) and resets by name. */
  datatype Info = Info(clocks: map<string, string>, resets: map<string, Reset>)

  /** A port connection: the plain identifier connected, if it is one, and the port, if it can be told. */
  datatype Connection = Connection(signal: Option<string>, port: Option<string>)
  datatype Instance = Instance(target: Option<nat>, connections: seq<Connection>)

  /** own: what the module's own always blocks show. */
  datatype Module = Module(name: string, own: Info, instances: seq<Instance>)

  /** The modules by identity; byName lists a set of names in the order reports use. */
  datatype Design = Design(modules: map<nat, Module>, byName: set<string> -> seq<string>)

  const NOTHING := Info(map[], map[])

  ghost predicate Linked(d: Design) {
    && (forall id :: id in d.modules ==>
          forall i :: 0 <= i < |d.modules[id].instances| && d.modules[id].instances[i].target.Some? ==>
            d.modules[id].instances[i].target.value in d.modules)
    && Lists(d.byName)
  }

  ghost predicate Lists(f: set<string> -> seq<string>) { forall names :: SameMembers(f(names), names) }

  ghost predicate SameMembers(s: seq<string>, names: set<string>) { forall n :: n in s <==> n in names }

  function Names(d: Design): set<string> { set id | id in d.modules :: d.modules[id].name }

  /** How many module names are not in the cache. */
  ghost function Unseen(d: Design, seen: set<string>): nat { |Names(d) - seen| }

  lemma FewerUnseen(d: Design, before: set<string>, after: set<string>, id: nat)
    requires id in d.modules && d.modules[id].name !in before && before + {d.modules[id].name} <= after
    ensures Unseen(d, after) < Unseen(d, before)
  {
    var name := d.modules[id].name;
    var left, more := Names(d) - after, Names(d) - before;
    assert name in more && left <= more - {name};
    FewerMembers(left, more - {name});
  }

  lemma {:induction false} FewerMembers(a: set<string>, b: set<string>)
    requires a <= b
    ensures |a| <= |b|
  {
    var extra := b - a;
    assert b == a + extra && |a + extra| == |a| + |extra|;
  }

  // ---------------------------------------------------------------- promotion through one instance

  /** Sub-port name to parent signal; the last connection of a port counts. */
  function PortMap(cs: seq<Connection>): map<string, string> {
    if cs == [] then map[] else
    var c := cs[|cs| - 1];
    var rest := PortMap(cs[..|cs| - 1]);
    if c.signal.Some? && c.port.Some? then rest[c.port.value := c.signal.value] else rest
  }

  /** Signals the clock ports in sub lead to that are not clocks yet. */
  function Gained(clocks: map<string, string>, sub: set<string>, ports: map<string, string>): set<string> {
    set c | c in sub && c in ports && ports[c] !in clocks :: ports[c]
  }

  function PromotedClocks(clocks: map<string, string>, sub: set<string>, ports: map<string, string>)
    : map<string, string>
  {
    map signal | signal in clocks.Keys + Gained(clocks, sub, ports) ::
      if signal in clocks then clocks[signal] else "posedge"
  }

  function PromotedReset(r: Reset, ports: map<string, string>, signal: string): Reset {
    r.(name := signal,
       clock := if r.clock.Some? && r.clock.value in ports then Some(ports[r.clock.value]) else None)
  }

  /** A promoted clock is a rising edge; a clock found before keeps its edge. */
  lemma PromotedClocksExactly(clocks: map<string, string>, sub: set<string>, ports: map<string, string>, signal: string)
    ensures var r := PromotedClocks(clocks, sub, ports);
            && (signal in clocks ==> signal in r && r[signal] == clocks[signal])
            && (signal !in clocks && signal in r ==> r[signal] == "posedge")
  {
  }

  /** In report order; a signal keeps the first reset promoted to it. */
  function PromotedResets(resets: map<string, Reset>, order: seq<string>, sub: map<string, Reset>,
                          ports: map<string, string>): map<string, Reset>
    requires forall n :: n in order ==> n in sub
  {
    if order == [] then resets else
    var done := PromotedResets(resets, order[..|order| - 1], sub, ports);
    var port := order[|order| - 1];
    if port in ports && ports[port] !in done then done[ports[port] := PromotedReset(sub[port], ports, ports[port])]
    else done
  }

  function Promote(d: Design, found: Info, sub: Info, cs: seq<Connection>): Info
    requires Lists(d.byName)
  {
    var ports := PortMap(cs);
    assert SameMembers(d.byName(sub.resets.Keys), sub.resets.Keys);
    Info(PromotedClocks(found.clocks, sub.clocks.Keys, ports),
         PromotedResets(found.resets, d.byName(sub.resets.Keys), sub.resets, ports))
  }

  // ---------------------------------------------------------------- the plain recursive definition

  /** Instances lead to modules of lower rank: the instance graph has no cycle. */
  ghost predicate Acyclic(d: Design, rank: nat -> nat) {
    forall id, i :: id in d.modules && 0 <= i < |d.modules[id].instances| && d.modules[id].instances[i].target.Some? ==>
      rank(d.modules[id].instances[i].target.value) < rank(id)
  }

  ghost function Plain(d: Design, rank: nat -> nat, id: nat): Info
    requires Linked(d) && Acyclic(d, rank) && id in d.modules
    decreases rank(id), |d.modules[id].instances| + 1
  {
    var m := d.modules[id];
    if m.own.clocks != map[] then m.own else PlainUpTo(d, rank, id, |m.instances|)
  }

  ghost function PlainUpTo(d: Design, rank: nat -> nat, id: nat, n: nat): Info
    requires Linked(d) && Acyclic(d, rank) && id in d.modules && n <= |d.modules[id].instances|
    decreases rank(id), n
  {
    if n == 0 then NOTHING else
    var before := PlainUpTo(d, rank, id, n - 1);
    var inst := d.modules[id].instances[n - 1];
    if inst.target.None? then before
    else Promote(d, before, Plain(d, rank, inst.target.value), inst.connections)
  }

  // ---------------------------------------------------------------- the memoised extraction

  ghost predicate UniqueNames(d: Design) {
    forall a, b :: a in d.modules && b in d.modules && d.modules[a].name == d.modules[b].name ==> a == b
  }

  /** Apart from the modules being worked on, the cache holds results of the plain definition. */
  ghost predicate CacheIsPlain(d: Design, rank: nat -> nat, cache: map<string, Info>, active: set<string>)
    requires Linked(d) && Acyclic(d, rank)
  {
    forall id :: id in d.modules && d.modules[id].name in cache && d.modules[id].name !in active ==>
      cache[d.modules[id].name] == Plain(d, rank, id)
  }

  /** All modules being worked on lie above a rank. */
  ghost predicate ActiveAbove(d: Design, rank: nat -> nat, active: set<string>, r: nat) {
    forall id :: id in d.modules && d.modules[id].name in active ==> rank(id) > r
  }

  /** The instance graph has no cycle, names are unique, and the modules being worked on lie above this one. */
  ghost predicate Orderly(d: Design, rank: nat -> nat, active: set<string>, id: nat) {
    Linked(d) && Acyclic(d, rank) && UniqueNames(d) && ActiveAbove(d, rank, active, rank(id))
  }

  ghost predicate Ready(d: Design, rank: nat -> nat, cache: map<string, Info>, active: set<string>, id: nat) {
    Orderly(d, rank, active, id) && CacheIsPlain(d, rank, cache, active)
  }

  /** Marking a module as being worked on gets one ready for each module it instantiates. */
  lemma ReadyInside(d: Design, rank: nat -> nat, cache: map<string, Info>, active: set<string>, id: nat, i: nat)
    requires Orderly(d, rank, active, id) && id in d.modules && i < |d.modules[id].instances|
    requires d.modules[id].instances[i].target.Some? && CacheIsPlain(d, rank, cache, active + {d.modules[id].name})
    ensures Ready(d, rank, cache, active + {d.modules[id].name}, d.modules[id].instances[i].target.value)
  {
    assert rank(d.modules[id].instances[i].target.value) < rank(id);
  }

  lemma Started(d: Design, rank: nat -> nat, cache: map<string, Info>, active: set<string>, id: nat)
    requires Ready(d, rank, cache, active, id) && id in d.modules
    ensures CacheIsPlain(d, rank, cache[d.modules[id].name := NOTHING], active + {d.modules[id].name})
    ensures d.modules[id].name in cache ==> cache[d.modules[id].name] == Plain(d, rank, id)
  {
    assert d.modules[id].name !in active;
  }

  /** The first i instances have been worked through. */
  ghost predicate Underway(d: Design, rank: nat -> nat, cache: map<string, Info>, active: set<string>, id: nat, i: nat,
                           info: Info)
    requires id in d.modules && i <= |d.modules[id].instances|
  {
    && Orderly(d, rank, active, id)
    && CacheIsPlain(d, rank, cache, active + {d.modules[id].name})
    && info == PlainUpTo(d, rank, id, i)
  }

  lemma InstanceDone(d: Design, rank: nat -> nat, cache: map<string, Info>, active: set<string>, id: nat, i: nat,
                     info: Info, sub: Info)
    requires id in d.modules && i < |d.modules[id].instances| && d.modules[id].instances[i].target.Some?
    requires Underway(d, rank, cache, active, id, i, info)
    requires sub == Plain(d, rank, d.modules[id].instances[i].target.value)
    ensures Underway(d, rank, cache, active, id, i + 1, Promote(d, info, sub, d.modules[id].instances[i].connections))
  {
  }

  lemma InstanceSkipped(d: Design, rank: nat -> nat, cache: map<string, Info>, active: set<string>, id: nat, i: nat,
                        info: Info)
    requires id in d.modules && i < |d.modules[id].instances| && d.modules[id].instances[i].target.None?
    requires Underway(d, rank, cache, active, id, i, info)
    ensures Underway(d, rank, cache, active, id, i + 1, info)
  {
  }

  lemma FinishedIsPlain(d: Design, rank: nat -> nat, cache: map<string, Info>, active: set<string>, id: nat, info: Info)
    requires id in d.modules && d.modules[id].own.clocks == map[]
    requires Underway(d, rank, cache, active, id, |d.modules[id].instances|, info)
    ensures info == Plain(d, rank, id) && CacheIsPlain(d, rank, cache[d.modules[id].name := info], active)
  {
  }

  // ---------------------------------------------------------------- what is reported on any graph

  datatype Kind = AClock | AReset

  function Signals(info: Info, kind: Kind): set<string> {
    if kind.AClock? then info.clocks.Keys else info.resets.Keys
  }

  /** At most n plain connections lead from the signal down to one that a module's own blocks show. The cache is by
      name, so the way may go on from any module of the same name. */
  ghost predicate Leads(d: Design, id: nat, kind: Kind, signal: string, n: nat)
    requires Linked(d) && id in d.modules
    decreases n
  {
    if d.modules[id].own.clocks != map[] then signal in Signals(d.modules[id].own, kind)
    else n > 0 && exists a, i, port :: Passes(d, id, a, i, port, signal) && Leads(d, Target(d, a, i), kind, port, n - 1)
  }

  /** Module a is looked into for id, and its instance i connects the port to the signal. */
  ghost predicate Passes(d: Design, id: nat, a: nat, i: nat, port: string, signal: string)
    requires id in d.modules
  {
    && a in d.modules && d.modules[a].name == d.modules[id].name && d.modules[a].own.clocks == map[]
    && i < |d.modules[a].instances| && d.modules[a].instances[i].target.Some?
    && Connects(d.modules[a].instances[i].connections, port, signal)
  }

  ghost function Target(d: Design, a: nat, i: nat): (id: nat)
    requires Linked(d) && a in d.modules && i < |d.modules[a].instances| && d.modules[a].instances[i].target.Some?
    ensures id in d.modules
  {
    d.modules[a].instances[i].target.value
  }

  ghost predicate Traced(d: Design, id: nat, kind: Kind, signal: string)
    requires Linked(d) && id in d.modules
  {
    exists n: nat :: Leads(d, id, kind, signal, n)
  }

  /** Whatever is in the report has a way down to the block that shows it. */
  ghost predicate AllTraced(d: Design, id: nat, info: Info)
    requires Linked(d) && id in d.modules
  {
    forall kind, signal :: signal in Signals(info, kind) ==> Traced(d, id, kind, signal)
  }

  ghost predicate Sound(d: Design, cache: map<string, Info>)
    requires Linked(d)
  {
    forall id :: id in d.modules && d.modules[id].own.clocks == map[] && d.modules[id].name in cache ==>
      AllTraced(d, id, cache[d.modules[id].name])
  }

  lemma OwnIsTraced(d: Design, id: nat)
    requires Linked(d) && id in d.modules && d.modules[id].own.clocks != map[]
    ensures AllTraced(d, id, d.modules[id].own)
  {
    assert forall kind, signal :: signal in Signals(d.modules[id].own, kind) ==> Leads(d, id, kind, signal, 0);
  }

  lemma NothingIsTraced(d: Design, id: nat)
    requires Linked(d) && id in d.modules
    ensures AllTraced(d, id, NOTHING)
  {
  }

  lemma OneStepMore(d: Design, id: nat, i: nat, kind: Kind, port: string, signal: string)
    requires Linked(d) && id in d.modules
    requires Passes(d, id, id, i, port, signal) && Traced(d, Target(d, id, i), kind, port)
    ensures Traced(d, id, kind, signal)
  {
    var n: nat :| Leads(d, Target(d, id, i), kind, port, n);
    assert Passes(d, id, id, i, port, signal) && Leads(d, Target(d, id, i), kind, port, n + 1 - 1);
    assert Leads(d, id, kind, signal, n + 1);
  }

  /** Promotion through an instance adds only what has a way down. */
  lemma PromotedIsTraced(d: Design, id: nat, i: nat, found: Info, sub: Info)
    requires Linked(d) && id in d.modules && d.modules[id].own.clocks == map[]
    requires i < |d.modules[id].instances| && d.modules[id].instances[i].target.Some?
    requires AllTraced(d, id, found) && AllTraced(d, Target(d, id, i), sub)
    ensures AllTraced(d, id, Promote(d, found, sub, d.modules[id].instances[i].connections))
  {
    var cs := d.modules[id].instances[i].connections;
    var all := Promote(d, found, sub, cs);
    forall kind, signal | signal in Signals(all, kind) ensures Traced(d, id, kind, signal) {
      PromotesSignals(d, found, sub, cs, kind, signal);
      if signal !in Signals(found, kind) {
        var port :| Connects(cs, port, signal) && port in Signals(sub, kind);
        OneStepMore(d, id, i, kind, port, signal);
      }
    }
  }

  /** One module's result serves all modules of that name. */
  lemma SharedByName(d: Design, a: nat, b: nat, info: Info)
    requires Linked(d) && a in d.modules && b in d.modules && d.modules[a].name == d.modules[b].name
    requires d.modules[a].own.clocks == map[] && d.modules[b].own.clocks == map[] && AllTraced(d, a, info)
    ensures AllTraced(d, b, info)
  {
    forall kind, signal | signal in Signals(info, kind) ensures Traced(d, b, kind, signal) {
      var n: nat :| Leads(d, a, kind, signal, n);
      var c, i, port :| Passes(d, a, c, i, port, signal) && Leads(d, Target(d, c, i), kind, port, n - 1);
      assert Passes(d, b, c, i, port, signal);
      assert Leads(d, b, kind, signal, n);
    }
  }

  lemma StoredIsSound(d: Design, cache: map<string, Info>, id: nat, info: Info)
    requires Linked(d) && id in d.modules && d.modules[id].own.clocks == map[]
    requires Sound(d, cache) && AllTraced(d, id, info)
    ensures Sound(d, cache[d.modules[id].name := info])
  {
    forall b | b in d.modules && d.modules[b].own.clocks == map[] && d.modules[b].name == d.modules[id].name
      ensures AllTraced(d, b, info)
    {
      SharedByName(d, id, b, info);
    }
  }

  class Extractor {
    const design: Design
    var cache: map<string, Info>

    constructor (design: Design)
      ensures this.design == design && cache == map[]
    {
      this.design, cache := design, map[];
    }

    /** Ends on every finite instance graph, cyclic or not, and reports only what has a way down to a block that
        shows it; without cycles it gives the plain definition. */
    method Extract(id: nat, ghost rank: nat -> nat, ghost active: set<string>) returns (info: Info)
      requires Linked(design) && id in design.modules
      modifies `cache
      ensures old(cache).Keys <= cache.Keys
      ensures Ready(design, rank, old(cache), active, id) ==>
                info == Plain(design, rank, id) && CacheIsPlain(design, rank, cache, active)
      ensures Sound(design, old(cache)) ==> Sound(design, cache) && AllTraced(design, id, info)
      decreases Unseen(design, cache.Keys), 1
    {
      if Ready(design, rank, cache, active, id) { Started(design, rank, cache, active, id); }
      var m := design.modules[id];
      if m.own.clocks != map[] {
        OwnIsTraced(design, id);
        return m.own;
      }
      if m.name in cache { return cache[m.name]; }
      info := ExtractInside(id, rank, active);
    }

    /** The part below the cache: an empty sentinel while the instances are worked through, then the result. */
    method ExtractInside(id: nat, ghost rank: nat -> nat, ghost active: set<string>) returns (info: Info)
      requires Linked(design) && id in design.modules && design.modules[id].name !in cache
      requires design.modules[id].own.clocks == map[]
      modifies `cache
      ensures old(cache).Keys <= cache.Keys
      ensures Ready(design, rank, old(cache), active, id) ==>
                info == Plain(design, rank, id) && CacheIsPlain(design, rank, cache, active)
      ensures Sound(design, old(cache)) ==> Sound(design, cache) && AllTraced(design, id, info)
      decreases Unseen(design, cache.Keys), 0
    {
      ghost var ready := Ready(design, rank, cache, active, id);
      ghost var sound := Sound(design, cache);
      if ready { Started(design, rank, cache, active, id); }
      var m := design.modules[id];
      NothingIsTraced(design, id);
      if sound { StoredIsSound(design, cache, id, NOTHING); }
      cache := cache[m.name := NOTHING];
      info := NOTHING;
      for i := 0 to |m.instances|
        invariant old(cache).Keys + {m.name} <= cache.Keys
        invariant ready ==> Underway(design, rank, cache, active, id, i, info)
        invariant sound ==> Sound(design, cache) && AllTraced(design, id, info)
      {
        FewerUnseen(design, old(cache).Keys, cache.Keys, id);
        info := ExtractInstance(id, i, info, rank, active);
      }
      if ready { FinishedIsPlain(design, rank, cache, active, id, info); }
      if sound { StoredIsSound(design, cache, id, info); }
      cache := cache[m.name := info];
    }

    /** One turn of the loop over a module's instances. */
    method ExtractInstance(id: nat, i: nat, found: Info, ghost rank: nat -> nat, ghost active: set<string>)
      returns (info: Info)
      requires Linked(design) && id in design.modules && i < |design.modules[id].instances|
      requires design.modules[id].own.clocks == map[]
      modifies `cache
      ensures old(cache).Keys <= cache.Keys
      ensures Underway(design, rank, old(cache), active, id, i, found) ==>
                Underway(design, rank, cache, active, id, i + 1, info)
      ensures Sound(design, old(cache)) && AllTraced(design, id, found) ==>
                Sound(design, cache) && AllTraced(design, id, info)
      decreases Unseen(design, cache.Keys), 2
    {
      ghost var ready := Underway(design, rank, cache, active, id, i, found);
      ghost var sound := Sound(design, cache) && AllTraced(design, id, found);
      var inst := design.modules[id].instances[i];
      if inst.target.None? {
        if ready { InstanceSkipped(design, rank, cache, active, id, i, found); }
        return found;
      }
      if ready { ReadyInside(design, rank, cache, active, id, i); }
      var sub := Extract(inst.target.value, rank, active + {design.modules[id].name});
      info := PromoteThrough(found, sub, inst.connections);
      if ready { InstanceDone(design, rank, cache, active, id, i, found, sub); }
      if sound { PromotedIsTraced(design, id, i, found, sub); }
    }

    method PromoteThrough(found: Info, sub: Info, cs: seq<Connection>) returns (info: Info)
      requires Linked(design)
      ensures info == Promote(design, found, sub, cs)
    {
      assert SameMembers(design.byName(sub.resets.Keys), sub.resets.Keys);
      if sub.clocks == map[] && sub.resets == map[] {
        NothingPromoted(design, found, sub, cs);
        return found;
      }
      var ports: map<string, string> := map[];
      for i := 0 to |cs|
        invariant ports == PortMap(cs[..i])
      {
        assert cs[..i + 1][..i] == cs[..i];
        if cs[i].signal.Some? && cs[i].port.Some? { ports := ports[cs[i].port.value := cs[i].signal.value]; }
      }
      assert cs[..|cs|] == cs;
      var clocks, todo := found.clocks, sub.clocks.Keys;
      while todo != {}
        invariant todo <= sub.clocks.Keys
        invariant PromotedClocks(clocks, todo, ports) == PromotedClocks(found.clocks, sub.clocks.Keys, ports)
        decreases todo
      {
        var port :| port in todo;
        OneClock(clocks, todo, ports, port);
        if port in ports && ports[port] !in clocks { clocks := clocks[ports[port] := "posedge"]; }
        todo := todo - {port};
      }
      var resets, order := found.resets, design.byName(sub.resets.Keys);
      for i := 0 to |order|
        invariant resets == PromotedResets(found.resets, order[..i], sub.resets, ports)
      {
        var port := order[i];
        assert order[..i + 1][..i] == order[..i];
        if port in ports && ports[port] !in resets {
          resets := resets[ports[port] := PromotedReset(sub.resets[port], ports, ports[port])];
        }
      }
      assert order[..|order|] == order;
      info := Info(clocks, resets);
    }
  }

  lemma NothingPromoted(d: Design, found: Info, sub: Info, cs: seq<Connection>)
    requires Lists(d.byName) && sub.clocks == map[] && sub.resets == map[]
    ensures Promote(d, found, sub, cs) == found
  {
    var order := d.byName(sub.resets.Keys);
    assert SameMembers(order, sub.resets.Keys);
    assert forall i :: 0 <= i < |order| ==> order[i] in order;
    assert PromotedClocks(found.clocks, sub.clocks.Keys, PortMap(cs)) == found.clocks;
  }

  /** Clock ports can be taken in any order. */
  lemma OneClock(clocks: map<string, string>, todo: set<string>, ports: map<string, string>, port: string)
    requires port in todo
    ensures var clocks' := if port in ports && ports[port] !in clocks then clocks[ports[port] := "posedge"] else clocks;
            PromotedClocks(clocks', todo - {port}, ports) == PromotedClocks(clocks, todo, ports)
  {
    var clocks' := if port in ports && ports[port] !in clocks then clocks[ports[port] := "posedge"] else clocks;
    assert clocks'.Keys + Gained(clocks', todo - {port}, ports) == clocks.Keys + Gained(clocks, todo, ports);
  }

  // ---------------------------------------------------------------- what the plain definition finds

  /** A signal is a clock (a reset) of a module if the module's own blocks say so, or, when they show no clock at
      all, if it is connected by plain name to a clock (reset) port of an instantiated module. */
  ghost predicate IsSignal(d: Design, rank: nat -> nat, id: nat, kind: Kind, signal: string)
    requires Linked(d) && Acyclic(d, rank) && id in d.modules
    decreases rank(id), 2
  {
    var m := d.modules[id];
    if m.own.clocks != map[] then signal in Signals(m.own, kind) else IsAmong(d, rank, id, |m.instances|, kind, signal)
  }

  /** Through one of the first n instances. */
  ghost predicate IsAmong(d: Design, rank: nat -> nat, id: nat, n: nat, kind: Kind, signal: string)
    requires Linked(d) && Acyclic(d, rank) && id in d.modules && n <= |d.modules[id].instances|
    decreases rank(id), 1, n
  {
    n > 0 && (IsThrough(d, rank, id, n - 1, kind, signal) || IsAmong(d, rank, id, n - 1, kind, signal))
  }

  ghost predicate IsThrough(d: Design, rank: nat -> nat, id: nat, i: nat, kind: Kind, signal: string)
    requires Linked(d) && Acyclic(d, rank) && id in d.modules && i < |d.modules[id].instances|
    decreases rank(id), 0
  {
    var inst := d.modules[id].instances[i];
    && inst.target.Some?
    && exists port :: Connects(inst.connections, port, signal) && IsSignal(d, rank, inst.target.value, kind, port)
  }

  /** The last connection of a port by plain name is to the signal. */
  predicate Connects(cs: seq<Connection>, port: string, signal: string) {
    exists i :: 0 <= i < |cs| && cs[i] == Connection(Some(signal), Some(port))
             && forall j :: i < j < |cs| ==> !(cs[j].port == Some(port) && cs[j].signal.Some?)
  }

  lemma {:induction false} PortMapConnects(cs: seq<Connection>, port: string, signal: string)
    ensures Connects(cs, port, signal) <==> port in PortMap(cs) && PortMap(cs)[port] == signal
  {
    if cs != [] {
      var c, rest := cs[|cs| - 1], cs[..|cs| - 1];
      PortMapConnects(rest, port, signal);
      if c.port == Some(port) && c.signal.Some? {
        assert c.signal.value == signal ==> cs[|cs| - 1] == Connection(Some(signal), Some(port));
      } else {
        if Connects(rest, port, signal) {
          var i :| 0 <= i < |rest| && rest[i] == Connection(Some(signal), Some(port))
                && forall j :: i < j < |rest| ==> !(rest[j].port == Some(port) && rest[j].signal.Some?);
          assert cs[i] == rest[i];
        }
        if Connects(cs, port, signal) {
          var i :| 0 <= i < |cs| && cs[i] == Connection(Some(signal), Some(port))
                && forall j :: i < j < |cs| ==> !(cs[j].port == Some(port) && cs[j].signal.Some?);
          assert rest[i] == cs[i];
        }
      }
    }
  }

  /** A promoted reset comes from the first reset port in report order that leads to the signal, with its style,
      polarity and edge, and the clock its own clock port leads to. */
  lemma {:induction false} PromotedResetsExactly(resets: map<string, Reset>, order: seq<string>,
                                                 sub: map<string, Reset>, ports: map<string, string>, signal: string)
    requires forall n :: n in order ==> n in sub
    ensures var r := PromotedResets(resets, order, sub, ports);
            && (signal in r <==> signal in resets || exists i :: 0 <= i < |order| && LeadsTo(order[i], ports, signal))
            && (signal in resets ==> signal in r && r[signal] == resets[signal])
            && (signal !in resets && signal in r ==>
                  exists i :: 0 <= i < |order| && LeadsTo(order[i], ports, signal)
                           && (forall j :: 0 <= j < i ==> !LeadsTo(order[j], ports, signal))
                           && Inherits(r[signal], sub[order[i]], ports, signal))
  {
    if order != [] {
      var before := order[..|order| - 1];
      PromotedResetsExactly(resets, before, sub, ports, signal);
      assert forall i :: 0 <= i < |before| ==> before[i] == order[i];
    }
  }

  /** Named after the parent's signal, with the style, polarity and edge of the instantiated module's reset; its clock
      is the parent's signal that reset's clock port leads to, if it has one that does. */
  ghost predicate Inherits(r: Reset, sub: Reset, ports: map<string, string>, signal: string) {
    && r.name == signal && r.style == sub.style && r.activeLow == sub.activeLow && r.edge == sub.edge
    && (forall parent :: r.clock == Some(parent) <==> sub.clock.Some? && LeadsTo(sub.clock.value, ports, parent))
  }

  predicate LeadsTo(port: string, ports: map<string, string>, signal: string) {
    port in ports && ports[port] == signal
  }

  lemma PromotesSignals(d: Design, found: Info, sub: Info, cs: seq<Connection>, kind: Kind, signal: string)
    requires Lists(d.byName)
    ensures signal in Signals(Promote(d, found, sub, cs), kind)
       <==> signal in Signals(found, kind) || exists port :: Connects(cs, port, signal) && port in Signals(sub, kind)
  {
    var ports := PortMap(cs);
    forall port ensures Connects(cs, port, signal) <==> LeadsTo(port, ports, signal) {
      PortMapConnects(cs, port, signal);
    }
    if kind.AClock? {
      ClocksLead(found.clocks, sub.clocks.Keys, ports, signal);
    } else {
      var order := d.byName(sub.resets.Keys);
      assert SameMembers(order, sub.resets.Keys);
      PromotedResetsExactly(found.resets, order, sub.resets, ports, signal);
      assert forall port :: port in sub.resets <==> exists i :: 0 <= i < |order| && order[i] == port;
    }
  }

  lemma ClocksLead(clocks: map<string, string>, sub: set<string>, ports: map<string, string>, signal: string)
    ensures signal in PromotedClocks(clocks, sub, ports)
       <==> signal in clocks || exists port :: LeadsTo(port, ports, signal) && port in sub
  {
    if port :| LeadsTo(port, ports, signal) && port in sub {
      if signal !in clocks { assert ports[port] in Gained(clocks, sub, ports); }
    }
  }

  /** So the plain definition, and with it the memoised extraction, finds exactly those signals. */
  lemma {:induction false} PlainFindsSignals(d: Design, rank: nat -> nat, id: nat, kind: Kind, signal: string)
    requires Linked(d) && Acyclic(d, rank) && id in d.modules
    ensures signal in Signals(Plain(d, rank, id), kind) <==> IsSignal(d, rank, id, kind, signal)
    decreases rank(id), |d.modules[id].instances| + 1
  {
    var m := d.modules[id];
    if m.own.clocks == map[] { PlainFindsSignalsUpTo(d, rank, id, kind, signal, |m.instances|); }
  }

  ghost predicate FoundUpTo(d: Design, rank: nat -> nat, id: nat, n: nat, kind: Kind, signal: string)
    requires Linked(d) && Acyclic(d, rank) && id in d.modules && n <= |d.modules[id].instances|
  {
    signal in Signals(PlainUpTo(d, rank, id, n), kind)
  }

  lemma {:induction false} PlainFindsSignalsUpTo(d: Design, rank: nat -> nat, id: nat, kind: Kind, signal: string,
                                                 n: nat)
    requires Linked(d) && Acyclic(d, rank) && id in d.modules && n <= |d.modules[id].instances|
    ensures FoundUpTo(d, rank, id, n, kind, signal) <==> IsAmong(d, rank, id, n, kind, signal)
    decreases rank(id), n
  {
    if n > 0 {
      PlainFindsSignalsUpTo(d, rank, id, kind, signal, n - 1);
      var inst := d.modules[id].instances[n - 1];
      if inst.target.None? {
        SkippedInstance(d, rank, id, kind, signal, n);
      } else {
        forall port
          ensures port in Signals(Plain(d, rank, inst.target.value), kind)
             <==> IsSignal(d, rank, inst.target.value, kind, port)
        {
          TargetsLieBelow(d, rank, id, n - 1);
          PlainFindsSignals(d, rank, inst.target.value, kind, port);
        }
        InstanceSignals(d, rank, id, kind, signal, n);
      }
    }
  }

  lemma TargetsLieBelow(d: Design, rank: nat -> nat, id: nat, i: nat)
    requires Acyclic(d, rank) && id in d.modules && i < |d.modules[id].instances|
    requires d.modules[id].instances[i].target.Some?
    ensures rank(d.modules[id].instances[i].target.value) < rank(id)
  {
  }

  lemma SkippedInstance(d: Design, rank: nat -> nat, id: nat, kind: Kind, signal: string, n: nat)
    requires Linked(d) && Acyclic(d, rank) && id in d.modules && 0 < n <= |d.modules[id].instances|
    requires d.modules[id].instances[n - 1].target.None?
    ensures FoundUpTo(d, rank, id, n, kind, signal) <==> FoundUpTo(d, rank, id, n - 1, kind, signal)
    ensures IsAmong(d, rank, id, n, kind, signal) <==> IsAmong(d, rank, id, n - 1, kind, signal)
  {
  }

  lemma InstanceSignals(d: Design, rank: nat -> nat, id: nat, kind: Kind, signal: string, n: nat)
    requires Linked(d) && Acyclic(d, rank) && id in d.modules && 0 < n <= |d.modules[id].instances|
    requires d.modules[id].instances[n - 1].target.Some?
    requires var target := d.modules[id].instances[n - 1].target.value;
             forall port :: port in Signals(Plain(d, rank, target), kind) <==> IsSignal(d, rank, target, kind, port)
    ensures FoundUpTo(d, rank, id, n, kind, signal)
       <==> FoundUpTo(d, rank, id, n - 1, kind, signal) || IsThrough(d, rank, id, n - 1, kind, signal)
    ensures IsAmong(d, rank, id, n, kind, signal)
       <==> IsAmong(d, rank, id, n - 1, kind, signal) || IsThrough(d, rank, id, n - 1, kind, signal)
  {
    var inst := d.modules[id].instances[n - 1];
    var before, sub := PlainUpTo(d, rank, id, n - 1), Plain(d, rank, inst.target.value);
    PromotesSignals(d, before, sub, inst.connections, kind, signal);
  }

  /** Without cycles and with unique names the two descriptions are one: there the extraction also misses nothing. */
  lemma {:induction false} SignalsAreTraced(d: Design, rank: nat -> nat, id: nat, kind: Kind, signal: string)
    requires Linked(d) && Acyclic(d, rank) && UniqueNames(d) && id in d.modules
    ensures IsSignal(d, rank, id, kind, signal) <==> Traced(d, id, kind, signal)
    decreases rank(id)
  {
    if d.modules[id].own.clocks != map[] {
      assert Leads(d, id, kind, signal, 0) <==> signal in Signals(d.modules[id].own, kind);
    } else {
      var n := |d.modules[id].instances|;
      AmongExactly(d, rank, id, n, kind, signal);
      forall i, port | 0 <= i < n && d.modules[id].instances[i].target.Some?
        ensures IsSignal(d, rank, Target(d, id, i), kind, port) <==> Traced(d, Target(d, id, i), kind, port)
      {
        TargetsLieBelow(d, rank, id, i);
        SignalsAreTraced(d, rank, Target(d, id, i), kind, port);
      }
      if IsAmong(d, rank, id, n, kind, signal) {
        var i :| 0 <= i < n && IsThrough(d, rank, id, i, kind, signal);
        var port :| Connects(d.modules[id].instances[i].connections, port, signal)
                 && IsSignal(d, rank, Target(d, id, i), kind, port);
        OneStepMore(d, id, i, kind, port, signal);
      }
      if Traced(d, id, kind, signal) {
        var k: nat :| Leads(d, id, kind, signal, k);
        var a, i, port :| Passes(d, id, a, i, port, signal) && Leads(d, Target(d, a, i), kind, port, k - 1);
        assert a == id && Traced(d, Target(d, id, i), kind, port);
        assert IsThrough(d, rank, id, i, kind, signal);
      }
    }
  }

  lemma {:induction false} AmongExactly(d: Design, rank: nat -> nat, id: nat, n: nat, kind: Kind, signal: string)
    requires Linked(d) && Acyclic(d, rank) && id in d.modules && n <= |d.modules[id].instances|
    ensures IsAmong(d, rank, id, n, kind, signal) <==> exists i :: 0 <= i < n && IsThrough(d, rank, id, i, kind, signal)
    decreases n
  {
    if n > 0 {
      AmongExactly(d, rank, id, n - 1, kind, signal);
      assert IsAmong(d, rank, id, n, kind, signal)
        == (IsThrough(d, rank, id, n - 1, kind, signal) || IsAmong(d, rank, id, n - 1, kind, signal));
      if i :| 0 <= i < n && IsThrough(d, rank, id, i, kind, signal) { assert i == n - 1 || i < n - 1; }
    }
  }
}
