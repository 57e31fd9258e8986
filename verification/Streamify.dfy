/** The composition: slice, enable-gated pipeline, slice. The one clock enable is the output slice's own
    registered ready, and doubles as the ready the input slice sees. */
module Streamify {
  import opened Options
  import opened RegisterSlice
  import opened StagePipeline

  /** The beats held in the two slices and in the stage registers. */
  datatype Stream<T> = Stream(inQ: seq<T>, stages: seq<Option<T>>, outQ: seq<T>)

  /** What the surroundings do in one cycle: reset, the beat offered at s_axis, ready at m_axis. */
  datatype Cycle<T> = Cycle(rst: bool, offer: Option<T>, take: bool)

  ghost predicate Reachable<T>(fs: seq<T -> T>, s: Stream<T>) {
    |s.inQ| <= 2 && |s.outQ| <= 2 && |s.stages| == |fs|
  }

  function Empty<T>(fs: seq<T -> T>): Stream<T> {
    Stream([], Bubbles(|fs|), [])
  }

  function Next<T>(fs: seq<T -> T>, s: Stream<T>, c: Cycle<T>): Stream<T>
    requires c.rst || |s.stages| == |fs|
  {
    if c.rst then Empty(fs) else
    var ce := |s.outQ| < 2;
    var entering := Head(s.inQ);
    Stream(QueueStep(s.inQ, c.offer, ce),
           if ce then Shift(fs, s.stages, entering) else s.stages,
           QueueStep(s.outQ, LastBeat(s.stages, entering), c.take))
  }

  class Top<T> {
    const inSlice: Slice<T>
    const pipe: Pipeline<T>
    const outSlice: Slice<T>

    constructor (inSlice: Slice<T>, pipe: Pipeline<T>, outSlice: Slice<T>)
      requires inSlice != outSlice && pipe.Valid()
      ensures this.inSlice == inSlice && this.pipe == pipe && this.outSlice == outSlice
      ensures Wired()
    {
      this.inSlice, this.pipe, this.outSlice := inSlice, pipe, outSlice;
    }

    ghost predicate Wired()
      reads this, pipe
    {
      inSlice != outSlice && pipe.Valid()
    }

    ghost predicate Valid()
      reads this, inSlice, pipe, outSlice
    {
      Wired() && inSlice.Valid() && outSlice.Valid()
    }

    ghost function View(): (s: Stream<T>)
      requires Wired()
      reads this, inSlice, pipe, outSlice
      ensures Valid() ==> Reachable(pipe.stages, s)
    {
      Stream(inSlice.Contents(), pipe.Contents(), outSlice.Contents())
    }

    /** One clock edge of the whole composition; the wires between the parts carry pre-edge values. */
    method Tick(rst: bool, sTvalid: bool, sPayload: T, mTready: bool)
      requires Wired() && (rst || Valid())
      modifies inSlice, pipe, outSlice
      ensures Valid()
      ensures View() == Next(pipe.stages, old(View()), Cycle(rst, Beat(sTvalid, sPayload), mTready))
      ensures rst ==> !outSlice.mTvalid && inSlice.sTready && forall i :: 0 <= i < |pipe.valid| ==> !pipe.valid[i]
    {
      var ce := outSlice.sTready;
      var din, validIn := inSlice.mPayload, inSlice.mTvalid;
      var n := |pipe.stages|;
      var dout, validOut := din, validIn;
      if n > 0 {
        dout, validOut := pipe.data[n - 1], pipe.valid[n - 1];
      }
      assert Beat(validOut, dout) == LastBeat(pipe.Contents(), Beat(validIn, din));
      assert inSlice.Valid() ==> Beat(validIn, din) == Head(inSlice.Contents());
      assert outSlice.Valid() ==> ce == (|outSlice.Contents()| < 2);
      ghost var next := Next(pipe.stages, View(), Cycle(rst, Beat(sTvalid, sPayload), mTready));
      inSlice.Tick(rst, sTvalid, sPayload, ce);
      pipe.Tick(rst, ce, din, validIn);
      outSlice.Tick(rst, validOut, dout, mTready);
      assert View() == next;
      if rst { NothingValid(pipe.data, pipe.valid); }
    }
  }

  lemma NothingValid<T>(data: seq<T>, valid: seq<bool>)
    requires |data| == |valid| && Beats(data, valid) == Bubbles(|data|)
    ensures forall i :: 0 <= i < |valid| ==> !valid[i]
  {
    forall i | 0 <= i < |valid| ensures !valid[i] {
      assert Beats(data, valid)[i] == None;
    }
  }

  /** A reset cycle empties both slices and every stage, whatever was held. */
  lemma ResetEmpties<T>(fs: seq<T -> T>, s: Stream<T>, c: Cycle<T>)
    requires c.rst
    ensures var s' := Next(fs, s, c);
            && |s'.inQ| == |s'.outQ| == 0 && |s'.stages| == |fs|
            && forall i :: 0 <= i < |fs| ==> s'.stages[i].None?
  {
  }

  // ---------------------------------------------------------------- meaning

  /** fn(...f1(x)): the stages in order. */
  function ApplyAll<T>(fs: seq<T -> T>, x: T): T {
    if fs == [] then x else ApplyAll(fs[1..], fs[0](x))
  }

  function MapAll<T>(fs: seq<T -> T>, xs: seq<T>): (r: seq<T>)
    ensures |r| == |xs|
  {
    seq(|xs|, i requires 0 <= i < |xs| => ApplyAll(fs, xs[i]))
  }

  function Finished<T>(fs: seq<T -> T>, b: Option<T>): seq<T> {
    if b.Some? then [ApplyAll(fs, b.value)] else []
  }

  /** The valid beats in the stage registers, oldest first, each as it will leave the last stage. */
  function Pending<T>(fs: seq<T -> T>, beats: seq<Option<T>>): (r: seq<T>)
    requires |fs| == |beats|
    ensures |r| <= |beats|
  {
    if beats == [] then [] else Pending(fs[1..], beats[1..]) + Finished(fs[1..], beats[0])
  }

  /** Everything accepted but not yet emitted, as it will be emitted. */
  function InFlight<T>(fs: seq<T -> T>, s: Stream<T>): seq<T>
    requires |s.stages| == |fs|
  {
    s.outQ + Pending(fs, s.stages) + MapAll(fs, s.inQ)
  }

  /** A run's record: the beats taken in at s_axis and given out at m_axis since the last reset. */
  datatype Record<T> = Record(now: Stream<T>, accepted: seq<T>, emitted: seq<T>)

  function Observe<T>(fs: seq<T -> T>, r: Record<T>, c: Cycle<T>): Record<T>
    requires c.rst || |r.now.stages| == |fs|
  {
    if c.rst then Record(Next(fs, r.now, c), [], []) else
    Record(Next(fs, r.now, c),
           r.accepted + Taken(r.now, c),
           r.emitted + Given(r.now, c))
  }

  /** A run that starts after a reset cycle, which leads to one state from any. */
  function Run<T>(fs: seq<T -> T>, cycles: seq<Cycle<T>>): (r: Record<T>)
    ensures Reachable(fs, r.now)
  {
    if cycles == [] then Record(Empty(fs), [], [])
    else Observe(fs, Run(fs, cycles[..|cycles| - 1]), cycles[|cycles| - 1])
  }

  lemma {:induction false} ShiftConserves<T>(fs: seq<T -> T>, beats: seq<Option<T>>, input: Option<T>)
    requires |fs| == |beats|
    ensures Finished([], LastBeat(beats, input)) + Pending(fs, Shift(fs, beats, input))
         == Pending(fs, beats) + Finished(fs, input)
  {
    if beats != [] {
      var entered := MapBeat(fs[0], input);
      var rest := Shift(fs[1..], beats[1..], beats[0]);
      ShiftConserves(fs[1..], beats[1..], beats[0]);
      assert Shift(fs, beats, input) == [entered] + rest;
      assert ([entered] + rest)[1..] == rest;
      assert Finished(fs[1..], entered) == Finished(fs, input);
      calc {
        Finished([], LastBeat(beats, input)) + Pending(fs, Shift(fs, beats, input));
        Finished([], LastBeat(beats, input)) + (Pending(fs[1..], rest) + Finished(fs, input));
        (Finished([], LastBeat(beats[1..], beats[0])) + Pending(fs[1..], rest)) + Finished(fs, input);
        (Pending(fs[1..], beats[1..]) + Finished(fs[1..], beats[0])) + Finished(fs, input);
        Pending(fs, beats) + Finished(fs, input);
      }
    }
  }

  lemma BubblesPendNothing<T>(fs: seq<T -> T>)
    ensures Pending(fs, Bubbles(|fs|)) == []
    decreases |fs|
  {
    if fs != [] {
      assert Bubbles<T>(|fs|)[1..] == Bubbles(|fs[1..]|);
      BubblesPendNothing(fs[1..]);
    }
  }

  function Taken<T>(s: Stream<T>, c: Cycle<T>): seq<T> {
    if |s.inQ| < 2 && c.offer.Some? then [c.offer.value] else []
  }

  function Given<T>(s: Stream<T>, c: Cycle<T>): seq<T> {
    if c.take && s.outQ != [] then [s.outQ[0]] else []
  }

  lemma MapAppends<T>(fs: seq<T -> T>, xs: seq<T>, ys: seq<T>)
    ensures MapAll(fs, xs + ys) == MapAll(fs, xs) + MapAll(fs, ys)
  {
  }

  lemma CycleMovesBeats<T>(fs: seq<T -> T>, s: Stream<T>, c: Cycle<T>)
    requires Reachable(fs, s) && !c.rst
    ensures Given(s, c) + InFlight(fs, Next(fs, s, c)) == InFlight(fs, s) + MapAll(fs, Taken(s, c))
  {
    var s', entering := Next(fs, s, c), Head(s.inQ);
    var ce := |s.outQ| < 2;
    var leaving := if ce then Finished([], LastBeat(s.stages, entering)) else [];
    var moved := if ce then Finished(fs, entering) else [];
    assert Given(s, c) + s'.outQ == s.outQ + leaving;
    assert leaving + Pending(fs, s'.stages) == Pending(fs, s.stages) + moved by {
      if ce { ShiftConserves(fs, s.stages, entering); }
    }
    assert moved + MapAll(fs, s'.inQ) == MapAll(fs, s.inQ) + MapAll(fs, Taken(s, c)) by {
      var kept := if ce && s.inQ != [] then s.inQ[1..] else s.inQ;
      assert s'.inQ == kept + Taken(s, c);
      MapAppends(fs, kept, Taken(s, c));
      assert moved + MapAll(fs, kept) == MapAll(fs, s.inQ);
      assert moved + (MapAll(fs, kept) + MapAll(fs, Taken(s, c)))
          == (moved + MapAll(fs, kept)) + MapAll(fs, Taken(s, c));
    }
    Regroup(Given(s, c), s'.outQ, Pending(fs, s'.stages), MapAll(fs, s'.inQ), leaving, moved,
            s.outQ, Pending(fs, s.stages), MapAll(fs, s.inQ), MapAll(fs, Taken(s, c)));
  }

  lemma Regroup<T>(g: seq<T>, o': seq<T>, p': seq<T>, i': seq<T>, l: seq<T>, m: seq<T>,
                   o: seq<T>, p: seq<T>, i: seq<T>, t: seq<T>)
    requires g + o' == o + l && l + p' == p + m && m + i' == i + t
    ensures g + (o' + p' + i') == (o + p + i) + t
  {
    assert g + (o' + p' + i') == (g + o') + p' + i';
    assert (o + l) + p' + i' == o + (l + p') + i';
    assert o + (p + m) + i' == o + p + (m + i');
  }

  /** One cycle neither loses, duplicates nor reorders a beat. */
  lemma CycleConserves<T>(fs: seq<T -> T>, r: Record<T>, c: Cycle<T>)
    requires Reachable(fs, r.now)
    requires MapAll(fs, r.accepted) == r.emitted + InFlight(fs, r.now)
    ensures var r' := Observe(fs, r, c);
            MapAll(fs, r'.accepted) == r'.emitted + InFlight(fs, r'.now)
  {
    if c.rst {
      AfterReset(fs, r.now, c);
    } else {
      CycleMovesBeats(fs, r.now, c);
      MapAppends(fs, r.accepted, Taken(r.now, c));
      Reassociate(r.emitted, InFlight(fs, r.now), MapAll(fs, Taken(r.now, c)),
                  Given(r.now, c), InFlight(fs, Next(fs, r.now, c)));
    }
  }

  /** Over a reset nothing stays in flight. */
  lemma AfterReset<T>(fs: seq<T -> T>, s: Stream<T>, c: Cycle<T>)
    requires c.rst
    ensures InFlight(fs, Next(fs, s, c)) == [] && Next(fs, s, c) == Empty(fs)
  {
    ResetEmpties(fs, s, c);
    var s' := Next(fs, s, c);
    assert s'.stages == Bubbles(|fs|);
    BubblesPendNothing(fs);
  }

  lemma Reassociate<T>(e: seq<T>, f: seq<T>, t: seq<T>, g: seq<T>, f': seq<T>)
    requires g + f' == f + t
    ensures (e + f) + t == (e + g) + f'
  {
    assert (e + f) + t == e + (f + t);
    assert (e + g) + f' == e + (g + f');
  }

  /** Over every run: the beats taken at m_axis are a prefix, in order, of the stage functions mapped over
      the beats accepted at s_axis; what is missing is exactly what is in flight, at most n + 4 beats. */
  lemma {:induction false} EmittedIsMappedPrefix<T>(fs: seq<T -> T>, cycles: seq<Cycle<T>>)
    ensures var r := Run(fs, cycles);
            && MapAll(fs, r.accepted) == r.emitted + InFlight(fs, r.now)
            && r.emitted <= MapAll(fs, r.accepted)
            && |r.accepted| - |r.emitted| == |InFlight(fs, r.now)| <= |fs| + 4
    decreases |cycles|
  {
    if cycles == [] {
      BubblesPendNothing(fs);
    } else {
      var before := cycles[..|cycles| - 1];
      EmittedIsMappedPrefix(fs, before);
      CycleConserves(fs, Run(fs, before), cycles[|cycles| - 1]);
    }
  }

  /** m_axis of the composition obeys the handshake rule: a presented beat stays until taken. */
  lemma OutputIsStable<T>(fs: seq<T -> T>, s: Stream<T>, c: Cycle<T>)
    requires Reachable(fs, s) && s.outQ != [] && !c.rst && !c.take
    ensures Head(Next(fs, s, c).outQ) == Head(s.outQ)
  {
  }

  // ---------------------------------------------------------------- full rate

  predicate NeverStalled<T>(cycles: seq<Cycle<T>>) {
    forall i :: 0 <= i < |cycles| ==> !cycles[i].rst && cycles[i].offer.Some? && cycles[i].take
  }

  /** The beats offered in cycles that all offer one. */
  function Offered<T>(cycles: seq<Cycle<T>>): seq<T>
    requires NeverStalled(cycles)
  {
    seq(|cycles|, i requires 0 <= i < |cycles| => cycles[i].offer.value)
  }

  /** k cycles of streaming into an empty composition: one beat in each part the first beat has come through. */
  ghost predicate Filled<T>(fs: seq<T -> T>, s: Stream<T>, k: nat) {
    && |s.inQ| == (if k == 0 then 0 else 1)
    && |s.stages| == |fs| && (forall i :: 0 <= i < |fs| ==> (s.stages[i].Some? <==> i + 1 < k))
    && |s.outQ| == (if k < |fs| + 2 then 0 else 1)
  }

  lemma StreamingCycleFills<T>(fs: seq<T -> T>, s: Stream<T>, k: nat, c: Cycle<T>)
    requires Filled(fs, s, k) && !c.rst && c.offer.Some? && c.take
    ensures Filled(fs, Next(fs, s, c), k + 1)
  {
    var s' := Next(fs, s, c);
    forall i | 0 <= i < |fs|
      ensures s'.stages[i].Some? <==> i + 1 < k + 1
    {
      ShiftAt(fs, s.stages, Head(s.inQ), i);
    }
  }

  lemma StreamingStep<T>(fs: seq<T -> T>, r: Record<T>, k: nat, c: Cycle<T>)
    requires Filled(fs, r.now, k) && !c.rst && c.offer.Some? && c.take
    ensures var r' := Observe(fs, r, c);
            && Filled(fs, r'.now, k + 1)
            && r'.accepted == r.accepted + [c.offer.value]
            && |r'.emitted| == |r.emitted| + if k < |fs| + 2 then 0 else 1
  {
    StreamingCycleFills(fs, r.now, k, c);
  }

  lemma OfferedGrows<T>(cycles: seq<Cycle<T>>)
    requires NeverStalled(cycles) && cycles != []
    ensures NeverStalled(cycles[..|cycles| - 1])
    ensures Offered(cycles) == Offered(cycles[..|cycles| - 1]) + [cycles[|cycles| - 1].offer.value]
  {
  }

  lemma {:induction false} StreamingCounts<T>(fs: seq<T -> T>, cycles: seq<Cycle<T>>)
    requires NeverStalled(cycles)
    ensures var r := Run(fs, cycles);
            && Filled(fs, r.now, |cycles|)
            && r.accepted == Offered(cycles)
            && |r.emitted| == if |cycles| < |fs| + 2 then 0 else |cycles| - (|fs| + 2)
    decreases |cycles|
  {
    if cycles != [] {
      var before, last := cycles[..|cycles| - 1], cycles[|cycles| - 1];
      StreamingCounts(fs, before);
      StreamingStep(fs, Run(fs, before), |before|, last);
      OfferedGrows(cycles);
    }
  }

  /** Nothing is given up for the handshakes: streaming from reset, every cycle accepts the beat offered, and
      from the n + 2 cycles of latency on every cycle emits one, in order, with all stages applied. */
  lemma StreamsAtFullRate<T>(fs: seq<T -> T>, cycles: seq<Cycle<T>>)
    requires NeverStalled(cycles)
    ensures var r := Run(fs, cycles);
            var n := if |cycles| < |fs| + 2 then 0 else |cycles| - (|fs| + 2);
            r.accepted == Offered(cycles) && r.emitted == MapAll(fs, Offered(cycles))[..n]
  {
    StreamingCounts(fs, cycles);
    EmittedIsMappedPrefix(fs, cycles);
  }

  // ---------------------------------------------------------------- nothing gets stuck

  function Idle<T>(): Cycle<T> { Cycle(false, None, true) }

  function Idles<T>(k: nat): (r: seq<Cycle<T>>)
    ensures |r| == k
  {
    seq(k, _ => Idle())
  }

  /** k cycles after the output slice unblocked: the input slice has lost k beats, a stage that lies further back
      than that has become a bubble, and once all have the output slice is empty. */
  ghost predicate Drained<T>(s: Stream<T>, k: nat) {
    && |s.outQ| < 2
    && (|s.inQ| + k <= 2 || s.inQ == [])
    && (forall i :: 0 <= i < |s.stages| && i + 2 < k ==> s.stages[i].None?)
    && (k >= |s.stages| + 3 ==> s.outQ == [])
  }

  lemma FirstIdleUnblocks<T>(fs: seq<T -> T>, s: Stream<T>)
    requires Reachable(fs, s)
    ensures Drained(Next(fs, s, Idle()), 0)
  {
  }

  lemma IdleCycleDrains<T>(fs: seq<T -> T>, s: Stream<T>, k: nat)
    requires Reachable(fs, s) && Drained(s, k)
    ensures Drained(Next(fs, s, Idle()), k + 1)
  {
    var s' := Next(fs, s, Idle());
    forall i | 0 <= i < |s'.stages| && i + 2 < k + 1
      ensures s'.stages[i].None?
    {
      ShiftAt(fs, s.stages, Head(s.inQ), i);
    }
  }

  lemma RunOn<T>(fs: seq<T -> T>, cycles: seq<Cycle<T>>, c: Cycle<T>)
    ensures Run(fs, cycles + [c]) == Observe(fs, Run(fs, cycles), c)
  {
    assert (cycles + [c])[..|cycles|] == cycles;
  }

  lemma FirstIdle<T>(fs: seq<T -> T>, cycles: seq<Cycle<T>>) returns (after: Record<T>)
    ensures after == Run(fs, cycles + [Idle()]) && Drained(after.now, 0)
  {
    after := Run(fs, cycles + [Idle()]);
    RunOn(fs, cycles, Idle());
    FirstIdleUnblocks(fs, Run(fs, cycles).now);
  }

  lemma AnotherIdle<T>(fs: seq<T -> T>, cycles: seq<Cycle<T>>, before: Record<T>, done: nat) returns (after: Record<T>)
    requires before == Run(fs, cycles) && Drained(before.now, done)
    ensures after == Run(fs, cycles + [Idle()]) && Drained(after.now, done + 1)
  {
    after := Run(fs, cycles + [Idle()]);
    RunOn(fs, cycles, Idle());
    IdleCycleDrains(fs, before.now, done);
  }

  lemma MoreIdles<T>(cycles: seq<Cycle<T>>, k: nat)
    ensures cycles + Idles(k + 1) == (cycles + Idles(k)) + [Idle()]
    ensures cycles + Idles(0) == cycles
  {
    assert Idles<T>(k + 1) == Idles(k) + [Idle()];
  }

  lemma {:induction false} DrainProgress<T>(fs: seq<T -> T>, cycles: seq<Cycle<T>>, k: nat) returns (r: Record<T>)
    ensures r == Run(fs, cycles + Idles(k + 1)) && Drained(r.now, k)
    decreases k
  {
    MoreIdles(cycles, k);
    if k == 0 {
      r := FirstIdle(fs, cycles);
    } else {
      var before := DrainProgress(fs, cycles, k - 1);
      r := AnotherIdle(fs, cycles + Idles(k), before, k - 1);
    }
  }

  lemma IdleAcceptsNothing<T>(fs: seq<T -> T>, cycles: seq<Cycle<T>>)
    ensures Run(fs, cycles + [Idle()]).accepted == Run(fs, cycles).accepted
  {
    RunOn(fs, cycles, Idle());
    assert Taken(Run(fs, cycles).now, Idle()) == [];
  }

  lemma {:induction false} IdlesAcceptNothing<T>(fs: seq<T -> T>, cycles: seq<Cycle<T>>, k: nat)
    ensures Run(fs, cycles + Idles(k)).accepted == Run(fs, cycles).accepted
  {
    if k == 0 {
      MoreIdles(cycles, 0);
    } else {
      IdlesAcceptNothing(fs, cycles, k - 1);
      MoreIdles(cycles, k - 1);
      IdleAcceptsNothing(fs, cycles + Idles(k - 1));
    }
  }

  lemma DrainedIsEmpty<T>(fs: seq<T -> T>, s: Stream<T>)
    requires Reachable(fs, s) && Drained(s, |fs| + 3)
    ensures s == Empty(fs) && InFlight(fs, s) == []
  {
    assert s.stages == Bubbles(|fs|);
    BubblesPendNothing(fs);
  }

  /** No deadlock and nothing held back: when, after any run, the producer stops and the consumer stays ready, n + 4
      cycles later every accepted beat has been emitted. */
  lemma DrainsCompletely<T>(fs: seq<T -> T>, cycles: seq<Cycle<T>>)
    ensures var r := Run(fs, cycles + Idles(|fs| + 4));
            && r.now == Empty(fs)
            && r.accepted == Run(fs, cycles).accepted
            && r.emitted == MapAll(fs, r.accepted)
  {
    var r := DrainProgress(fs, cycles, |fs| + 3);
    IdlesAcceptNothing(fs, cycles, |fs| + 4);
    DrainedIsEmpty(fs, r.now);
    EmittedIsMappedPrefix(fs, cycles + Idles(|fs| + 4));
  }
}
