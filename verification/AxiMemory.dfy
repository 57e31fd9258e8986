/** The single-beat AXI slaves: the AXI-Lite register file (4 words, cleared by reset, identifiers unused) and the
    AXI4 memory (8 words, kept over reset). One clocked object, specified as an atomic byte-strobed memory. */
module AxiMemory {
  import opened Congruences
  import opened Options

  type Byte = x: nat | x < 256
  datatype Word = Word(b0: Byte, b1: Byte, b2: Byte, b3: Byte)
  datatype Strobe = Strobe(s0: bool, s1: bool, s2: bool, s3: bool)

  datatype AddressBeat = AddressBeat(id: nat, addr: nat)
  datatype DataBeat = DataBeat(data: Word, strobe: Strobe)
  datatype ReadBeat = ReadBeat(id: nat, data: Word)

  const ZERO := Word(0, 0, 0, 0)
  const NO_STROBE := Strobe(false, false, false, false)

  type Memory = seq<Word>

  /** Address bits above the byte offset, as many as the memory needs. */
  function Index(addr: nat, words: nat): nat
    requires words > 0
    ensures Index(addr, words) < words
  {
    addr / 4 % words
  }

  /** The strobed bytes of a word replaced. */
  function Merge(word: Word, beat: DataBeat): Word {
    Word(if beat.strobe.s0 then beat.data.b0 else word.b0, if beat.strobe.s1 then beat.data.b1 else word.b1,
         if beat.strobe.s2 then beat.data.b2 else word.b2, if beat.strobe.s3 then beat.data.b3 else word.b3)
  }

  /** One atomic write: the strobed bytes of one word. */
  function Store(mem: Memory, a: AddressBeat, beat: DataBeat): (r: Memory)
    requires mem != []
    ensures |r| == |mem|
  {
    var i := Index(a.addr, |mem|);
    mem[i := Merge(mem[i], beat)]
  }

  function Load(mem: Memory, a: AddressBeat): ReadBeat
    requires mem != []
  {
    ReadBeat(a.id, mem[Index(a.addr, |mem|)])
  }

  /** What the channels hold between handshakes: the memory, an address and a data beat waiting for each other,
      the identifier of a write waiting for its response to be taken, a read waiting to be taken. */
  datatype Pending = Pending(mem: Memory, aw: Option<AddressBeat>, w: Option<DataBeat>, b: Option<nat>,
                             r: Option<ReadBeat>)

  /** The inputs at one activation of the clocked block: what the master offers on each channel, and which responses it
      is ready to take. The block runs at each rising clock edge and whenever reset falls, so a cycle with rst is a
      clock edge under reset or the asynchronous fall of reset between two edges. */
  datatype Cycle = Cycle(rst: bool, aw: Option<AddressBeat>, w: Option<DataBeat>, bready: bool,
                         ar: Option<AddressBeat>, rready: bool)

  /** The input ports read as beats: a channel offers one when its valid is up. */
  function Inputs(rstN: bool, awvalid: bool, awid: nat, awaddr: nat, wvalid: bool, wdata: Word, wstrb: Strobe,
                  bready: bool, arvalid: bool, arid: nat, araddr: nat, rready: bool): Cycle {
    Cycle(!rstN,
          if awvalid then Some(AddressBeat(awid, awaddr)) else None,
          if wvalid then Some(DataBeat(wdata, wstrb)) else None,
          bready,
          if arvalid then Some(AddressBeat(arid, araddr)) else None,
          rready)
  }

  predicate TakesAw(p: Pending, c: Cycle) { c.aw.Some? && p.aw.None? && p.b.None? }
  predicate TakesW(p: Pending, c: Cycle) { c.w.Some? && p.w.None? && p.b.None? }
  predicate TakesAr(p: Pending, c: Cycle) { c.ar.Some? && p.r.None? }
  predicate Commits(p: Pending) { p.aw.Some? && p.w.Some? && p.b.None? }

  function Cleared(words: nat): Memory { seq(words, _ => ZERO) }

  function Next(p: Pending, c: Cycle, clearOnReset: bool): (r: Pending)
    requires p.mem != []
    ensures |r.mem| == |p.mem|
  {
    if c.rst then Pending(if clearOnReset then Cleared(|p.mem|) else p.mem, None, None, None, None) else
    Pending(if Commits(p) then Store(p.mem, p.aw.value, p.w.value) else p.mem,
            if Commits(p) then None else if TakesAw(p, c) then c.aw else p.aw,
            if Commits(p) then None else if TakesW(p, c) then c.w else p.w,
            if Commits(p) then Some(p.aw.value.id) else if c.bready then None else p.b,
            if TakesAr(p, c) then Some(Load(p.mem, c.ar.value)) else if c.rready then None else p.r)
  }

  class MemorySlave {
    const clearOnReset: bool
    var mem: Memory
    var awPending: bool
    var wPending: bool
    var bPending: bool
    var rPending: bool
    var awAddr: nat
    var awId: nat
    var wData: Word
    var wStrb: Strobe
    var arAddr: nat
    var arId: nat
    var rData: Word

    /** Before the first reset every register holds anything; here the flags are down. */
    constructor (mem: Memory, clearOnReset: bool)
      requires mem != []
      ensures Valid() && Held() == Pending(mem, None, None, None, None)
      ensures this.clearOnReset == clearOnReset
    {
      this.mem, this.clearOnReset := mem, clearOnReset;
      awPending, wPending, bPending, rPending := false, false, false, false;
      awAddr, awId, arAddr, arId := 0, 0, 0, 0;
      wData, wStrb, rData := ZERO, NO_STROBE, ZERO;
    }

    /** Neither write channel is taken while a response waits, so its identifier is still in place. */
    ghost predicate Valid()
      reads this
    {
      mem != [] && (bPending ==> !awPending && !wPending)
    }

    ghost function Held(): Pending
      reads this
    {
      Pending(mem,
              if awPending then Some(AddressBeat(awId, awAddr)) else None,
              if wPending then Some(DataBeat(wData, wStrb)) else None,
              if bPending then Some(awId) else None,
              if rPending then Some(ReadBeat(arId, rData)) else None)
    }

    /** One activation of the block, by the clock or by the fall of reset. */
    method Tick(rstN: bool, awvalid: bool, awid: nat, awaddr: nat, wvalid: bool, wdata: Word, wstrb: Strobe,
                bready: bool, arvalid: bool, arid: nat, araddr: nat, rready: bool)
      requires Valid()
      modifies this
      ensures Valid()
      ensures Held() == Next(old(Held()),
                             Inputs(rstN, awvalid, awid, awaddr, wvalid, wdata, wstrb, bready,
                                    arvalid, arid, araddr, rready),
                             clearOnReset)
    {
      // Both halves belong to one edge: the read half sees the memory as it was before it.
      TickReads(rstN, arvalid, arid, araddr, rready);
      TickWrites(rstN, awvalid, awid, awaddr, wvalid, wdata, wstrb, bready);
    }

    method TickReads(rstN: bool, arvalid: bool, arid: nat, araddr: nat, rready: bool)
      requires mem != []
      modifies `rPending, `arAddr, `arId, `rData
      ensures rPending == (rstN && (if old(rPending) then !rready else arvalid))
      ensures rPending && old(rPending) ==> arId == old(arId) && rData == old(rData)
      ensures rPending && !old(rPending) ==> ReadBeat(arId, rData) == Load(mem, AddressBeat(arid, araddr))
    {
      var arready := !rPending;
      var next := rPending;
      if !rstN {
        next, arAddr, arId, rData := false, 0, 0, ZERO;
      } else {
        if arvalid && arready {
          arAddr, arId := araddr, arid;
          rData := mem[Index(araddr, |mem|)];
          next := true;
        }
        if rPending && rready { next := false; }
      }
      rPending := next;
    }

    method TickWrites(rstN: bool, awvalid: bool, awid: nat, awaddr: nat, wvalid: bool, wdata: Word, wstrb: Strobe,
                      bready: bool)
      requires Valid()
      modifies `mem, `awPending, `wPending, `bPending, `awAddr, `awId, `wData, `wStrb
      ensures Valid() && |mem| == old(|mem|)
      ensures !rstN ==> !awPending && !wPending && !bPending && mem == if clearOnReset then Cleared(|mem|) else old(mem)
      ensures rstN && old(awPending && wPending) ==>
                && !awPending && !wPending && bPending && awId == old(awId)
                && mem == Store(old(mem), AddressBeat(awId, old(awAddr)), DataBeat(old(wData), old(wStrb)))
      ensures rstN && !old(awPending && wPending) ==>
                && mem == old(mem)
                && bPending == (old(bPending) && !bready)
                && awPending == (old(awPending) || (awvalid && !old(bPending)))
                && wPending == (old(wPending) || (wvalid && !old(bPending)))
      ensures old(bPending) || (old(awPending) && awPending) ==> !rstN || (awId == old(awId) && awAddr == old(awAddr))
      ensures awPending && !old(awPending) ==> awId == awid && awAddr == awaddr
      ensures wPending ==> wData == (if old(wPending) then old(wData) else wdata)
      ensures wPending ==> wStrb == (if old(wPending) then old(wStrb) else wstrb)
    {
      var awready := !awPending && !bPending;
      var wready := !wPending && !bPending;
      var mem1, aw1, w1, b1 := mem, awPending, wPending, bPending;
      var awAddr1, awId1, wData1, wStrb1 := awAddr, awId, wData, wStrb;
      if !rstN {
        if clearOnReset { mem1 := Cleared(|mem|); }
        aw1, w1, b1 := false, false, false;
        awAddr1, awId1, wData1, wStrb1 := 0, 0, ZERO, NO_STROBE;
      } else {
        if awvalid && awready {
          awAddr1, awId1, aw1 := awaddr, awid, true;
        }
        if wvalid && wready {
          wData1, wStrb1, w1 := wdata, wstrb, true;
        }
        if awPending && wPending && !bPending {
          var i := Index(awAddr, |mem|);
          mem1 := mem[i := Merge(mem[i], DataBeat(wData, wStrb))];
          aw1, w1, b1 := false, false, true;
        }
        if bPending && bready { b1 := false; }
      }
      mem, awPending, wPending, bPending := mem1, aw1, w1, b1;
      awAddr, awId, wData, wStrb := awAddr1, awId1, wData1, wStrb1;
    }
  }

  // ---------------------------------------------------------------- runs

  /** An accepted read: its address beat, how many writes were committed and how many write responses had been
      taken at that edge. */
  datatype Read = Read(ar: AddressBeat, committed: int, answered: nat)

  /** Everything that crossed the interface since the last reset, which left the memory at base. */
  datatype Record = Record(now: Pending, base: Memory, aws: seq<AddressBeat>, ws: seq<DataBeat>, bids: seq<nat>,
                           accepted: seq<Read>, taken: seq<ReadBeat>)

  function Count(present: bool): nat { if present then 1 else 0 }

  /** Writes committed so far: the address beats taken that no longer wait. */
  function Committed(r: Record): int { |r.aws| - Count(r.now.aw.Some?) }

  function Observe(r: Record, c: Cycle, clearOnReset: bool): Record
    requires r.now.mem != []
  {
    var next := Next(r.now, c, clearOnReset);
    if c.rst then Record(next, next.mem, [], [], [], [], []) else
    Record(next, r.base,
           r.aws + (if TakesAw(r.now, c) then [c.aw.value] else []),
           r.ws + (if TakesW(r.now, c) then [c.w.value] else []),
           r.bids + (if r.now.b.Some? && c.bready then [r.now.b.value] else []),
           r.accepted + (if TakesAr(r.now, c) then [Read(c.ar.value, Committed(r), |r.bids|)] else []),
           r.taken + (if r.now.r.Some? && c.rready then [r.now.r.value] else []))
  }

  function Run(mem: Memory, cycles: seq<Cycle>, clearOnReset: bool): (r: Record)
    requires mem != []
    ensures |r.now.mem| == |mem|
  {
    if cycles == [] then Record(Pending(mem, None, None, None, None), mem, [], [], [], [], [])
    else Observe(Run(mem, cycles[..|cycles| - 1], clearOnReset), cycles[|cycles| - 1], clearOnReset)
  }

  /** The atomic memory after the first k writes: the i-th address beat taken with the i-th data beat taken. */
  function Replay(base: Memory, aws: seq<AddressBeat>, ws: seq<DataBeat>, k: nat): (m: Memory)
    requires base != [] && k <= |aws| && k <= |ws|
    ensures |m| == |base|
  {
    if k == 0 then base else Store(Replay(base, aws, ws, k - 1), aws[k - 1], ws[k - 1])
  }

  lemma {:induction false} ReplayIsPrefix(base: Memory, aws: seq<AddressBeat>, ws: seq<DataBeat>,
                                          aws': seq<AddressBeat>, ws': seq<DataBeat>, k: nat)
    requires base != [] && k <= |aws| && k <= |ws| && aws <= aws' && ws <= ws'
    ensures Replay(base, aws, ws, k) == Replay(base, aws', ws', k)
  {
    if k > 0 { ReplayIsPrefix(base, aws, ws, aws', ws', k - 1); }
  }

  /** What an accepted read must return: the memory as it was at the edge that accepted it. */
  function AnswerTo(r: Record, read: Read): ReadBeat
    requires r.base != [] && 0 <= read.committed <= |r.aws| && read.committed <= |r.ws|
  {
    Load(Replay(r.base, r.aws, r.ws, read.committed), read.ar)
  }

  ghost predicate WritesAtomic(r: Record) {
    var k := Committed(r);
    && r.base != []
    && 0 <= k == |r.ws| - Count(r.now.w.Some?)
    && (r.now.aw.Some? ==> r.now.aw.value == r.aws[|r.aws| - 1])
    && (r.now.w.Some? ==> r.now.w.value == r.ws[|r.ws| - 1])
    && r.now.mem == Replay(r.base, r.aws, r.ws, k)
  }

  /** Responses come in write order, one a write, with the write's identifier. */
  ghost predicate ResponsesMatch(r: Record) {
    var k := Committed(r);
    && 0 <= k <= |r.aws|
    && |r.bids| == k - Count(r.now.b.Some?)
    && (r.now.b.Some? ==> r.now.b.value == r.aws[k - 1].id && r.now.aw.None? && r.now.w.None?)
    && forall i :: 0 <= i < |r.bids| ==> r.bids[i] == r.aws[i].id
  }

  /** A read sees only committed writes, at least those any earlier read saw, and at least every write whose
      response had been taken when the read was accepted. */
  ghost predicate ReadsOrdered(r: Record) {
    && (forall j :: 0 <= j < |r.accepted| ==>
          r.accepted[j].answered <= r.accepted[j].committed <= Committed(r) && r.accepted[j].committed <= |r.ws|)
    && (forall i, j :: 0 <= i < j < |r.accepted| ==> r.accepted[i].committed <= r.accepted[j].committed)
  }

  /** Reads are answered in order, each with the value at the edge it was accepted, held until taken. */
  ghost predicate ReadsAnswered(r: Record)
    requires r.base != [] && ReadsOrdered(r)
  {
    && |r.taken| == |r.accepted| - Count(r.now.r.Some?)
    && (forall j :: 0 <= j < |r.taken| ==> r.taken[j] == AnswerTo(r, r.accepted[j]))
    && (r.now.r.Some? ==> r.now.r.value == AnswerTo(r, r.accepted[|r.accepted| - 1]))
  }

  lemma CommitsAdd(r: Record, c: Cycle, clearOnReset: bool)
    requires r.now.mem != [] && !c.rst
    ensures Committed(Observe(r, c, clearOnReset)) == Committed(r) + Count(Commits(r.now))
  {
  }

  lemma WritesStayAtomic(r: Record, c: Cycle, clearOnReset: bool)
    requires r.now.mem != [] && WritesAtomic(r)
    ensures WritesAtomic(Observe(r, c, clearOnReset))
  {
    if !c.rst {
      var r' := Observe(r, c, clearOnReset);
      CommitsAdd(r, c, clearOnReset);
      ReplayIsPrefix(r.base, r.aws, r.ws, r'.aws, r'.ws, Committed(r));
      if Commits(r.now) {
        assert r'.aws == r.aws && r'.ws == r.ws;
      }
    }
  }

  lemma ResponsesStayMatched(r: Record, c: Cycle, clearOnReset: bool)
    requires r.now.mem != [] && WritesAtomic(r) && ResponsesMatch(r)
    ensures ResponsesMatch(Observe(r, c, clearOnReset))
  {
    if !c.rst { CommitsAdd(r, c, clearOnReset); }
  }

  lemma AnswersKeep(r: Record, r': Record, read: Read)
    requires r.base != [] && r'.base == r.base && r.aws <= r'.aws && r.ws <= r'.ws
    requires 0 <= read.committed <= |r.aws| && read.committed <= |r.ws|
    ensures AnswerTo(r', read) == AnswerTo(r, read)
  {
    ReplayIsPrefix(r.base, r.aws, r.ws, r'.aws, r'.ws, read.committed);
  }

  lemma ReadsStayOrdered(r: Record, c: Cycle, clearOnReset: bool)
    requires r.now.mem != [] && WritesAtomic(r) && ResponsesMatch(r) && ReadsOrdered(r)
    ensures ReadsOrdered(Observe(r, c, clearOnReset))
  {
    if !c.rst { CommitsAdd(r, c, clearOnReset); }
  }

  lemma ReadsStayAnswered(r: Record, c: Cycle, clearOnReset: bool)
    requires r.now.mem != [] && WritesAtomic(r) && ResponsesMatch(r) && ReadsOrdered(r) && ReadsAnswered(r)
    ensures ReadsOrdered(Observe(r, c, clearOnReset)) && ReadsAnswered(Observe(r, c, clearOnReset))
  {
    ReadsStayOrdered(r, c, clearOnReset);
    if !c.rst {
      var r' := Observe(r, c, clearOnReset);
      forall j | 0 <= j < |r.accepted|
        ensures AnswerTo(r', r.accepted[j]) == AnswerTo(r, r.accepted[j])
      {
        AnswersKeep(r, r', r.accepted[j]);
      }
      if TakesAr(r.now, c) {
        AnswersKeep(r, r', Read(c.ar.value, Committed(r), |r.bids|));
      }
    }
  }

  /** Over every run, whatever the arrival order of addresses and data and however the master stalls. */
  lemma {:induction false} RunsAreAtomic(mem: Memory, cycles: seq<Cycle>, clearOnReset: bool)
    requires mem != []
    ensures var r := Run(mem, cycles, clearOnReset);
            WritesAtomic(r) && ResponsesMatch(r) && ReadsOrdered(r) && ReadsAnswered(r)
    decreases |cycles|
  {
    if cycles != [] {
      var before := cycles[..|cycles| - 1];
      RunsAreAtomic(mem, before, clearOnReset);
      WritesStayAtomic(Run(mem, before, clearOnReset), cycles[|cycles| - 1], clearOnReset);
      ResponsesStayMatched(Run(mem, before, clearOnReset), cycles[|cycles| - 1], clearOnReset);
      ReadsStayAnswered(Run(mem, before, clearOnReset), cycles[|cycles| - 1], clearOnReset);
    }
  }

  // ---------------------------------------------------------------- byte by byte

  function Lane(w: Word, n: nat): Byte {
    if n == 0 then w.b0 else if n == 1 then w.b1 else if n == 2 then w.b2 else w.b3
  }

  function ByteAt(mem: Memory, b: nat): Byte
    requires b < 4 * |mem|
  {
    Lane(mem[b / 4], b % 4)
  }

  /** A write covers a byte when the byte lies in the addressed word and its strobe bit is set. */
  predicate Covers(a: AddressBeat, beat: DataBeat, b: nat) {
    && b / 4 == a.addr / 4
    && (if b % 4 == 0 then beat.strobe.s0 else if b % 4 == 1 then beat.strobe.s1 else if b % 4 == 2 then beat.strobe.s2
        else beat.strobe.s3)
  }

  lemma IndexInside(addr: nat, words: nat)
    requires addr < 4 * words
    ensures Index(addr, words) == addr / 4
  {
  }

  /** Addresses past the memory's end come round to its start. */
  lemma AddressesWrap(addr: nat, words: nat)
    requires words > 0
    ensures Index(addr, words) == addr % (4 * words) / 4
  {
    var round, left := addr / (4 * words), addr % (4 * words);
    assert addr == 4 * words * round + left;
    Commute(words, round);
    Associate(4, words, round);
    assert addr / 4 == round * words + left / 4;
    Unique(addr / 4, round, left / 4, words);
  }

  /** A write changes exactly the bytes it covers, to the bytes on their lanes. */
  lemma StoreWritesBytes(mem: Memory, a: AddressBeat, beat: DataBeat, b: nat)
    requires a.addr < 4 * |mem| && b < 4 * |mem|
    ensures ByteAt(Store(mem, a, beat), b) == if Covers(a, beat, b) then Lane(beat.data, b % 4) else ByteAt(mem, b)
  {
    IndexInside(a.addr, |mem|);
  }

  lemma LoadReadsBytes(mem: Memory, a: AddressBeat, b: nat)
    requires b < 4 * |mem| && b / 4 == a.addr / 4
    ensures Lane(Load(mem, a).data, b % 4) == ByteAt(mem, b) && Load(mem, a).id == a.id
  {
    IndexInside(a.addr, |mem|);
  }

  /** The last of the first k writes that covers a byte, or -1. */
  function LastCover(aws: seq<AddressBeat>, ws: seq<DataBeat>, k: nat, b: nat): (last: int)
    requires k <= |aws| && k <= |ws|
    ensures -1 <= last < k
    ensures last >= 0 ==> Covers(aws[last], ws[last], b)
    ensures forall j :: last < j < k ==> !Covers(aws[j], ws[j], b)
  {
    if k == 0 then -1 else if Covers(aws[k - 1], ws[k - 1], b) then k - 1 else LastCover(aws, ws, k - 1, b)
  }

  /** Each byte holds what the last write that covers it put there, or what it held before any. */
  lemma {:induction false} LastWriteCounts(base: Memory, aws: seq<AddressBeat>, ws: seq<DataBeat>, k: nat, b: nat)
    requires k <= |aws| && k <= |ws| && b < 4 * |base| && forall i :: 0 <= i < k ==> aws[i].addr < 4 * |base|
    ensures var last := LastCover(aws, ws, k, b);
            ByteAt(Replay(base, aws, ws, k), b) == if last < 0 then ByteAt(base, b) else Lane(ws[last].data, b % 4)
  {
    if k > 0 {
      LastWriteCounts(base, aws, ws, k - 1, b);
      StoreWritesBytes(Replay(base, aws, ws, k - 1), aws[k - 1], ws[k - 1], b);
    }
  }

  /** Handshake rule of sections A3.2.1 and A3.3.1: a response or read beat once presented stays until taken. */
  lemma ResponsesAreStable(p: Pending, c: Cycle, clearOnReset: bool)
    requires p.mem != [] && !c.rst
    ensures p.b.Some? && !c.bready ==> Next(p, c, clearOnReset).b == p.b
    ensures p.r.Some? && !c.rready ==> Next(p, c, clearOnReset).r == p.r
  {
  }

  /** A write is never stuck: with the response channel ready, an address and a data beat that both wait are
      committed and answered two cycles later, and both channels are free again. */
  lemma PairsComplete(p: Pending, c1: Cycle, c2: Cycle, clearOnReset: bool)
    requires p.mem != [] && p.aw.Some? && p.w.Some? && p.b.None?
    requires !c1.rst && !c2.rst && c2.bready
    ensures var p1 := Next(p, c1, clearOnReset);
            var p2 := Next(p1, c2, clearOnReset);
            && p1.mem == Store(p.mem, p.aw.value, p.w.value) && p1.b == Some(p.aw.value.id)
            && p2.b == None && p2.aw == None && p2.w == None && p2.mem == p1.mem
  {
  }

  /** A reset of the register file leaves every byte zero and every channel free; the other memory keeps its bytes. */
  lemma ResetClears(p: Pending, c: Cycle, clearOnReset: bool, b: nat)
    requires p.mem != [] && c.rst && b < 4 * |p.mem|
    ensures var p' := Next(p, c, clearOnReset);
            && |p'.mem| == |p.mem| && ByteAt(p'.mem, b) == (if clearOnReset then 0 else ByteAt(p.mem, b))
            && p'.aw == None && p'.w == None && p'.b == None && p'.r == None
  {
  }

  /** Each port group is one beat, there exactly when its valid is up, with its own identifier, address and data. */
  lemma PortsAreBeats(rstN: bool, awvalid: bool, awid: nat, awaddr: nat, wvalid: bool, wdata: Word, wstrb: Strobe,
                      bready: bool, arvalid: bool, arid: nat, araddr: nat, rready: bool)
    ensures var c := Inputs(rstN, awvalid, awid, awaddr, wvalid, wdata, wstrb, bready, arvalid, arid, araddr, rready);
            && c.rst != rstN && c.bready == bready && c.rready == rready
            && c.aw.Some? == awvalid && (awvalid ==> c.aw.value.id == awid && c.aw.value.addr == awaddr)
            && c.w.Some? == wvalid && (wvalid ==> c.w.value.data == wdata && c.w.value.strobe == wstrb)
            && c.ar.Some? == arvalid && (arvalid ==> c.ar.value.id == arid && c.ar.value.addr == araddr)
  {
  }

  /** Without reset: a beat offered on a write channel is taken when nothing waits there and no response does, a read
      when none waits; a committed pair makes room for a response, and a response or read that is taken goes. */
  lemma ChannelsTake(p: Pending, c: Cycle, clearOnReset: bool)
    requires p.mem != [] && !c.rst && (p.b.Some? ==> p.aw.None? && p.w.None?)
    ensures var p' := Next(p, c, clearOnReset);
            && (p.aw == None ==> p'.aw == if p.b == None then c.aw else None)
            && (p.w == None ==> p'.w == if p.b == None then c.w else None)
            && (p.aw.Some? && p.w.Some? ==> p'.aw == None && p'.w == None && p'.b == Some(p.aw.value.id))
            && (p.aw.Some? && p.w == None ==> p'.aw == p.aw) && (p.w.Some? && p.aw == None ==> p'.w == p.w)
            && (p.b.Some? ==> p'.b == if c.bready then None else p.b)
            && (p.b == None && (p.aw == None || p.w == None) ==> p'.b == None && p'.mem == p.mem)
            && (p.r == None ==> (p'.r.Some? <==> c.ar.Some?)) && (p.r.Some? ==> p'.r == if c.rready then None else p.r)
  {
  }
}
