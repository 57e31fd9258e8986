/** The AXI4-Stream register slice (skid buffer): one clocked object, specified as a two-place queue.
    The payload type T stands for tdata together with every sideband field, which skid as one. */
module RegisterSlice {
  import opened Options

  /** One cycle of a two-place queue without reset: it takes an offered beat when it holds fewer than
      two, and gives up its head when the consumer takes it. Both decisions look at the old queue. */
  function QueueStep<T>(q: seq<T>, offer: Option<T>, take: bool): seq<T> {
    (if take && q != [] then q[1..] else q) + (if |q| < 2 && offer.Some? then [offer.value] else [])
  }

  /** The beat the queue presents to its consumer. */
  function Head<T>(q: seq<T>): Option<T> {
    if q == [] then None else Some(q[0])
  }

  /** A port's valid bit and payload as one optional beat. */
  function Beat<T>(valid: bool, payload: T): Option<T> {
    if valid then Some(payload) else None
  }

  class Slice<T> {
    const zero: T
    var mTvalid: bool
    var sTready: bool
    var mPayload: T
    var rPayload: T

    /** Registers without initial values: before the first reset they hold anything. */
    constructor (zero: T, mTvalid: bool, sTready: bool, mPayload: T, rPayload: T)
      ensures this.zero == zero
      ensures this.mTvalid == mTvalid && this.sTready == sTready
      ensures this.mPayload == mPayload && this.rPayload == rPayload
    {
      this.zero := zero;
      this.mTvalid, this.sTready, this.mPayload, this.rPayload := mTvalid, sTready, mPayload, rPayload;
    }

    /** The raw-port variant declares initial values, and starts empty. */
    constructor Initialized(zero: T)
      ensures this.zero == zero
      ensures Valid() && Contents() == []
    {
      this.zero := zero;
      mTvalid, sTready, mPayload, rPayload := false, true, zero, zero;
    }

    /** A beat can only be skidded behind a full output register. */
    ghost predicate Valid()
      reads this
    {
      !sTready ==> mTvalid
    }

    /** The beats held, oldest first: the output register, then the skid register. */
    ghost function Contents(): (q: seq<T>)
      reads this
      ensures Valid() ==> |q| <= 2 && sTready == (|q| < 2) && Beat(mTvalid, mPayload) == Head(q)
    {
      (if mTvalid then [mPayload] else []) + (if sTready then [] else [rPayload])
    }

    /** One rising clock edge. Every right-hand side reads the registers as they were before it. */
    method Tick(rst: bool, sTvalid: bool, sPayload: T, mTready: bool)
      requires rst || Valid()
      modifies this
      ensures Valid()
      ensures rst ==> Contents() == [] && mPayload == rPayload == zero
      ensures !rst ==> Contents() == QueueStep(old(Contents()), Beat(sTvalid, sPayload), mTready)
    {
      var rTvalid := !sTready;
      var nextTvalid, nextTready, nextM, nextR := mTvalid, sTready, mPayload, rPayload;
      if rst {
        nextTvalid, nextTready, nextM, nextR := false, true, zero, zero;
      } else {
        if !mTvalid || mTready {
          nextTvalid := sTvalid || rTvalid;
        }
        if (sTvalid && sTready) && (mTvalid && !mTready) {
          nextTready := false;
        } else if mTready {
          nextTready := true;
        }
        if sTready {
          nextR := sPayload;
        }
        if mTready || !mTvalid {
          if rTvalid {
            nextM := rPayload;
          } else if sTvalid && sTready {
            nextM := sPayload;
          }
        }
      }
      mTvalid, sTready, mPayload, rPayload := nextTvalid, nextTready, nextM, nextR;
    }
  }

  /** AXI4-Stream handshake rule (section 2.2.1): once a beat is presented it stays, unchanged, until taken. */
  lemma PresentedBeatIsStable<T>(q: seq<T>, offer: Option<T>)
    requires q != []
    ensures Head(QueueStep(q, offer, false)) == Head(q)
  {
  }

  /** The queue after one cycle per offered beat, the producer never pausing and the consumer always ready. */
  function Streaming<T>(q: seq<T>, offers: seq<T>): seq<T>
    decreases |offers|
  {
    if offers == [] then q else Streaming(QueueStep(q, Some(offers[0]), true), offers[1..])
  }

  function StreamingAccepts<T>(q: seq<T>, offers: seq<T>): nat
    decreases |offers|
  {
    if offers == [] then 0
    else (if |q| < 2 then 1 else 0) + StreamingAccepts(QueueStep(q, Some(offers[0]), true), offers[1..])
  }

  function StreamingEmits<T>(q: seq<T>, offers: seq<T>): nat
    decreases |offers|
  {
    if offers == [] then 0
    else (if q != [] then 1 else 0) + StreamingEmits(QueueStep(q, Some(offers[0]), true), offers[1..])
  }

  /** No throughput is given up: from every reachable content, k streaming cycles accept k beats (k - 1 when
      the slice starts full) and emit k beats (k - 1 when it starts empty). */
  lemma {:induction false} FullThroughput<T>(q: seq<T>, offers: seq<T>)
    requires |q| <= 2 && offers != []
    ensures StreamingAccepts(q, offers) == |offers| - (if |q| == 2 then 1 else 0)
    ensures StreamingEmits(q, offers) == |offers| - (if q == [] then 1 else 0)
    ensures |Streaming(q, offers)| == 1
    decreases |offers|
  {
    var q' := QueueStep(q, Some(offers[0]), true);
    assert |q'| == 1;
    if |offers| > 1 {
      FullThroughput(q', offers[1..]);
    }
  }
}
