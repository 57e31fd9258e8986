/** The n-stage datapath with one global enable; stage i applies its own function. */
module StagePipeline {
  import opened Options
  import opened RegisterSlice

  function MapBeat<T>(f: T -> T, b: Option<T>): Option<T> {
    if b.Some? then Some(f(b.value)) else None
  }

  /** All stages advance at once: each takes its predecessor's old beat through its own function. */
  function Shift<T>(fs: seq<T -> T>, beats: seq<Option<T>>, input: Option<T>): (r: seq<Option<T>>)
    requires |fs| == |beats|
    ensures |r| == |beats|
  {
    if beats == [] then [] else [MapBeat(fs[0], input)] + Shift(fs[1..], beats[1..], beats[0])
  }

  lemma {:induction false} ShiftAt<T>(fs: seq<T -> T>, beats: seq<Option<T>>, input: Option<T>, i: nat)
    requires i < |fs| == |beats|
    ensures Shift(fs, beats, input)[i] == MapBeat(fs[i], if i == 0 then input else beats[i - 1])
    decreases i
  {
    if i > 0 {
      ShiftAt(fs[1..], beats[1..], beats[0], i - 1);
    }
  }

  /** What the pipeline's output port shows: the last stage, or the input itself when there is none. */
  function LastBeat<T>(beats: seq<Option<T>>, input: Option<T>): (b: Option<T>)
    ensures b == if beats == [] then input else beats[|beats| - 1]
  {
    if beats == [] then input else LastBeat(beats[1..], beats[0])
  }

  function Bubbles<T>(n: nat): seq<Option<T>> {
    seq(n, _ => None)
  }

  function Beats<T>(data: seq<T>, valid: seq<bool>): seq<Option<T>>
    requires |data| == |valid|
  {
    seq(|data|, i requires 0 <= i < |data| => Beat(valid[i], data[i]))
  }

  class Pipeline<T> {
    const stages: seq<T -> T>
    const zero: T
    var data: seq<T>
    var valid: seq<bool>

    constructor (stages: seq<T -> T>, zero: T, data: seq<T>, valid: seq<bool>)
      requires |data| == |valid| == |stages|
      ensures Valid() && this.stages == stages && this.data == data && this.valid == valid
    {
      this.stages, this.zero, this.data, this.valid := stages, zero, data, valid;
    }

    ghost predicate Valid()
      reads this
    {
      |data| == |valid| == |stages|
    }

    ghost function Contents(): seq<Option<T>>
      requires Valid()
      reads this
    {
      Beats(data, valid)
    }

    method Tick(rst: bool, en: bool, din: T, validIn: bool)
      requires Valid()
      modifies this
      ensures Valid()
      ensures rst ==> Contents() == Bubbles(|stages|) && data == seq(|stages|, _ => zero)
      ensures !rst && en ==> Contents() == Shift(stages, old(Contents()), Beat(validIn, din))
      ensures !rst && !en ==> data == old(data) && valid == old(valid)
    {
      var prevData, prevValid := din, validIn;
      var nextData, nextValid := data, valid;
      for i := 0 to |stages|
        invariant |nextData| == |nextValid| == |stages|
        invariant prevData == if i == 0 then din else data[i - 1]
        invariant prevValid == if i == 0 then validIn else valid[i - 1]
        invariant forall k :: i <= k < |data| ==> nextData[k] == data[k] && nextValid[k] == valid[k]
        invariant forall k :: 0 <= k < i ==> nextData[k] == NextData(rst, en, stages, zero, data, din, k)
        invariant forall k :: 0 <= k < i ==> nextValid[k] == NextValid(rst, en, valid, validIn, k)
      {
        if rst {
          nextData, nextValid := nextData[i := zero], nextValid[i := false];
        } else if en {
          nextData, nextValid := nextData[i := stages[i](prevData)], nextValid[i := prevValid];
        }
        prevData, prevValid := data[i], valid[i];
      }
      RegistersStep(rst, en, stages, zero, data, valid, din, validIn, nextData, nextValid);
      data, valid := nextData, nextValid;
    }
  }

  /** What stage k's data register holds after the edge, from the registers d before it. */
  ghost function NextData<T>(rst: bool, en: bool, fs: seq<T -> T>, zero: T, d: seq<T>, din: T, k: nat): T
    requires k < |fs| == |d|
  {
    if rst then zero else if en then fs[k](if k == 0 then din else d[k - 1]) else d[k]
  }

  ghost function NextValid(rst: bool, en: bool, v: seq<bool>, validIn: bool, k: nat): bool
    requires k < |v|
  {
    if rst then false else if en then (if k == 0 then validIn else v[k - 1]) else v[k]
  }

  lemma RegistersStep<T>(rst: bool, en: bool, fs: seq<T -> T>, zero: T, d: seq<T>, v: seq<bool>, din: T, validIn: bool,
                         d': seq<T>, v': seq<bool>)
    requires |fs| == |d| == |v| == |d'| == |v'|
    requires forall k :: 0 <= k < |d| ==> d'[k] == NextData(rst, en, fs, zero, d, din, k)
    requires forall k :: 0 <= k < |d| ==> v'[k] == NextValid(rst, en, v, validIn, k)
    ensures rst ==> Beats(d', v') == Bubbles(|fs|) && d' == seq(|fs|, _ => zero)
    ensures !rst && en ==> Beats(d', v') == Shift(fs, Beats(d, v), Beat(validIn, din))
    ensures !rst && !en ==> d' == d && v' == v
  {
    if !rst && en {
      var shifted := Shift(fs, Beats(d, v), Beat(validIn, din));
      forall k | 0 <= k < |d|
        ensures Beats(d', v')[k] == shifted[k]
      {
        ShiftAt(fs, Beats(d, v), Beat(validIn, din), k);
      }
    }
  }
}
