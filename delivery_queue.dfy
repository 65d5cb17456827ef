/** feedQueue: the queue between the acquisition server and the simulation, with its latency
    budget. An item is always appended; while the simulation is judged to be more than LR behind
    the item's time, the oldest items are discarded until only one is left. */
module LatencyQueue {
  import opened SpikeRows
  import SpikeBinning

  /** Spikes per NSLOC chunk, and the slot that holds the spike count (3 * SPKNUM + 1 slots of
      payload; one more slot holds the serial number). */
  const SPKNUM: int := 20
  const SPKSZ: int := 3 * SPKNUM + 1
  /** Latency requirement, in milliseconds. */
  const LR: real := 1000000.0

  /** A spike count stored as a number: a whole number between 0 and SPKNUM. */
  predicate IsCount(x: real)
  {
    x == x.Floor as real && 0 <= x.Floor <= SPKNUM
  }

  /** The item layouts the queue receives: a DP bin (96 counts and the bin index) or an NSLOC chunk. */
  predicate WellFormed(isDp: bool, item: seq<real>)
  {
    if isDp then |item| > CH_END else |item| == SPKSZ + 1 && IsCount(item[SPKSZ - 1])
  }

  predicate AllWellFormed(isDp: bool, items: seq<seq<real>>)
  {
    forall k :: 0 <= k < |items| ==> WellFormed(isDp, items[k])
  }

  /** currQTime (ms): for a DP item the bin index times binWnd; for an NSLOC chunk the last spike's
      timestamp, or the slot before the count when the chunk holds no spike. */
  function ItemTime(isDp: bool, item: seq<real>): real
    requires WellFormed(isDp, item)
  {
    if isDp then item[CH_END] * SpikeBinning.BIN_WND
    else
      var n := item[SPKSZ - 1].Floor;
      if n == 0 then item[SPKSZ - 2] * 1000.0 else item[(n - 1) * 3 + 2] * 1000.0
  }

  /** The simulation is judged behind when the item is more than LR ahead of its clock. */
  predicate Behind(qTime: real, simTime: real)
  {
    qTime - simTime > LR
  }

  /** The queue after one feed. */
  function Admit(q: seq<seq<real>>, item: seq<real>, qTime: real, simTime: real): (r: seq<seq<real>>)
    ensures |r| >= 1 && r[|r| - 1] == item
    ensures Behind(qTime, simTime) ==> r == [item]
    ensures !Behind(qTime, simTime) ==> r[..|r| - 1] == q
  {
    if Behind(qTime, simTime) then [item] else q + [item]
  }

  /** The queue after several feeds at one clock value. */
  function AdmitAll(isDp: bool, q: seq<seq<real>>, items: seq<seq<real>>, simTime: real): seq<seq<real>>
    requires AllWellFormed(isDp, items)
  {
    if items == [] then q
    else
      var last := items[|items| - 1];
      Admit(AdmitAll(isDp, q, items[..|items| - 1], simTime), last, ItemTime(isDp, last), simTime)
  }

  lemma AdmitAllSnoc(isDp: bool, q: seq<seq<real>>, items: seq<seq<real>>, x: seq<real>, simTime: real)
    requires AllWellFormed(isDp, items)
    requires WellFormed(isDp, x)
    ensures AllWellFormed(isDp, items + [x])
    ensures AdmitAll(isDp, q, items + [x], simTime) == Admit(AdmitAll(isDp, q, items, simTime), x, ItemTime(isDp, x), simTime)
  {
    assert (items + [x])[..|items|] == items;
  }

  /** Feeding never adds more than one item per call, and once an item is behind the queue
      restarts from it: the depth is at most one more than the number of feeds since then. */
  lemma {:induction false} DepthBound(isDp: bool, q: seq<seq<real>>, items: seq<seq<real>>, simTime: real)
    requires AllWellFormed(isDp, items)
    ensures |AdmitAll(isDp, q, items, simTime)| <= |q| + |items|
    ensures forall k :: 0 <= k < |items| && Behind(ItemTime(isDp, items[k]), simTime) ==>
              |AdmitAll(isDp, q, items, simTime)| <= |items| - k
    decreases |items|
  {
    if items != [] {
      var init := items[..|items| - 1];
      DepthBound(isDp, q, init, simTime);
      forall k | 0 <= k < |items| && Behind(ItemTime(isDp, items[k]), simTime)
        ensures |AdmitAll(isDp, q, items, simTime)| <= |items| - k
      {
        if k < |items| - 1 {
          assert init[k] == items[k];
        }
      }
    }
  }

  /** When the simulation keeps up, every item stays, in arrival order. */
  lemma {:induction false} OnTimeKeepsAll(isDp: bool, q: seq<seq<real>>, items: seq<seq<real>>, simTime: real)
    requires AllWellFormed(isDp, items)
    requires forall k :: 0 <= k < |items| ==> !Behind(ItemTime(isDp, items[k]), simTime)
    ensures AdmitAll(isDp, q, items, simTime) == q + items
    decreases |items|
  {
    if items != [] {
      var init := items[..|items| - 1];
      OnTimeKeepsAll(isDp, q, init, simTime);
      assert q + items == (q + init) + [items[|items| - 1]];
    }
  }

  class DeliveryQueue {
    /** The queued items, oldest first. */
    var items: seq<seq<real>>
    /** currNeuronTime (ms), published by the simulation side. */
    var simTime: real
    /** isDp: whether the items are DP bins (true) or NSLOC chunks (false). */
    const isDp: bool

    constructor (isDp: bool)
      ensures this.isDp == isDp && items == [] && simTime == 0.0
    {
      this.isDp := isDp;
      items := [];
      simTime := 0.0;
    }

    /** feedQueue: put, then discard the oldest while more than one item is queued and the
        simulation is behind; nobody else takes items meanwhile, so the size check always agrees. */
    method Feed(item: seq<real>)
      requires WellFormed(isDp, item)
      modifies this`items
      ensures items == Admit(old(items), item, ItemTime(isDp, item), simTime)
    {
      var currQTime := ItemTime(isDp, item);
      items := items + [item];
      ghost var k := 0;
      while true
        invariant 0 <= k <= |old(items)|
        invariant items == (old(items) + [item])[k..]
        invariant !Behind(currQTime, simTime) ==> k == 0
        decreases |items|
      {
        var qsize := |items|;
        if qsize <= 1 {
          break;
        }
        var currSimTime := simTime;
        if currQTime - currSimTime > LR {
          if qsize == |items| {
            items := items[1..];
            k := k + 1;
          }
        } else {
          break;
        }
      }
    }
  }
}
