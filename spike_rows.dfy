/** Rows of the acquisition stream and the stateless row filters of the spike server.
    A message from the acquisition client is decoded into rows of four numbers
    |data type|channel|unit|timestamp (seconds)|; every filter here is a mask over those rows. */
module SpikeRows {

  datatype Option<T> = None | Some(value: T)

  /** One decoded record: kind 1 is a spike, kind 4 an external event. */
  datatype Row = Row(kind: int, channel: int, unit: int, ts: real)

  const CH_START: int := 1
  const CH_END: int := 96
  const UNIT_END: int := 4
  /** unsortedSpkFilter is 0, so unsorted spikes (unit 0) are accepted. */
  const UNIT_START: int := 0
  /** Channel on which the acquisition system reports its own system events. */
  const SYS_EVT_CHANNEL: int := 257

  /** Order-preserving selection of the elements that satisfy p (a boolean mask in numpy). */
  function Filter<T(!new)>(s: seq<T>, p: T -> bool): (r: seq<T>)
    ensures |r| <= |s|
  {
    if s == [] then [] else (if p(s[0]) then [s[0]] else []) + Filter(s[1..], p)
  }

  /** Filter keeps every selected element as often as it occurs and nothing else. */
  lemma {:induction false} FilterCount<T(!new)>(s: seq<T>, p: T -> bool)
    ensures forall x :: multiset(Filter(s, p))[x] == if p(x) then multiset(s)[x] else 0
    ensures forall x :: x in Filter(s, p) <==> x in s && p(x)
    decreases |s|
  {
    if s != [] {
      FilterCount(s[1..], p);
      assert s == [s[0]] + s[1..];
      assert multiset(s) == multiset{s[0]} + multiset(s[1..]);
    }
  }

  /** r can be obtained from s by deleting elements, keeping the order of the rest. */
  ghost predicate SubseqOf<T>(r: seq<T>, s: seq<T>)
    decreases |s|
  {
    r == [] || (s != [] && ((r[0] == s[0] && SubseqOf(r[1..], s[1..])) || SubseqOf(r, s[1..])))
  }

  lemma {:induction false} FilterIsSubseq<T(!new)>(s: seq<T>, p: T -> bool)
    ensures SubseqOf(Filter(s, p), s)
    decreases |s|
  {
    if s != [] {
      FilterIsSubseq(s[1..], p);
      var rest := Filter(s[1..], p);
      if p(s[0]) {
        assert Filter(s, p) == [s[0]] + rest;
        assert ([s[0]] + rest)[1..] == rest;
      } else {
        assert Filter(s, p) == rest;
      }
    }
  }

  lemma {:induction false} FilterAppend<T(!new)>(a: seq<T>, b: seq<T>, p: T -> bool)
    ensures Filter(a + b, p) == Filter(a, p) + Filter(b, p)
    decreases |a|
  {
    if a == [] {
      assert a + b == b;
    } else {
      var head := if p(a[0]) then [a[0]] else [];
      assert (a + b)[0] == a[0];
      assert (a + b)[1..] == a[1..] + b;
      assert Filter(a + b, p) == head + Filter(a[1..] + b, p);
      FilterAppend(a[1..], b, p);
      assert Filter(a, p) == head + Filter(a[1..], p);
    }
  }

  /** Filtering twice is filtering once by the conjunction. */
  lemma {:induction false} FilterFilter<T(!new)>(s: seq<T>, p: T -> bool, q: T -> bool, pq: T -> bool)
    requires forall x :: pq(x) == (p(x) && q(x))
    ensures Filter(Filter(s, p), q) == Filter(s, pq)
    decreases |s|
  {
    if s != [] {
      FilterFilter(s[1..], p, q, pq);
      var tail := Filter(s[1..], p);
      assert Filter(s, pq) == (if pq(s[0]) then [s[0]] else []) + Filter(s[1..], pq);
      if p(s[0]) {
        assert Filter(s, p) == [s[0]] + tail;
        FilterAppend([s[0]], tail, q);
        assert Filter([s[0]], q) == (if q(s[0]) then [s[0]] else []) + Filter([s[0]][1..], q);
        assert [s[0]][1..] == [];
      } else {
        assert Filter(s, p) == tail;
      }
    }
  }

  /** Two masks that agree on every element of s select the same rows. */
  lemma {:induction false} FilterSameMask<T(!new)>(s: seq<T>, p: T -> bool, q: T -> bool)
    requires forall x :: x in s ==> p(x) == q(x)
    ensures Filter(s, p) == Filter(s, q)
    decreases |s|
  {
    if s != [] {
      FilterSameMask(s[1..], p, q);
    }
  }

  /** Timestamp masks, as function values so that equal cuts give equal selections. */
  function AtLeastMask(t: real): Row -> bool { (r: Row) => r.ts >= t }
  function BelowMask(t: real): Row -> bool { (r: Row) => r.ts < t }

  /** Rows with timestamp >= t, in order. */
  function AtLeast(s: seq<Row>, t: real): seq<Row> { Filter(s, AtLeastMask(t)) }

  /** Rows with timestamp < t, in order. */
  function Below(s: seq<Row>, t: real): seq<Row> { Filter(s, BelowMask(t)) }

  /** Cutting at a and then at a later b is cutting at b. */
  lemma AtLeastTwice(s: seq<Row>, a: real, b: real)
    requires a <= b
    ensures AtLeast(AtLeast(s, a), b) == AtLeast(s, b)
  {
    FilterFilter(s, AtLeastMask(a), AtLeastMask(b), AtLeastMask(b));
  }

  /** A cut at t splits the rows into those at or after t and those before it. */
  lemma {:induction false} CutPartition(s: seq<Row>, t: real)
    ensures multiset(AtLeast(s, t)) + multiset(Below(s, t)) == multiset(s)
    decreases |s|
  {
    if s != [] {
      CutPartition(s[1..], t);
      assert s == [s[0]] + s[1..];
      assert AtLeast(s, t) == (if s[0].ts >= t then [s[0]] else []) + AtLeast(s[1..], t);
      assert Below(s, t) == (if s[0].ts < t then [s[0]] else []) + Below(s[1..], t);
    }
  }

  predicate IsSpike(r: Row) { r.kind == 1 }
  predicate IsEvent(r: Row) { r.kind == 4 }
  predicate IsSysEvent(r: Row) { r.channel == SYS_EVT_CHANNEL }
  predicate IsSorted(r: Row) { r.unit > 0 }

  /** nrn_py_clarifyEvt: splits a message into its spike rows and its external-event rows. */
  function ClarifyEvt(rows: seq<Row>): (r: (seq<Row>, seq<Row>))
    ensures forall x :: multiset(r.0)[x] == if x.kind == 1 then multiset(rows)[x] else 0
    ensures forall x :: multiset(r.1)[x] == if x.kind == 4 then multiset(rows)[x] else 0
    ensures SubseqOf(r.0, rows) && SubseqOf(r.1, rows)
    ensures rows == [] ==> r == ([], [])
  {
    FilterIsSubseq(rows, IsSpike);
    FilterCount(rows, IsSpike);
    FilterIsSubseq(rows, IsEvent);
    FilterCount(rows, IsEvent);
    (Filter(rows, IsSpike), Filter(rows, IsEvent))
  }

  /** nrn_py_filterSysEvt: keeps the events reported on the system-event channel. */
  function FilterSysEvt(evts: seq<Row>): (r: seq<Row>)
    ensures forall x :: multiset(r)[x] == if x.channel == SYS_EVT_CHANNEL then multiset(evts)[x] else 0
    ensures SubseqOf(r, evts)
    ensures evts == [] ==> r == []
  {
    FilterIsSubseq(evts, IsSysEvent);
    FilterCount(evts, IsSysEvent);
    Filter(evts, IsSysEvent)
  }

  /** nrn_py_filterUnsortedSpk: drops spikes of the unsorted unit 0 (keeps unit > 0). */
  function FilterUnsortedSpk(spks: seq<Row>): (r: seq<Row>)
    ensures forall x :: multiset(r)[x] == if x.unit > 0 then multiset(spks)[x] else 0
    ensures SubseqOf(r, spks)
    ensures spks == [] ==> r == []
  {
    FilterIsSubseq(spks, IsSorted);
    FilterCount(spks, IsSorted);
    Filter(spks, IsSorted)
  }

  /** checkLocalIndexbyKey: the local index stored under key, or -1 when the key is absent. */
  function CheckLocalIndexByKey(dic: map<int, int>, key: int): (index: int)
    ensures key in dic ==> index == dic[key]
    ensures key !in dic ==> index == -1
  {
    if key in dic then dic[key] else -1
  }

  /** With non-negative local indices, the -1 result tells a missing key apart from every hit. */
  lemma LocalIndexFound(dic: map<int, int>, key: int)
    requires forall k :: k in dic ==> dic[k] >= 0
    ensures CheckLocalIndexByKey(dic, key) >= 0 <==> key in dic
  {
  }
}
