/** nrn_py_reorder: a reorder buffer in front of the spike pipeline. Rows newer than the
    largest timestamp held back by the previous call are kept; the rest leave sorted. */
module SpikeReorder {
  import opened SpikeRows

  ghost predicate SortedByTs(s: seq<Row>)
  {
    forall i, j :: 0 <= i < j < |s| ==> s[i].ts <= s[j].ts
  }

  /** Places x in front of the first element whose timestamp is not smaller. */
  function Insert(x: Row, s: seq<Row>): seq<Row>
  {
    if s == [] || x.ts <= s[0].ts then [x] + s else [s[0]] + Insert(x, s[1..])
  }

  /** The argsort by timestamp: an insertion sort (numpy's quicksort does not fix the
      order of rows with equal timestamps, and neither do the contracts below). */
  function SortByTs(s: seq<Row>): seq<Row>
  {
    if s == [] then [] else Insert(s[0], SortByTs(s[1..]))
  }

  lemma {:induction false} InsertPermutes(x: Row, s: seq<Row>)
    ensures multiset(Insert(x, s)) == multiset(s) + multiset{x}
    decreases |s|
  {
    if s != [] && x.ts > s[0].ts {
      InsertPermutes(x, s[1..]);
      assert s == [s[0]] + s[1..];
    }
  }

  lemma {:induction false} InsertMembers(x: Row, s: seq<Row>)
    ensures forall y :: y in Insert(x, s) <==> y == x || y in s
    decreases |s|
  {
    if s != [] && x.ts > s[0].ts {
      InsertMembers(x, s[1..]);
      assert s == [s[0]] + s[1..];
    }
  }

  lemma SortedHead(s: seq<Row>)
    requires SortedByTs(s) && s != []
    ensures forall y :: y in s ==> s[0].ts <= y.ts
  {
    forall y | y in s ensures s[0].ts <= y.ts {
      var k :| 0 <= k < |s| && s[k] == y;
    }
  }

  lemma ConsSorted(h: Row, t: seq<Row>)
    requires SortedByTs(t) && forall y :: y in t ==> h.ts <= y.ts
    ensures SortedByTs([h] + t)
  {
    forall i, j | 0 <= i < j < |[h] + t| ensures ([h] + t)[i].ts <= ([h] + t)[j].ts {
      if i == 0 {
        assert ([h] + t)[j] == t[j - 1];
        assert t[j - 1] in t;
      }
    }
  }

  lemma {:induction false} InsertSorted(x: Row, s: seq<Row>)
    requires SortedByTs(s)
    ensures SortedByTs(Insert(x, s))
    decreases |s|
  {
    if s == [] {
    } else if x.ts <= s[0].ts {
      SortedHead(s);
      ConsSorted(x, s);
    } else {
      var rest := s[1..];
      InsertSorted(x, rest);
      InsertMembers(x, rest);
      SortedHead(s);
      forall y | y in rest ensures y in s { }
      ConsSorted(s[0], Insert(x, rest));
    }
  }

  /** SortByTs returns the same rows, sorted by timestamp. */
  lemma {:induction false} SortByTsCorrect(s: seq<Row>)
    ensures SortedByTs(SortByTs(s))
    ensures multiset(SortByTs(s)) == multiset(s)
    decreases |s|
  {
    if s != [] {
      SortByTsCorrect(s[1..]);
      InsertSorted(s[0], SortByTs(s[1..]));
      InsertPermutes(s[0], SortByTs(s[1..]));
      assert s == [s[0]] + s[1..];
    }
  }

  /** Selecting rows of a sorted sequence leaves it sorted. */
  lemma {:induction false} FilterKeepsSorted(s: seq<Row>, p: Row -> bool)
    requires SortedByTs(s)
    ensures SortedByTs(Filter(s, p))
    decreases |s|
  {
    if s != [] {
      var rest := Filter(s[1..], p);
      FilterKeepsSorted(s[1..], p);
      FilterCount(s[1..], p);
      if p(s[0]) {
        assert Filter(s, p) == [s[0]] + rest;
        forall i, j | 0 <= i < j < |[s[0]] + rest| ensures ([s[0]] + rest)[i].ts <= ([s[0]] + rest)[j].ts {
          if i == 0 {
            var y := ([s[0]] + rest)[j];
            assert y in rest;
            assert y in s[1..];
            var k :| 0 <= k < |s[1..]| && s[1..][k] == y;
            assert s[k + 1] == y;
          }
        }
      }
    }
  }

  /** The largest timestamp held back: the last kept row (the buffer is sorted), 0 when empty. */
  function KeptMax(kept: seq<Row>): real
  {
    if |kept| > 0 then kept[|kept| - 1].ts else 0.0
  }

  function NewerMask(t: real): Row -> bool { (r: Row) => r.ts > t }
  function OlderMask(t: real): Row -> bool { (r: Row) => r.ts <= t }

  /** Two sorted parts, the first not later than the second, make a sorted whole. */
  lemma ConcatSorted(a: seq<Row>, b: seq<Row>, t: real)
    requires SortedByTs(a) && SortedByTs(b)
    requires (forall x :: x in a ==> x.ts <= t) && (forall y :: y in b ==> y.ts > t)
    ensures SortedByTs(a + b)
  {
    forall i, j | 0 <= i < j < |a + b| ensures (a + b)[i].ts <= (a + b)[j].ts {
      if i < |a| && j >= |a| {
        assert (a + b)[i] in a;
        assert (a + b)[j] in b;
      }
    }
  }

  /** Sorting and then cutting at t gives a sorted release part not newer than t and a
      sorted kept part newer than t, which together hold every row once. */
  lemma ReleaseSplit(s: seq<Row>, t: real, sorted: seq<Row>, ordered: seq<Row>, kept: seq<Row>)
    requires sorted == SortByTs(s)
    requires ordered == Filter(sorted, OlderMask(t)) && kept == Filter(sorted, NewerMask(t))
    ensures SortedByTs(ordered) && SortedByTs(kept) && SortedByTs(ordered + kept)
    ensures forall x :: x in ordered ==> x.ts <= t
    ensures forall x :: multiset(ordered)[x] == if x.ts <= t then multiset(s)[x] else 0
    ensures forall x :: multiset(kept)[x] == if x.ts > t then multiset(s)[x] else 0
    ensures multiset(ordered) + multiset(kept) == multiset(s)
  {
    SortByTsCorrect(s);
    FilterKeepsSorted(sorted, NewerMask(t));
    FilterKeepsSorted(sorted, OlderMask(t));
    FilterCount(sorted, NewerMask(t));
    FilterCount(sorted, OlderMask(t));
    ConcatSorted(ordered, kept, t);
    assert forall x :: (multiset(ordered) + multiset(kept))[x] == multiset(s)[x];
  }

  class Reorderer {
    /** keptArr: rows newer than everything released so far, sorted by timestamp. */
    var kept: seq<Row>

    ghost predicate Valid()
      reads this
    {
      SortedByTs(kept)
    }

    constructor ()
      ensures Valid() && kept == []
    {
      kept := [];
    }

    /** Releases, sorted, every buffered or arriving row not newer than the previous maximum
        (0 on the first call) and keeps the rest; nothing is lost or invented. */
    method Reorder(spkArr: seq<Row>) returns (ordered: seq<Row>)
      requires Valid()
      modifies this
      ensures Valid()
      ensures SortedByTs(ordered) && SortedByTs(ordered + kept)
      ensures forall x :: x in ordered ==> x.ts <= KeptMax(old(kept))
      ensures forall x :: multiset(ordered)[x] ==
                if x.ts <= KeptMax(old(kept)) then multiset(old(kept) + spkArr)[x] else 0
      ensures forall x :: multiset(kept)[x] ==
                if x.ts > KeptMax(old(kept)) then multiset(old(kept) + spkArr)[x] else 0
      ensures multiset(ordered) + multiset(kept) == multiset(old(kept) + spkArr)
    {
      var maxTS := KeptMax(kept);
      var newArr := kept + spkArr;
      ordered := [];
      if |newArr| > 0 {
        var sorted := SortByTs(newArr);
        var newer := Filter(sorted, NewerMask(maxTS));
        ordered := Filter(sorted, OlderMask(maxTS));
        ReleaseSplit(newArr, maxTS, sorted, ordered, newer);
        kept := newer;
      } else {
        assert kept == [];
      }
    }
  }
}
