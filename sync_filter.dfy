/** nrn_py_filterSyncSpk: removal of synchronous spikes.
    Mode 1 drops every row that shares its timestamp with a neighbouring row; mode 2 cuts time
    into sync windows [SYNC_WND*i, SYNC_WND*(i+1)) and emits the rows that are alone in a
    completed window, carrying the rows of the still open window to the next call. */
module SyncFilter {
  import opened SpikeRows

  /** syncWnd, in seconds. */
  const SYNC_WND: real := 0.001

  // ----- mode 1: identical timestamps -----

  /** Row i differs in timestamp from its predecessor and from its successor (where they exist). */
  predicate Isolated(s: seq<Row>, i: int)
    requires 0 <= i < |s|
  {
    (i == 0 || s[i - 1].ts != s[i].ts) && (i == |s| - 1 || s[i + 1].ts != s[i].ts)
  }

  /** The isolated rows among the first n rows, in input order. */
  function IsolatedPrefix(s: seq<Row>, n: int): seq<Row>
    requires 0 <= n <= |s|
  {
    if n == 0 then [] else IsolatedPrefix(s, n - 1) + (if Isolated(s, n - 1) then [s[n - 1]] else [])
  }

  function IsolatedRows(s: seq<Row>): seq<Row>
  {
    IsolatedPrefix(s, |s|)
  }

  /** Mode 1: one pass with a `sync` flag recording whether the previous row matched its own predecessor. */
  method FilterIdentical(spkArr: seq<Row>) returns (out: seq<Row>)
    ensures out == IsolatedRows(spkArr)
  {
    out := [];
    var row := |spkArr|;
    if row > 0 {
      if row == 1 {
        out := spkArr;
        assert Isolated(spkArr, 0);
        assert IsolatedPrefix(spkArr, 1) == IsolatedPrefix(spkArr, 0) + [spkArr[0]];
      } else {
        var sync := 0;
        var base := spkArr[0];
        var ii := 1;
        while ii < row
          invariant 1 <= ii <= row
          invariant base == spkArr[ii - 1]
          invariant sync == if ii >= 2 && spkArr[ii - 2].ts == spkArr[ii - 1].ts then 1 else 0
          invariant out == IsolatedPrefix(spkArr, ii - 1)
        {
          if base.ts != spkArr[ii].ts {
            if sync == 0 {
              out := out + [base];
            } else {
              sync := 0;
            }
          } else {
            sync := 1;
          }
          base := spkArr[ii];
          ii := ii + 1;
        }
        if sync == 0 {
          out := out + [base];
        }
        assert IsolatedPrefix(spkArr, row) == IsolatedPrefix(spkArr, row - 1) + (if Isolated(spkArr, row - 1) then [spkArr[row - 1]] else []);
      }
    }
  }

  /** Every isolated row is emitted. */
  lemma {:induction false} IsolatedIsKept(s: seq<Row>, n: int, i: int)
    requires 0 <= i < n <= |s| && Isolated(s, i)
    ensures s[i] in IsolatedPrefix(s, n)
    decreases n
  {
    if i < n - 1 {
      IsolatedIsKept(s, n - 1, i);
    }
  }

  /** Only isolated rows are emitted. */
  lemma {:induction false} KeptIsIsolated(s: seq<Row>, n: int, x: Row)
    requires 0 <= n <= |s| && x in IsolatedPrefix(s, n)
    ensures exists i :: 0 <= i < n && s[i] == x && Isolated(s, i)
    decreases n
  {
    if n > 0 {
      if x in IsolatedPrefix(s, n - 1) {
        KeptIsIsolated(s, n - 1, x);
      } else {
        assert s[n - 1] == x && Isolated(s, n - 1);
      }
    }
  }

  /** The output of mode 1 is an order-preserving subsequence of its input. */
  lemma {:induction false} IsolatedPrefixIsSubseq(s: seq<Row>, n: int)
    requires 0 <= n <= |s|
    ensures SubseqOf(IsolatedPrefix(s, n), s[..n])
    decreases n
  {
    if n > 0 {
      IsolatedPrefixIsSubseq(s, n - 1);
      assert s[..n] == s[..n - 1] + [s[n - 1]];
      if Isolated(s, n - 1) {
        assert IsolatedPrefix(s, n) == IsolatedPrefix(s, n - 1) + [s[n - 1]];
        SubseqSnoc(IsolatedPrefix(s, n - 1), s[..n - 1], s[n - 1]);
      } else {
        assert IsolatedPrefix(s, n) == IsolatedPrefix(s, n - 1);
        SubseqExtend(IsolatedPrefix(s, n - 1), s[..n - 1], [s[n - 1]]);
      }
    }
  }

  lemma {:induction false} SubseqExtend(r: seq<Row>, s: seq<Row>, t: seq<Row>)
    requires SubseqOf(r, s)
    ensures SubseqOf(r, s + t)
    decreases |s|
  {
    if r != [] {
      assert s != [];
      assert (s + t)[0] == s[0] && (s + t)[1..] == s[1..] + t;
      if r[0] == s[0] && SubseqOf(r[1..], s[1..]) {
        SubseqExtend(r[1..], s[1..], t);
      } else {
        SubseqExtend(r, s[1..], t);
      }
    }
  }

  lemma {:induction false} SubseqSnoc(r: seq<Row>, s: seq<Row>, x: Row)
    requires SubseqOf(r, s)
    ensures SubseqOf(r + [x], s + [x])
    decreases |s|
  {
    if r == [] {
      SubseqSelf([x]);
      SubseqDropFront([x], s, [x]);
      assert r + [x] == [x];
    } else {
      assert s != [];
      assert (r + [x])[0] == r[0] && (r + [x])[1..] == r[1..] + [x];
      assert (s + [x])[0] == s[0] && (s + [x])[1..] == s[1..] + [x];
      if r[0] == s[0] && SubseqOf(r[1..], s[1..]) {
        SubseqSnoc(r[1..], s[1..], x);
      } else {
        SubseqSnoc(r, s[1..], x);
      }
    }
  }

  lemma {:induction false} SubseqSelf(s: seq<Row>)
    ensures SubseqOf(s, s)
    decreases |s|
  {
    if s != [] {
      SubseqSelf(s[1..]);
    }
  }

  /** A subsequence of t is a subsequence of anything ending in t. */
  lemma {:induction false} SubseqDropFront(r: seq<Row>, p: seq<Row>, t: seq<Row>)
    requires SubseqOf(r, t)
    ensures SubseqOf(r, p + t)
    decreases |p|
  {
    if p != [] {
      assert (p + t)[1..] == p[1..] + t;
      SubseqDropFront(r, p[1..], t);
    } else {
      assert p + t == t;
    }
  }

  // ----- mode 2: sync windows -----

  /** The rows of s that fall in sync window i. */
  function Window(s: seq<Row>, i: int): seq<Row>
  {
    Filter(AtLeast(s, SYNC_WND * i as real), BelowMask(SYNC_WND * (i + 1) as real))
  }

  /** The rows that are alone in their window, for the windows lo..hi-1, window by window. */
  function LoneWindows(s: seq<Row>, lo: int, hi: int): seq<Row>
    decreases hi - lo
  {
    if hi <= lo then [] else LoneWindows(s, lo, hi - 1) + (if |Window(s, hi - 1)| == 1 then Window(s, hi - 1) else [])
  }

  lemma WindowMembers(s: seq<Row>, i: int)
    ensures forall x :: x in Window(s, i) <==> x in s && SYNC_WND * i as real <= x.ts < SYNC_WND * (i + 1) as real
  {
    FilterCount(s, AtLeastMask(SYNC_WND * i as real));
    FilterCount(AtLeast(s, SYNC_WND * i as real), BelowMask(SYNC_WND * (i + 1) as real));
  }

  /** Mode 2 emits a row only when it is the single row of one of the closed windows. */
  lemma {:induction false} LoneWindowsOnlyLone(s: seq<Row>, lo: int, hi: int, x: Row)
    requires x in LoneWindows(s, lo, hi)
    ensures exists i :: (lo <= i < hi && Window(s, i) == [x])
    decreases hi - lo
  {
    if hi > lo {
      if x in LoneWindows(s, lo, hi - 1) {
        LoneWindowsOnlyLone(s, lo, hi - 1, x);
      } else {
        assert Window(s, hi - 1) == [x];
      }
    }
  }

  /** ... and every such row is emitted. */
  lemma {:induction false} LoneWindowsComplete(s: seq<Row>, lo: int, hi: int, i: int)
    requires lo <= i < hi && |Window(s, i)| == 1
    ensures Window(s, i)[0] in LoneWindows(s, lo, hi)
    decreases hi - lo
  {
    if i < hi - 1 {
      LoneWindowsComplete(s, lo, hi - 1, i);
    }
  }

  /** The search of nrn_py_filterSyncSpk for the window holding maxTS, starting after window j. */
  method FindWindow(maxTS: real, j: int) returns (newJ: int)
    requires maxTS >= SYNC_WND * j as real
    ensures newJ >= j + 1
    ensures SYNC_WND * (newJ - 1) as real <= maxTS < SYNC_WND * newJ as real
  {
    newJ := j + 1;
    while !(SYNC_WND * (newJ - 1) as real <= maxTS && maxTS < SYNC_WND * newJ as real)
      invariant newJ >= j + 1
      invariant SYNC_WND * (newJ - 1) as real <= maxTS
      decreases (maxTS * 1000.0).Floor - newJ + 1
    {
      newJ := newJ + 1;
    }
  }

  /** The emission loop: the rows still to inspect are cut down window by window, and a window
      holding exactly one row emits it. */
  method EmitLoneWindows(newArr: seq<Row>, j0: int, j1: int) returns (out: seq<Row>)
    requires j0 <= j1
    ensures out == LoneWindows(newArr, j0, j1)
  {
    out := [];
    var arr := newArr;
    var ii := j0;
    while ii < j1
      invariant j0 <= ii <= j1
      invariant AtLeast(arr, SYNC_WND * ii as real) == AtLeast(newArr, SYNC_WND * ii as real)
      invariant out == LoneWindows(newArr, j0, ii)
    {
      arr := AtLeast(arr, SYNC_WND * ii as real);
      var temp := Filter(arr, BelowMask(SYNC_WND * (ii + 1) as real));
      assert temp == Window(newArr, ii);
      if |temp| == 1 {
        out := out + temp;
      }
      AtLeastTwice(newArr, SYNC_WND * ii as real, SYNC_WND * (ii + 1) as real);
      AtLeastTwice(arr, SYNC_WND * ii as real, SYNC_WND * (ii + 1) as real);
      ii := ii + 1;
    }
  }

  lemma AtLeastBound(s: seq<Row>, t: real)
    ensures forall r :: r in AtLeast(s, t) ==> r.ts >= t
  {
    FilterCount(s, AtLeastMask(t));
  }

  /** The transition of the mode-2 state (FRem, jValue) and its output on input spkArr. */
  ghost predicate WindowStep(fRem0: seq<Row>, j0: int, spkArr: seq<Row>, fRem1: seq<Row>, j1: int, out: seq<Row>)
  {
    var all := fRem0 + spkArr;
    if all == [] then fRem1 == [] && j1 == j0 && out == []
    else
      && j1 >= j0
      && SYNC_WND * j1 as real <= all[|all| - 1].ts < SYNC_WND * (j1 + 1) as real
      && fRem1 == AtLeast(all, SYNC_WND * j1 as real)
      && out == LoneWindows(all, j0, j1)
  }

  class SyncWindowFilter {
    /** FRem: rows of the window that was still open at the end of the last call. */
    var fRem: seq<Row>
    /** jValue: index of that open window. */
    var jValue: int

    ghost predicate Valid()
      reads this
    {
      jValue >= 0 && forall r :: r in fRem ==> r.ts >= SYNC_WND * jValue as real
    }

    constructor ()
      ensures Valid() && fRem == [] && jValue == 0
    {
      fRem := [];
      jValue := 0;
    }

    /** Mode 2. The search for the window of the last row only ends when that row is not older
        than the open window, hence the second requires. */
    method FilterWindows(spkArr: seq<Row>) returns (out: seq<Row>)
      requires Valid()
      requires spkArr != [] ==> spkArr[|spkArr| - 1].ts >= SYNC_WND * jValue as real
      modifies this
      ensures Valid()
      ensures WindowStep(old(fRem), old(jValue), spkArr, fRem, jValue, out)
    {
      out := [];
      var newArr := fRem + spkArr;
      var row := |newArr|;
      if row > 0 {
        var maxTS := newArr[row - 1].ts;
        assert maxTS >= SYNC_WND * jValue as real by {
          if spkArr == [] { assert newArr[row - 1] in fRem; }
        }
        var newJ := FindWindow(maxTS, jValue);
        var kept := AtLeast(newArr, SYNC_WND * (newJ - 1) as real);
        AtLeastBound(newArr, SYNC_WND * (newJ - 1) as real);
        out := EmitLoneWindows(newArr, jValue, newJ - 1);
        fRem, jValue := kept, newJ - 1;
      }
    }

    /** nrn_py_filterSyncSpk: dispatch on the configured mode; any other mode emits nothing. */
    method FilterSyncSpk(mode: int, spkArr: seq<Row>) returns (out: seq<Row>)
      requires Valid()
      requires mode == 2 && spkArr != [] ==> spkArr[|spkArr| - 1].ts >= SYNC_WND * jValue as real
      modifies this
      ensures Valid()
      ensures mode == 1 ==> out == IsolatedRows(spkArr) && fRem == old(fRem) && jValue == old(jValue)
      ensures mode == 2 ==> WindowStep(old(fRem), old(jValue), spkArr, fRem, jValue, out)
      ensures mode != 1 && mode != 2 ==> out == [] && fRem == old(fRem) && jValue == old(jValue)
    {
      if mode == 1 {
        out := FilterIdentical(spkArr);
      } else if mode == 2 {
        out := FilterWindows(spkArr);
      } else {
        out := [];
      }
    }
  }
}
