/** nrn_py_binSpk: multi-unit activity per channel over a 100 ms bin. Rows at or after the end
    of the bin are held back for the next call; the counts accumulate across calls until the
    bin is complete and something was counted. */
module SpikeBinning {
  import opened SpikeRows

  /** binWnd, in milliseconds. */
  const BIN_WND: real := 100.0
  /** The per-channel array has CH_END + 1 slots; the last one is never written. */
  const SLOTS: int := CH_END + 1

  /** A row that contributes to the bin [lo, hi): inside it, on a recording channel, of a valid unit. */
  predicate Countable(lo: real, hi: real, r: Row)
  {
    lo <= r.ts < hi && CH_START <= r.channel <= CH_END && UNIT_START <= r.unit <= UNIT_END
  }

  function CountableMask(lo: real, hi: real): Row -> bool { (r: Row) => Countable(lo, hi, r) }

  function Zeros(): seq<int> { seq(SLOTS, _ => 0) }

  /** Spike counts per channel: slot ch - 1 counts the rows on channel ch. */
  function Histogram(rows: seq<Row>): (h: seq<int>)
    ensures |h| == SLOTS
  {
    if rows == [] then Zeros()
    else
      var h0 := Histogram(rows[..|rows| - 1]);
      var ch := rows[|rows| - 1].channel;
      if CH_START <= ch <= CH_END then h0[ch - 1 := h0[ch - 1] + 1] else h0
  }

  function ChannelMask(ch: int): Row -> bool { (r: Row) => r.channel == ch }

  function Sum(s: seq<int>): int
  {
    if s == [] then 0 else Sum(s[..|s| - 1]) + s[|s| - 1]
  }

  /** Slot ch - 1 of the histogram is the number of rows on channel ch, and the spare slot stays 0. */
  lemma {:induction false} HistogramCounts(rows: seq<Row>)
    ensures forall ch :: CH_START <= ch <= CH_END ==> Histogram(rows)[ch - 1] == |Filter(rows, ChannelMask(ch))|
    ensures Histogram(rows)[SLOTS - 1] == 0
    decreases |rows|
  {
    if rows != [] {
      var init := rows[..|rows| - 1];
      var last := rows[|rows| - 1];
      HistogramCounts(init);
      assert rows == init + [last];
      forall ch | CH_START <= ch <= CH_END
        ensures Histogram(rows)[ch - 1] == |Filter(rows, ChannelMask(ch))|
      {
        FilterAppend(init, [last], ChannelMask(ch));
        assert Filter([last], ChannelMask(ch)) == (if last.channel == ch then [last] else []) + Filter([last][1..], ChannelMask(ch));
        assert [last][1..] == [];
      }
    }
  }

  lemma SumSet(s: seq<int>, i: int, v: int)
    requires 0 <= i < |s|
    ensures Sum(s[i := v]) == Sum(s) - s[i] + v
    decreases |s|
  {
    if i < |s| - 1 {
      assert s[i := v][..|s| - 1] == s[..|s| - 1][i := v];
      SumSet(s[..|s| - 1], i, v);
    } else {
      assert s[i := v][..|s| - 1] == s[..|s| - 1];
    }
  }

  lemma {:induction false} SumZeros(n: nat)
    ensures Sum(seq(n, _ => 0)) == 0
  {
    if n > 0 {
      assert seq(n, _ => 0)[..n - 1] == seq(n - 1, _ => 0);
      SumZeros(n - 1);
    }
  }

  /** Every row on a recording channel is counted exactly once. */
  lemma {:induction false} HistogramTotal(rows: seq<Row>)
    requires forall r :: r in rows ==> CH_START <= r.channel <= CH_END
    ensures Sum(Histogram(rows)) == |rows|
    decreases |rows|
  {
    if rows == [] {
      SumZeros(SLOTS);
    } else {
      var init := rows[..|rows| - 1];
      assert forall r :: r in init ==> r in rows;
      HistogramTotal(init);
      var ch := rows[|rows| - 1].channel;
      SumSet(Histogram(init), ch - 1, Histogram(init)[ch - 1] + 1);
    }
  }

  class Binner {
    /** binnedMsg: counts accumulated since the last completed bin. */
    var binned: array<int>
    /** dataHave: how many rows those counts hold. */
    var dataHave: int
    /** BRem: rows at or after the end of the last bin, kept for the next one. */
    var bRem: seq<Row>
    /** The rows behind the current counts. */
    ghost var pending: seq<Row>

    ghost predicate Valid()
      reads this, binned
    {
      && binned.Length == SLOTS
      && binned[..] == Histogram(pending)
      && dataHave == |pending|
      && forall r :: r in pending ==> CH_START <= r.channel <= CH_END
    }

    constructor ()
      ensures Valid() && bRem == [] && pending == []
    {
      binned := new int[SLOTS](_ => 0);
      dataHave := 0;
      bRem := [];
      pending := [];
      new;
      assert binned[..] == Zeros();
    }

    /** The counting loop: the countable rows among `rows` join the accumulated counts. */
    method Count(rows: seq<Row>, lo: real, hi: real)
      requires Valid()
      modifies this`dataHave, this`pending, binned
      ensures Valid()
      ensures pending == old(pending) + Filter(rows, CountableMask(lo, hi))
    {
      var mask := CountableMask(lo, hi);
      var j := 0;
      while j < |rows|
        invariant 0 <= j <= |rows|
        invariant pending == old(pending) + Filter(rows[..j], mask)
        invariant Valid()
      {
        var r := rows[j];
        if lo <= r.ts && r.ts < hi {
          if CH_START <= r.channel && r.channel <= CH_END {
            if UNIT_START <= r.unit && r.unit <= UNIT_END {
              dataHave := dataHave + 1;
              binned[r.channel - 1] := binned[r.channel - 1] + 1;
              pending := pending + [r];
            }
          }
        }
        assert rows[..j + 1] == rows[..j] + [r];
        FilterAppend(rows[..j], [r], mask);
        assert Filter([r], mask) == (if mask(r) then [r] else []) + Filter([r][1..], mask);
        assert [r][1..] == [];
        j := j + 1;
      }
      assert rows[..j] == rows;
    }

    /** Counts the rows of BRem ++ spkArr that fall in the bin starting at binStart (ms).
        The bin is complete when some row lies beyond it or on a timeout; a complete bin with
        counts hands them over and starts again from zero, otherwise the result is all zeros. */
    method BinSpk(spkArr: seq<Row>, binStart: real, timeoutFlag: int) returns (mua: seq<int>, complete: bool)
      requires Valid()
      modifies this, binned
      ensures Valid()
      ensures var hi := (binStart + BIN_WND) / 1000.0;
              bRem == AtLeast(old(bRem) + spkArr, hi)
      ensures complete <==> |bRem| > 0 || timeoutFlag == 1
      ensures var lo := binStart / 1000.0;
              var hi := (binStart + BIN_WND) / 1000.0;
              var total := old(pending) + Filter(Below(old(bRem) + spkArr, hi), CountableMask(lo, hi));
              if complete && |total| > 0 then mua == Histogram(total) && pending == []
              else mua == Zeros() && pending == total
    {
      mua := Zeros();
      complete := false;
      var hi := (binStart + BIN_WND) / 1000.0;
      var lo := binStart / 1000.0;
      var newArr := bRem + spkArr;
      bRem := AtLeast(newArr, hi);
      var below := Below(newArr, hi);
      Count(below, lo, hi);
      if |bRem| > 0 || timeoutFlag == 1 {
        complete := true;
        if dataHave != 0 {
          mua := binned[..];
          dataHave := 0;
          binned := new int[SLOTS](_ => 0);
          pending := [];
          assert binned[..] == Zeros();
        }
      }
    }
  }

  /** A handed-over bin holds every counted spike: its counts add up to the number of rows counted. */
  lemma HandedOverBinIsComplete(total: seq<Row>, lo: real, hi: real)
    requires forall r :: r in total ==> Countable(lo, hi, r)
    ensures Sum(Histogram(total)) == |total|
    ensures Histogram(total)[SLOTS - 1] == 0
  {
    HistogramTotal(total);
    HistogramCounts(total);
  }
}
