/** The per-message part of nrn_py_interfaceNsloc: valid spikes of a decoded message are packed
    as (channel, unit, timestamp) triples into the reusable list `spk` and handed to the latency
    queue in chunks of at most SPKNUM, each with the next serial number; a timeout message with
    no rows produces a chunk without spikes that advances the last end timestamp by TIMEOUT. */
module NslocChunks {
  import opened SpikeRows
  import opened LatencyQueue

  /** TIMEOUT, in seconds. */
  const TIMEOUT: real := 0.02

  /** A row the builder packs: a spike on a recording channel with a valid unit. */
  predicate ValidSpike(r: Row)
  {
    r.kind == 1 && CH_START <= r.channel <= CH_END && UNIT_START <= r.unit <= UNIT_END
  }

  /** The chunks laid end to end. */
  function Flatten(cs: seq<seq<Row>>): seq<Row>
  {
    if cs == [] then [] else Flatten(cs[..|cs| - 1]) + cs[|cs| - 1]
  }

  /** The first |chunk| triples of spk hold the rows of chunk. */
  ghost predicate Packed(spk: seq<real>, chunk: seq<Row>)
  {
    && 3 * |chunk| <= |spk|
    && forall i :: 0 <= i < |chunk| ==>
         spk[3 * i] == chunk[i].channel as real && spk[3 * i + 1] == chunk[i].unit as real && spk[3 * i + 2] == chunk[i].ts
  }

  /** A queue item carrying chunk under the given serial number. */
  ghost predicate Encodes(item: seq<real>, chunk: seq<Row>, serial: int)
  {
    && |item| == SPKSZ + 1
    && |chunk| <= SPKNUM
    && item[SPKSZ - 1] == |chunk| as real
    && item[SPKSZ] == serial as real
    && Packed(item, chunk)
  }

  /** The item queued for a timeout message: no spikes, slot 2 holds the previous end timestamp
      and slot SPKSZ - 2 that timestamp plus TIMEOUT. */
  ghost predicate TimeoutItem(item: seq<real>, lastEnd: real, serial: int)
  {
    Encodes(item, [], serial) && item[2] == lastEnd && item[SPKSZ - 2] == lastEnd + TIMEOUT
  }

  /** The queue time of a chunk with spikes is its last spike's timestamp in milliseconds. */
  lemma ChunkItemTime(item: seq<real>, chunk: seq<Row>, serial: int)
    requires Encodes(item, chunk, serial) && chunk != []
    ensures WellFormed(false, item)
    ensures ItemTime(false, item) == 1000.0 * chunk[|chunk| - 1].ts
  {
    assert item[SPKSZ - 1].Floor == |chunk|;
  }

  /** The queue time of a timeout item is the advanced end timestamp in milliseconds. */
  lemma TimeoutItemTime(item: seq<real>, lastEnd: real, serial: int)
    requires TimeoutItem(item, lastEnd, serial)
    ensures WellFormed(false, item)
    ensures ItemTime(false, item) == 1000.0 * (lastEnd + TIMEOUT)
  {
    assert item[SPKSZ - 1].Floor == 0;
  }

  /** Python's reading of a list index: a negative index counts from the end. */
  function PyIndex(len: int, i: int): int
  {
    if i < 0 then len + i else i
  }

  /** lastEndTS as the source computes it when a chunk is sent: the timestamp slot of the last
      packed triple, read through Python indexing, so that a chunk of 0 spikes reads slot -1. */
  function ChunkEndTsAsWritten(spk: seq<real>, dataHave: int): real
    requires |spk| == SPKSZ + 1 && 0 <= dataHave <= SPKNUM
  {
    spk[PyIndex(|spk|, (dataHave - 1) * 3 + 2)]
  }

  /** With no spike packed, the as-written rule reads the serial-number slot, which still holds
      the previous serial number: after one chunk, a message whose only row is not a spike sets
      the end timestamp to 1 second, whatever the stream's time. */
  lemma EmptyChunkEndIsSerial(spk: seq<real>)
    requires |spk| == SPKSZ + 1 && spk[SPKSZ] == 1.0 && spk[2] == 100.0
    ensures ChunkEndTsAsWritten(spk, 0) == 1.0
    ensures ChunkEndTs(spk, 0, 100.0) == 100.0
  {
  }

  /** lastEndTS, corrected: the last packed timestamp, or the previous value when nothing was packed. */
  function ChunkEndTs(spk: seq<real>, dataHave: int, lastEndTS: real): real
    requires |spk| == SPKSZ + 1 && 0 <= dataHave <= SPKNUM
  {
    if dataHave == 0 then lastEndTS else spk[(dataHave - 1) * 3 + 2]
  }

  /** The corrected end timestamp of a sent chunk is the timestamp of its last spike, and an
      empty chunk leaves it alone; the as-written rule agrees whenever the chunk holds a spike. */
  lemma ChunkEndTsOfChunk(spk: seq<real>, chunk: seq<Row>, lastEndTS: real)
    requires |spk| == SPKSZ + 1 && |chunk| <= SPKNUM && Packed(spk, chunk)
    ensures chunk != [] ==> ChunkEndTs(spk, |chunk|, lastEndTS) == chunk[|chunk| - 1].ts
    ensures chunk != [] ==> ChunkEndTsAsWritten(spk, |chunk|) == chunk[|chunk| - 1].ts
    ensures chunk == [] ==> ChunkEndTs(spk, |chunk|, lastEndTS) == lastEndTS
  {
  }

  /** The timestamp of the last row, or `otherwise` when there is none. */
  function LastTs(rows: seq<Row>, otherwise: real): real
  {
    if rows == [] then otherwise else rows[|rows| - 1].ts
  }

  lemma {:induction false} FlattenSnoc(cs: seq<seq<Row>>, c: seq<Row>)
    ensures Flatten(cs + [c]) == Flatten(cs) + c
  {
    assert (cs + [c])[..|cs + [c]| - 1] == cs;
  }

  class NslocServer {
    /** spk: the reusable item list, SPKNUM triples, the spike count and the serial number. */
    var spk: array<real>
    /** SN: the serial number of the next item, from 1. */
    var sn: int
    /** lastEndTS: the timestamp (s) the next timeout item starts from. */
    var lastEndTS: real
    const queue: DeliveryQueue
    /** Every chunk sent so far and the item that carried it. */
    ghost var chunks: seq<seq<Row>>
    ghost var fed: seq<seq<real>>

    ghost predicate Valid()
      reads this, spk
    {
      && spk.Length == SPKSZ + 1
      && !queue.isDp
      && IsCount(spk[SPKSZ - 1])
      && sn == |fed| + 1
      && spk[SPKSZ] == (sn - 1) as real
      && |chunks| == |fed|
      && forall k :: 0 <= k < |fed| ==> Encodes(fed[k], chunks[k], k + 1)
    }

    constructor (queue: DeliveryQueue)
      requires !queue.isDp
      ensures Valid() && this.queue == queue
      ensures sn == 1 && lastEndTS == 0.0 && chunks == [] && fed == []
    {
      spk := new real[SPKSZ + 1](_ => 0.0);
      sn := 1;
      lastEndTS := 0.0;
      this.queue := queue;
      chunks := [];
      fed := [];
    }

    /** Writes row r as triple number dataHave. */
    method Pack(r: Row, dataHave: int, ghost cur: seq<Row>)
      requires Valid() && 0 <= dataHave < SPKNUM && |cur| == dataHave && Packed(spk[..], cur)
      modifies spk
      ensures Valid() && Packed(spk[..], cur + [r])
    {
      spk[dataHave * 3] := r.channel as real;
      spk[dataHave * 3 + 1] := r.unit as real;
      spk[dataHave * 3 + 2] := r.ts;
      assert forall i :: 0 <= i < |cur| ==> (cur + [r])[i] == cur[i];
    }

    /** Sends the chunk packed in the first dataHave triples under the next serial number. */
    method Send(dataHave: int, ghost cur: seq<Row>)
      requires Valid() && 0 <= dataHave <= SPKNUM && |cur| == dataHave && Packed(spk[..], cur)
      modifies spk, this`sn, this`lastEndTS, this`chunks, this`fed, queue`items
      ensures Valid()
      ensures chunks == old(chunks) + [cur] && |fed| == |old(fed)| + 1 && fed == old(fed) + [fed[|fed| - 1]]
      ensures WellFormed(false, fed[|fed| - 1])
      ensures queue.items == Admit(old(queue.items), fed[|fed| - 1], ItemTime(false, fed[|fed| - 1]), queue.simTime)
      ensures lastEndTS == LastTs(cur, old(lastEndTS))
    {
      spk[SPKSZ - 1] := dataHave as real;
      ChunkEndTsOfChunk(spk[..], cur, lastEndTS);
      lastEndTS := ChunkEndTs(spk[..], dataHave, lastEndTS);
      spk[SPKSZ] := sn as real;
      sn := sn + 1;
      var item := spk[..];
      assert Encodes(item, cur, sn - 1);
      assert item[SPKSZ - 1].Floor == dataHave;
      queue.Feed(item);
      fed := fed + [item];
      chunks := chunks + [cur];
    }

    /** The timeout message: a chunk without spikes whose time continues from lastEndTS. */
    method SendTimeout()
      requires Valid()
      modifies spk, this`sn, this`lastEndTS, this`chunks, this`fed, queue`items
      ensures Valid()
      ensures chunks == old(chunks) + [[]] && |fed| == |old(fed)| + 1 && fed == old(fed) + [fed[|fed| - 1]]
      ensures WellFormed(false, fed[|fed| - 1])
      ensures TimeoutItem(fed[|fed| - 1], old(lastEndTS), |fed|)
      ensures queue.items == Admit(old(queue.items), fed[|fed| - 1], ItemTime(false, fed[|fed| - 1]), queue.simTime)
      ensures lastEndTS == old(lastEndTS) + TIMEOUT
    {
      spk[2] := lastEndTS;
      spk[SPKSZ - 2] := lastEndTS + TIMEOUT;
      spk[SPKSZ - 1] := 0.0;
      spk[SPKSZ] := sn as real;
      lastEndTS := lastEndTS + TIMEOUT;
      sn := sn + 1;
      var item := spk[..];
      assert item[SPKSZ - 1].Floor == 0;
      queue.Feed(item);
      fed := fed + [item];
      chunks := chunks + [[]];
    }

    /** One row of the message: pack it if it is a valid spike, then send the chunk when it is
        full or the row is the last one. */
    method Advance(r: Row, last: bool, dataHave: int, ghost cur: seq<Row>)
      returns (newHave: int, ghost newCur: seq<Row>, ghost sentIt: bool, ghost item: seq<real>)
      requires Valid() && 0 <= dataHave < SPKNUM && |cur| == dataHave && Packed(spk[..], cur)
      modifies spk, this`sn, this`lastEndTS, this`chunks, this`fed, queue`items
      ensures Valid() && 0 <= newHave < SPKNUM && |newCur| == newHave && Packed(spk[..], newCur)
      ensures Advanced(r, last, cur, sentIt, newCur, item, old(queue.items), queue.items, queue.simTime, old(lastEndTS), lastEndTS)
      ensures chunks == old(chunks) + (if sentIt then [cur + (if ValidSpike(r) then [r] else [])] else [])
      ensures fed == old(fed) + (if sentIt then [item] else [])
    {
      newHave := dataHave;
      newCur := cur;
      if r.kind == 1 && CH_START <= r.channel && r.channel <= CH_END && UNIT_START <= r.unit && r.unit <= UNIT_END {
        Pack(r, newHave, newCur);
        newHave := newHave + 1;
        newCur := newCur + [r];
      } else {
        assert cur + [] == cur;
      }
      assert newCur == cur + (if ValidSpike(r) then [r] else []);
      sentIt := false;
      item := [];
      if newHave == SPKNUM || last {
        ghost var fed0 := fed;
        Send(newHave, newCur);
        assert fed == fed0 + [fed[|fed| - 1]];
        item := fed[|fed| - 1];
        newHave := 0;
        newCur := [];
        sentIt := true;
      }
    }

    /** One decoded message. With no rows and the timeout flag set, a timeout item is queued;
        otherwise the valid spikes are packed in input order and a chunk is sent whenever
        SPKNUM spikes are held and after the last row, even when it holds no spike. */
    method OnMessage(rows: seq<Row>, timeoutFlag: int)
      requires Valid()
      modifies spk, this`sn, this`lastEndTS, this`chunks, this`fed, queue`items
      ensures Valid()
      ensures |old(fed)| <= |fed| && fed[..|old(fed)|] == old(fed) && chunks[..|old(chunks)|] == old(chunks)
      ensures queue.items == AdmitAll(false, old(queue.items), fed[|old(fed)|..], queue.simTime)
      ensures rows == [] && timeoutFlag == 1 ==>
                chunks == old(chunks) + [[]] && TimeoutItem(fed[|fed| - 1], old(lastEndTS), |fed|)
                && lastEndTS == old(lastEndTS) + TIMEOUT
      ensures rows == [] && timeoutFlag != 1 ==> fed == old(fed) && lastEndTS == old(lastEndTS)
      ensures rows != [] ==>
                var sent := chunks[|old(chunks)|..];
                var valid := Filter(rows, ValidSpike);
                && |sent| >= 1
                && Flatten(sent) == valid
                && (forall k :: 0 <= k < |sent| - 1 ==> |sent[k]| == SPKNUM)
                && (sent[|sent| - 1] == [] <==> !ValidSpike(rows[|rows| - 1]) && |valid| % SPKNUM == 0)
                && ChunkedInto(sent, valid)
                && lastEndTS == LastTs(valid, old(lastEndTS))
    {
      if |rows| == 0 && timeoutFlag == 1 {
        SendTimeout();
        assert fed[|old(fed)|..] == [fed[|fed| - 1]];
        AdmitAllSnoc(false, old(queue.items), [], fed[|fed| - 1], queue.simTime);
        assert [] + [fed[|fed| - 1]] == [fed[|fed| - 1]];
      } else {
        ghost var sent, newFed := PackMessage(rows);
        assert chunks[|old(chunks)|..] == sent;
        assert fed[|old(fed)|..] == newFed;
        assert rows[..|rows|] == rows;
        if rows == [] {
          assert Flatten(sent) == [];
        } else {
          assert chunks[|chunks| - 1] == sent[|sent| - 1];
        }
      }
    }

    /** The loop over the rows of a message. */
    method PackMessage(rows: seq<Row>) returns (ghost sent: seq<seq<Row>>, ghost newFed: seq<seq<real>>)
      requires Valid()
      modifies spk, this`sn, this`lastEndTS, this`chunks, this`fed, queue`items
      ensures Valid()
      ensures chunks == old(chunks) + sent && fed == old(fed) + newFed
      ensures Progress(rows, |rows|, [], sent, newFed, old(queue.items), queue.items, queue.simTime, old(lastEndTS), lastEndTS)
      ensures rows != [] ==> |sent| > 0 && LastChunkRule(rows, sent)
    {
      var dataHave := 0;
      ghost var cur: seq<Row> := [];
      sent := [];
      newFed := [];
      var j := 0;
      ProgressStart(rows, queue.items, queue.simTime, lastEndTS);
      while j < |rows|
        invariant 0 <= j <= |rows|
        invariant Valid()
        invariant 0 <= dataHave < SPKNUM && |cur| == dataHave && Packed(spk[..], cur)
        invariant chunks == old(chunks) + sent && fed == old(fed) + newFed
        invariant Progress(rows, j, cur, sent, newFed, old(queue.items), queue.items, queue.simTime, old(lastEndTS), lastEndTS)
        invariant j == |rows| && j > 0 ==> |sent| > 0 && LastChunkRule(rows, sent)
      {
        dataHave, cur, sent, newFed := Step(rows, j, dataHave, cur, sent, newFed, old(chunks), old(fed), old(queue.items), old(lastEndTS));
        j := j + 1;
      }
    }

    /** Row j of the message, with the bookkeeping of the loop. */
    method Step(rows: seq<Row>, j: int, dataHave: int, ghost cur: seq<Row>, ghost sent: seq<seq<Row>>, ghost newFed: seq<seq<real>>,
                ghost c0: seq<seq<Row>>, ghost f0: seq<seq<real>>, ghost q0: seq<seq<real>>, ghost end0: real)
      returns (newHave: int, ghost newCur: seq<Row>, ghost sent1: seq<seq<Row>>, ghost newFed1: seq<seq<real>>)
      requires 0 <= j < |rows|
      requires Valid() && 0 <= dataHave < SPKNUM && |cur| == dataHave && Packed(spk[..], cur)
      requires chunks == c0 + sent && fed == f0 + newFed
      requires Progress(rows, j, cur, sent, newFed, q0, queue.items, queue.simTime, end0, lastEndTS)
      modifies spk, this`sn, this`lastEndTS, this`chunks, this`fed, queue`items
      ensures Valid() && 0 <= newHave < SPKNUM && |newCur| == newHave && Packed(spk[..], newCur)
      ensures chunks == c0 + sent1 && fed == f0 + newFed1
      ensures Progress(rows, j + 1, newCur, sent1, newFed1, q0, queue.items, queue.simTime, end0, lastEndTS)
      ensures j + 1 == |rows| ==> |sent1| > 0 && LastChunkRule(rows, sent1)
    {
      ghost var sentIt, item;
      ghost var items0, lastEnd0 := queue.items, lastEndTS;
      newHave, newCur, sentIt, item := Advance(rows[j], j == |rows| - 1, dataHave, cur);
      ProgressStep(rows, j, cur, sent, newFed, q0, items0, queue.simTime, end0, lastEnd0,
                   sentIt, newCur, item, queue.items, lastEndTS);
      if sentIt {
        sent1 := sent + [cur + (if ValidSpike(rows[j]) then [rows[j]] else [])];
        newFed1 := newFed + [item];
      } else {
        sent1 := sent;
        newFed1 := newFed;
      }
    }
  }

  /** The last chunk sent for a message is empty exactly when the message's last row is not a
      valid spike and its valid spikes fill whole chunks. */
  ghost predicate LastChunkRule(rows: seq<Row>, sent: seq<seq<Row>>)
    requires |rows| > 0 && |sent| > 0
  {
    sent[|sent| - 1] == [] <==> !ValidSpike(rows[|rows| - 1]) && |Filter(rows, ValidSpike)| % SPKNUM == 0
  }

  /** The state of the message loop after j rows: the chunks sent so far followed by the chunk
      being filled are the valid spikes of those rows, every sent chunk is full unless it was sent
      at the last row, the queue has seen every sent item, and lastEndTS is the last sent spike's time. */
  ghost predicate Progress(rows: seq<Row>, j: int, cur: seq<Row>, sent: seq<seq<Row>>, newFed: seq<seq<real>>,
                           q0: seq<seq<real>>, items: seq<seq<real>>, simTime: real, end0: real, lastEndTS: real)
  {
    && 0 <= j <= |rows|
    && |sent| == |newFed|
    && (j == 0 ==> sent == [])
    && AllWellFormed(false, newFed)
    && items == AdmitAll(false, q0, newFed, simTime)
    && Flatten(sent) + cur == Filter(rows[..j], ValidSpike)
    && (j < |rows| ==> forall k :: 0 <= k < |sent| ==> |sent[k]| == SPKNUM)
    && (forall k :: 0 <= k < |sent| - 1 ==> |sent[k]| == SPKNUM)
    && |cur| < SPKNUM
    && (j == |rows| && j > 0 ==> |sent| > 0 && cur == [])
    && lastEndTS == LastTs(Flatten(sent), end0)
  }

  /** What one row does: with `held` the chunk after packing the row, either the chunk is sent
      (it is full or the row is the last) and the queue and lastEndTS take it in, or nothing but
      the held chunk changes. */
  ghost predicate Advanced(r: Row, last: bool, cur: seq<Row>, sentIt: bool, newCur: seq<Row>, item: seq<real>,
                           items: seq<seq<real>>, items1: seq<seq<real>>, simTime: real, lastEndTS: real, lastEndTS1: real)
  {
    var held := cur + (if ValidSpike(r) then [r] else []);
    && (last || |held| == SPKNUM ==> sentIt)
    && if sentIt then
         && (|held| == SPKNUM || last)
         && newCur == []
         && WellFormed(false, item)
         && items1 == Admit(items, item, ItemTime(false, item), simTime)
         && lastEndTS1 == LastTs(held, lastEndTS)
       else
         newCur == held && items1 == items && lastEndTS1 == lastEndTS
  }

  lemma ProgressStart(rows: seq<Row>, q0: seq<seq<real>>, simTime: real, end0: real)
    ensures Progress(rows, 0, [], [], [], q0, q0, simTime, end0, end0)
  {
    assert rows[..0] == [];
  }

  lemma ProgressStep(rows: seq<Row>, j: int, cur: seq<Row>, sent: seq<seq<Row>>, newFed: seq<seq<real>>,
                     q0: seq<seq<real>>, items: seq<seq<real>>, simTime: real, end0: real, lastEndTS: real,
                     sentIt: bool, newCur: seq<Row>, item: seq<real>, items1: seq<seq<real>>, lastEndTS1: real)
    requires 0 <= j < |rows|
    requires Progress(rows, j, cur, sent, newFed, q0, items, simTime, end0, lastEndTS)
    requires Advanced(rows[j], j == |rows| - 1, cur, sentIt, newCur, item, items, items1, simTime, lastEndTS, lastEndTS1)
    ensures var held := cur + (if ValidSpike(rows[j]) then [rows[j]] else []);
            if sentIt then Progress(rows, j + 1, newCur, sent + [held], newFed + [item], q0, items1, simTime, end0, lastEndTS1)
            else Progress(rows, j + 1, newCur, sent, newFed, q0, items1, simTime, end0, lastEndTS1)
    ensures j + 1 == |rows| ==>
              sentIt && LastChunkRule(rows, sent + [cur + (if ValidSpike(rows[j]) then [rows[j]] else [])])
  {
    var held := cur + (if ValidSpike(rows[j]) then [rows[j]] else []);
    ValidSpikePrefix(rows, j);
    assert Flatten(sent) + held == Filter(rows[..j + 1], ValidSpike);
    if sentIt {
      FlattenSnoc(sent, held);
      AdmitAllSnoc(false, q0, newFed, item, simTime);
      assert Flatten(sent + [held]) + newCur == Flatten(sent) + held;
      var s1 := sent + [held];
      forall k | 0 <= k < |s1| - 1 ensures |s1[k]| == SPKNUM {
        assert s1[k] == sent[k];
      }
      if j + 1 < |rows| {
        forall k | 0 <= k < |s1| ensures |s1[k]| == SPKNUM {
          if k < |sent| { assert s1[k] == sent[k]; }
        }
      } else {
        LastChunkEmpty(rows, cur, sent);
      }
    }
  }

  /** The chunk sent after the last row is empty exactly when that row is not a valid spike and
      the valid spikes of the message fill whole chunks. */
  lemma LastChunkEmpty(rows: seq<Row>, cur: seq<Row>, sent: seq<seq<Row>>)
    requires |rows| > 0 && |cur| < SPKNUM
    requires forall k :: 0 <= k < |sent| ==> |sent[k]| == SPKNUM
    requires Flatten(sent) + cur == Filter(rows[..|rows| - 1], ValidSpike)
    ensures var j := |rows| - 1;
            LastChunkRule(rows, sent + [cur + (if ValidSpike(rows[j]) then [rows[j]] else [])])
  {
    var j := |rows| - 1;
    assert (sent + [cur + (if ValidSpike(rows[j]) then [rows[j]] else [])])[|sent|] == cur + (if ValidSpike(rows[j]) then [rows[j]] else []);
    ValidSpikePrefix(rows, j);
    assert rows[..j + 1] == rows;
    FlattenFull(sent);
    var v := if ValidSpike(rows[j]) then 1 else 0;
    assert |Filter(rows, ValidSpike)| == SPKNUM * |sent| + |cur| + v;
    FullChunksRemainder(|sent|, |cur| + v);
  }

  /** Full chunks laid end to end hold SPKNUM rows each. */
  lemma {:induction false} FlattenFull(cs: seq<seq<Row>>)
    requires forall k :: 0 <= k < |cs| ==> |cs[k]| == SPKNUM
    ensures |Flatten(cs)| == SPKNUM * |cs|
  {
    if cs != [] {
      FlattenFull(cs[..|cs| - 1]);
    }
  }

  /** sent cuts valid into chunks of at most SPKNUM rows, all full but the last. */
  ghost predicate ChunkedInto(sent: seq<seq<Row>>, valid: seq<Row>)
  {
    && |sent| >= 1
    && Flatten(sent) == valid
    && (forall k :: 0 <= k < |sent| - 1 ==> |sent[k]| == SPKNUM)
    && |sent[|sent| - 1]| <= SPKNUM
  }

  /** The chunks of a message are fixed by its valid spikes and by whether a trailing empty chunk
      is sent: two chunkings that agree on that are the same. */
  lemma {:induction false} ChunkingUnique(s1: seq<seq<Row>>, s2: seq<seq<Row>>, valid: seq<Row>)
    requires ChunkedInto(s1, valid) && ChunkedInto(s2, valid)
    requires (s1[|s1| - 1] == []) == (s2[|s2| - 1] == [])
    ensures s1 == s2
    decreases |s1|
  {
    var n1, n2 := |s1| - 1, |s2| - 1;
    var i1, i2 := s1[..n1], s2[..n2];
    var l1, l2 := s1[n1], s2[n2];
    assert forall k :: 0 <= k < n1 ==> i1[k] == s1[k];
    assert forall k :: 0 <= k < n2 ==> i2[k] == s2[k];
    FlattenFull(i1);
    FlattenFull(i2);
    assert Flatten(i1) + l1 == valid == Flatten(i2) + l2;
    assert n1 == n2 && |l1| == |l2|;
    var cut := |valid| - |l1|;
    assert l1 == valid[cut..] == l2;
    assert Flatten(i1) == valid[..cut] == Flatten(i2);
    if n1 > 0 {
      ChunkingUnique(i1, i2, valid[..cut]);
    }
    assert s1 == i1 + [l1] && s2 == i2 + [l2];
  }

  /** After n full chunks, c more rows leave a multiple of SPKNUM exactly when c is 0 or SPKNUM. */
  lemma FullChunksRemainder(n: nat, c: nat)
    requires c <= SPKNUM
    ensures (SPKNUM * n + c) % SPKNUM == 0 <==> c == 0 || c == SPKNUM
  {
    if c == SPKNUM {
      assert SPKNUM * n + c == SPKNUM * (n + 1);
    }
  }

  /** Filtering one more row. */
  lemma ValidSpikePrefix(rows: seq<Row>, j: int)
    requires 0 <= j < |rows|
    ensures Filter(rows[..j + 1], ValidSpike) == Filter(rows[..j], ValidSpike) + (if ValidSpike(rows[j]) then [rows[j]] else [])
  {
    assert rows[..j + 1] == rows[..j] + [rows[j]];
    FilterAppend(rows[..j], [rows[j]], ValidSpike);
    assert Filter([rows[j]], ValidSpike) == (if ValidSpike(rows[j]) then [rows[j]] else []) + Filter([rows[j]][1..], ValidSpike);
    assert [rows[j]][1..] == [];
  }
}
