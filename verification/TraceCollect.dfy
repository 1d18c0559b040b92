/** collectTraces of callTraceStorage.cpp, while no put is under way: the traces of all tables of
    the chain, under the ids that `put` returned, and the samples set back to 0. */
module TraceCollect {
  import opened Words
  import opened Bits
  import opened TraceStorage
  import opened TraceInvariant
  import TraceIds

  datatype Collected = Real(trace: Trace) | OverflowTrace

  /** Slot `slot` of table `g` is reported: it has a key and new samples, and its trace is set. */
  predicate Reported(h: Heap, g: nat, slot: nat, trace: Trace) {
    && g < |h.tables|
    && var t := h.tables[g];
       && slot < |t.keys| && slot < |t.samples| && slot < |t.traces|
       && t.keys[slot] != 0 && t.samples[slot] != 0 && t.traces[slot] == Stored(trace)
  }

  /** The samples of `t` with those of the first `n` slots collected. */
  function ResetUpTo(t: Table, n: nat): (r: Table)
    requires |t.keys| == |t.samples|
    ensures |r.samples| == |t.samples|
    ensures forall s :: 0 <= s < |t.samples| ==> r.samples[s] == if s < n && t.keys[s] != 0 then 0 else t.samples[s]
    ensures r == t.(samples := r.samples)
  {
    t.(samples := seq(|t.samples|, s requires 0 <= s < |t.samples| => if s < n
        && t.keys[s] != 0 then 0 else t.samples[s]))
  }

  /** The heap after collecting: of the tables in the chain only samples change. */
  ghost predicate ResetFrom(h: Heap, h': Heap, g: nat) {
    && h'.bits == h.bits && h'.current == h.current && h'.overflow == h.overflow && |h'.tables| == |h.tables|
    && forall i :: 0 <= i < |h.tables| ==> ResetTable(h.tables[i], h'.tables[i], g <= i <= h.current)
  }

  ghost predicate ResetTable(t: Table, t': Table, done: bool) {
    |t.keys| == |t.samples| && t' == if done then ResetUpTo(t, |t.keys|) else t
  }

  /** Every entry is a reported trace under the id of its place. */
  ghost predicate Sound(h: Heap, m: map<nat, Collected>) {
    forall id :: id in m ==> exists g: nat, slot: nat, trace: Trace :: SoundAt(h, g, slot, trace, id, m[id])
  }

  ghost predicate SoundAt(h: Heap, g: nat, slot: nat, trace: Trace, id: nat, c: Collected) {
    g <= h.current && Reported(h, g, slot, trace) && id == TraceIds.Id(h.bits, g, slot) && c == Real(trace)
  }

  /** Everything reported by the tables from `g` on, and by the first `n` slots of table g - 1, has
      its id in the map. */
  ghost predicate Complete(h: Heap, m: map<nat, Collected>, g: nat, n: nat) {
    forall i: nat, slot: nat, trace: Trace ::
      i <= h.current && (g <= i || (i + 1 == g && slot < n)) && Reported(h, i, slot, trace) ==>
      TraceIds.Id(h.bits, i, slot) in m
  }

  /** The collected map is exact: an id is in it exactly if its slot is reported, with its trace. */
  ghost predicate Exact(h: Heap, m: map<nat, Collected>) {
    && (forall g: nat, slot: nat, trace: Trace :: g <= h.current && Reported(h, g, slot, trace) ==>
          TraceIds.Id(h.bits, g, slot) in m && m[TraceIds.Id(h.bits, g, slot)] == Real(trace))
    && (forall id :: id in m && id != TraceIds.OVERFLOW_TRACE_ID ==>
          exists g: nat, slot: nat, trace: Trace :: SoundAt(h, g, slot, trace, id, m[id]))
    && (TraceIds.OVERFLOW_TRACE_ID in m <==> h.overflow > 0)
    && (h.overflow > 0 ==> m[TraceIds.OVERFLOW_TRACE_ID] == OverflowTrace)
  }

  lemma SoundAndCompleteIsExact(h: Heap, m: map<nat, Collected>)
    requires HeapInv(h) && Sound(h, m) && Complete(h, m, 0, 0)
    ensures Exact(h, if h.overflow > 0 then m[TraceIds.OVERFLOW_TRACE_ID := OverflowTrace] else m)
  {
    forall g: nat, slot: nat, trace: Trace | g <= h.current && Reported(h, g, slot, trace)
      ensures TraceIds.Id(h.bits, g, slot) in m && m[TraceIds.Id(h.bits, g, slot)] == Real(trace)
      ensures TraceIds.Id(h.bits, g, slot) != TraceIds.OVERFLOW_TRACE_ID
    {
      IdInMap(h, m, g, slot, trace);
    }
    NotTheOverflowId(h, m);
  }

  lemma IdInMap(h: Heap, m: map<nat, Collected>, g: nat, slot: nat, trace: Trace)
    requires HeapInv(h) && Sound(h, m) && Complete(h, m, 0, 0) && g <= h.current && Reported(h, g, slot, trace)
    ensures var id := TraceIds.Id(h.bits, g, slot);
            id in m && m[id] == Real(trace) && id != TraceIds.OVERFLOW_TRACE_ID
  {
    hide Reported, TraceIds.Id;
    var id := TraceIds.Id(h.bits, g, slot);
    assert id in m;
    var g': nat, slot': nat, trace' :| SoundAt(h, g', slot', trace', id, m[id]);
    ReportedInside(h, g, slot, trace);
    ReportedInside(h, g', slot', trace');
    TraceIds.IdIsExact(h.bits, g, slot);
    if (g, slot) != (g', slot') {
      TraceIds.IdsDiffer(h.bits, g, slot, g', slot');
    } else {
      OneTrace(h, g, slot, trace, trace');
    }
  }

  lemma OneTrace(h: Heap, g: nat, slot: nat, a: Trace, b: Trace)
    requires Reported(h, g, slot, a) && Reported(h, g, slot, b)
    ensures a == b
  {
  }

  lemma ReportedInside(h: Heap, g: nat, slot: nat, trace: Trace)
    requires HeapInv(h) && Reported(h, g, slot, trace)
    ensures slot < Pow2(h.bits + g) && h.bits + g <= 30 && h.bits >= 1
  {
    TableAt(h, g);
  }

  lemma NotTheOverflowId(h: Heap, m: map<nat, Collected>)
    requires HeapInv(h) && Sound(h, m)
    ensures TraceIds.OVERFLOW_TRACE_ID !in m
  {
    if TraceIds.OVERFLOW_TRACE_ID in m {
      var id := TraceIds.OVERFLOW_TRACE_ID;
      var g: nat, slot: nat, trace :| SoundAt(h, g, slot, trace, id, m[id]);
      ReportedInside(h, g, slot, trace);
      TraceIds.IdIsExact(h.bits, g, slot);
    }
  }

  class Storage {
    var heap: Heap

    constructor (heap: Heap)
      ensures this.heap == heap
    {
      this.heap := heap;
    }

    /** collectTraces */
    method CollectTraces() returns (m: map<nat, Collected>)
      requires HeapInv(heap)
      modifies this
      ensures Exact(old(heap), m) && ResetFrom(old(heap), heap, 0)
    {
      ghost var h := heap;
      m := map[];
      var table := To(heap.current);
      ghost var next: nat := heap.current + 1;
      StartReset(h);
      while table.To?
        invariant table == if next == 0 then Null else To(next - 1)
        invariant next <= h.current + 1 && ResetFrom(h, heap, next)
        invariant Sound(h, m) && Complete(h, m, next, 0)
        decreases next
      {
        TableAt(h, table.table);
        var prev := heap.tables[table.table].prev;
        assert ResetTable(h.tables[table.table], heap.tables[table.table], false);
        m := CollectTable(h, table.table, m);
        table := prev;
        next := next - 1;
      }
      SoundAndCompleteIsExact(h, m);
      if heap.overflow > 0 {
        m := m[TraceIds.OVERFLOW_TRACE_ID := OverflowTrace];
      }
    }

    /** The slots of one table. */
    method CollectTable(ghost h: Heap, g: nat, m0: map<nat, Collected>) returns (m: map<nat, Collected>)
      requires HeapInv(h) && g <= h.current && ResetFrom(h, heap, g + 1)
      requires Sound(h, m0) && Complete(h, m0, g + 1, 0)
      modifies this
      ensures ResetFrom(h, heap, g)
      ensures Sound(h, m) && Complete(h, m, g, 0)
    {
      hide HeapInv, Sound, Complete, TraceIds.Id, Pow2;
      m := m0;
      TableSizes(h, g);
      ghost var t := h.tables[g];
      assert ResetTable(h.tables[g], heap.tables[g], false);
      var bits := heap.tables[g].bits;
      var capacity := Pow2(bits);
      var slot := 0;
      NothingReset(t);
      ghost var start := heap;
      while slot < capacity
        invariant 0 <= slot <= capacity
        invariant heap == WithTable(start, g, ResetUpTo(t, slot))
        invariant Sound(h, m) && Complete(h, m, g + 1, slot)
      {
        ghost var m1 := m;
        var table := heap.tables[g];
        if table.keys[slot] != 0 && table.samples[slot] != 0 {
          heap := heap.(tables := heap.tables[g := table.(samples := table.samples[slot := 0])]);
          if table.traces[slot].Stored? {
            m := m[U32Of(capacity - (Pow2(heap.bits) - 1) + slot) := Real(table.traces[slot].trace)];
            NextEntry(h, g, slot, table.traces[slot].trace, m1);
          }
        }
        NextSlot(h, m1, m, g, slot);
        ResetOne(t, slot);
        slot := slot + 1;
      }
      assert ResetTable(h.tables[g], heap.tables[g], true);
      forall i | 0 <= i < |h.tables| ensures ResetTable(h.tables[i], heap.tables[i], g <= i <= h.current) {
        assert ResetTable(h.tables[i], start.tables[i], g + 1 <= i <= h.current);
      }
      TableDone(h, m, g);
    }
  }

  lemma StartReset(h: Heap)
    requires HeapInv(h)
    ensures ResetFrom(h, h, h.current + 1)
  {
    forall i | 0 <= i < |h.tables| ensures ResetTable(h.tables[i], h.tables[i], false) {
      TableAt(h, i);
    }
  }

  lemma TableSizes(h: Heap, g: nat)
    requires HeapInv(h) && g <= h.current
    ensures g < |h.tables| && h.tables[g].bits == h.bits + g
    ensures var t := h.tables[g];
            |t.keys| == Pow2(t.bits) && |t.samples| == |t.keys| && |t.traces| == |t.keys|
  {
    TableAt(h, g);
  }

  lemma NothingReset(t: Table)
    requires |t.keys| == |t.samples|
    ensures ResetUpTo(t, 0) == t
  {
  }

  lemma ResetOne(t: Table, slot: nat)
    requires |t.keys| == |t.samples| && slot < |t.keys|
    ensures var r := ResetUpTo(t, slot);
            ResetUpTo(t, slot + 1)
            == if r.keys[slot] != 0 && r.samples[slot] != 0 then r.(samples := r.samples[slot := 0]) else r
  {
    var r := ResetUpTo(t, slot);
    assert ResetUpTo(t, slot + 1).samples
        == (if r.keys[slot] != 0 && r.samples[slot] != 0 then r.(samples := r.samples[slot := 0]) else r).samples;
  }

  /** The id that is written is the one that put returns. */
  lemma NextEntry(h: Heap, g: nat, slot: nat, trace: Trace, m: map<nat, Collected>)
    requires HeapInv(h) && g <= h.current && Reported(h, g, slot, trace) && Sound(h, m)
    ensures var id := U32Of(Pow2(h.tables[g].bits) - (Pow2(h.bits) - 1) + slot);
            id == TraceIds.Id(h.bits, g, slot) && Sound(h, m[id := Real(trace)])
  {
    TableAt(h, g);
    var id := TraceIds.Id(h.bits, g, slot);
    var m' := m[id := Real(trace)];
    assert SoundAt(h, g, slot, trace, id, m'[id]);
    hide Reported, SoundAt, TraceIds.Id;
    forall k | k in m' ensures exists g: nat, slot: nat, trace: Trace :: SoundAt(h, g, slot, trace, k, m'[k]) {
      if k != id {
        var g2: nat, slot2: nat, trace2 :| SoundAt(h, g2, slot2, trace2, k, m[k]);
        assert SoundAt(h, g2, slot2, trace2, k, m'[k]);
      }
    }
  }

  lemma NextSlot(h: Heap, m: map<nat, Collected>, m': map<nat, Collected>, g: nat, slot: nat)
    requires Complete(h, m, g + 1, slot) && m.Keys <= m'.Keys
    requires forall trace: Trace :: Reported(h, g, slot, trace) ==> TraceIds.Id(h.bits, g, slot) in m'
    ensures Complete(h, m', g + 1, slot + 1)
  {
  }

  lemma TableDone(h: Heap, m: map<nat, Collected>, g: nat)
    requires HeapInv(h) && g <= h.current && Complete(h, m, g + 1, Pow2(h.tables[g].bits))
    ensures Complete(h, m, g, 0)
  {
    TableSizes(h, g);
  }

  /** Collecting twice reports no trace twice. */
  lemma NothingLeftToReport(h: Heap, h': Heap, g: nat, slot: nat, trace: Trace)
    requires HeapInv(h) && ResetFrom(h, h', 0) && g <= h.current
    ensures !Reported(h', g, slot, trace)
  {
    TableSizes(h, g);
    assert ResetTable(h.tables[g], h'.tables[g], true);
  }
}
