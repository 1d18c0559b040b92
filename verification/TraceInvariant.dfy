/** What every step of the call trace storage keeps, and what follows for whole runs. */
module TraceInvariant {
  import opened Words
  import opened Sums
  import opened Bits
  import opened Probe
  import opened LockWord
  import opened TraceStorage

  // ---------------------------------------------------------------------------------------
  // The chain of tables
  // ---------------------------------------------------------------------------------------

  /** Table `g` has its place in the chain: the capacity doubles from table to table. */
  ghost predicate TableInv(t: Table, bits: nat, g: nat) {
    WellFormed(t) && t.bits == bits + g && t.prev == (if g == 0 then Null else To(g - 1))
  }

  /** The chain is well formed, and the newest published table is in path order. Older tables
      need not be: `put` zeroes words of its predecessor. */
  ghost predicate HeapInv(h: Heap) {
    && 1 <= h.bits && h.bits + |h.tables| <= MAX_BITS + 1
    && h.current < |h.tables| <= h.current + 2
    && (forall g :: 0 <= g < |h.tables| ==> TableInv(h.tables[g], h.bits, g))
    && PathInv(h.tables[h.current].keys, h.bits + h.current)
    && (h.current + 1 < |h.tables| ==> h.tables[h.current + 1] == EmptyTable(h.bits + h.current + 1, To(h.current)))
  }

  lemma TableAt(h: Heap, g: nat)
    requires HeapInv(h) && g < |h.tables|
    ensures TableInv(h.tables[g], h.bits, g) && h.bits + g <= MAX_BITS
  {
  }

  /** All slots of the table hold hashes other than `hash`. */
  ghost predicate FullOfOthers(keys: seq<nat>, hash: nat) {
    forall slot: nat :: slot < |keys| ==> keys[slot] != 0 && keys[slot] != hash
  }

  /** Whether the put has found or claimed its slot. */
  predicate HasSlot(stage: Stage) {
    !(stage.Load? || stage.CasKey? || stage.IncOverflow? || stage.UnlockOverflow?)
  }

  /** What a put knows about the keys of its table, as long as that table is the newest. */
  ghost predicate KeysInv(keys: seq<nat>, bits: nat, hash: nat, step: nat, stage: Stage) {
    if stage.Load? || stage.CasKey? then Passed(keys, bits, hash, step)
    else if HasSlot(stage) then Slot(hash, bits, step) < |keys| && keys[Slot(hash, bits, step)] == hash
    else FullOfOthers(keys, hash)
  }

  ghost predicate StageInv(h: Heap, g: nat, hash: nat, stage: Stage) {
    match stage
    case Find(at) => g > 0 && at < Pow2(h.bits + g - 1)
    case FindTrace(from) => g > 0 && from < Pow2(h.bits + g - 1)
    case SetTrace(link) => g == 0 && link.Stored? ==> link.trace.hash == hash
    case _ => true
  }

  ghost predicate ThreadInv(h: Heap, pc: Pc) {
    match pc
    case Enter(job) => job.trace.hash != 0
    case EnterCas(job, v) => job.trace.hash != 0 && v <= 0
    case LoadTable(job) => job.trace.hash != 0
    case InPut(job, g, step, stage) =>
      && job.trace.hash != 0 && g <= h.current < |h.tables| && step < Pow2(h.bits + g)
      && StageInv(h, g, job.trace.hash, stage)
      && (g == h.current ==> KeysInv(h.tables[g].keys, h.bits + g, job.trace.hash, step, stage))
    case _ => true
  }

  /** What an instruction of one put guarantees to the others: the chain only grows, and no key
      of the newest table is ever changed. */
  ghost predicate Rely(h: Heap, h': Heap) {
    && h'.bits == h.bits
    && h.current <= h'.current && |h.tables| <= |h'.tables|
    && (h'.current == h.current < |h.tables| ==>
          KeysKept(h.tables[h.current].keys, h'.tables[h.current].keys))
  }

  ghost predicate KeysKept(keys: seq<nat>, keys': seq<nat>) {
    |keys'| == |keys| && forall s: nat :: s < |keys| && keys[s] != 0 ==> keys'[s] == keys[s]
  }

  lemma ThreadStable(h: Heap, h': Heap, pc: Pc)
    requires ThreadInv(h, pc) && Rely(h, h') && h'.current < |h'.tables|
    ensures ThreadInv(h', pc)
  {
    if pc.InPut? && pc.g == h.current == h'.current && (pc.stage.Load? || pc.stage.CasKey?) {
      PassedKept(h.tables[pc.g].keys, h'.tables[pc.g].keys, h.bits + pc.g, pc.job.trace.hash, pc.step);
    }
  }

  /** The slot of a put is inside its table, and so is everything it touches. */
  lemma PutIsReady(h: Heap, pc: Pc)
    requires HeapInv(h) && ThreadInv(h, pc) && pc.InPut?
    ensures Ready(h, pc) && TableInv(h.tables[pc.g], h.bits, pc.g)
    ensures SlotIn(h.tables[pc.g], pc) == Slot(pc.job.trace.hash, h.bits + pc.g, pc.step) < Pow2(h.bits + pc.g)
    ensures pc.g > 0 ==> TableInv(h.tables[pc.g - 1], h.bits, pc.g - 1)
  {
    TableAt(h, pc.g);
    SlotClosed(pc.job.trace.hash, h.bits + pc.g, pc.step);
    if pc.g > 0 {
      TableAt(h, pc.g - 1);
    }
  }

  /** Changing a table below or at the current one, with the current one still in path order,
      keeps the chain. */
  lemma TableChangeKeepsHeap(h: Heap, g: nat, t: Table)
    requires HeapInv(h) && g <= h.current
    requires WellFormed(t) && t.bits == h.tables[g].bits && t.prev == h.tables[g].prev
    requires g == h.current ==> PathInv(t.keys, h.bits + g)
    ensures HeapInv(WithTable(h, g, t))
  {
    var h' := WithTable(h, g, t);
    forall i | 0 <= i < |h'.tables| ensures TableInv(h'.tables[i], h.bits, i) {
      assert TableInv(h.tables[i], h.bits, i);
    }
  }

  /** Moving within a table that keeps its keys. */
  lemma StageMove(h: Heap, h': Heap, pc: Pc, stage: Stage)
    requires ThreadInv(h, pc) && pc.InPut? && Rely(h, h') && HeapInv(h')
    requires StageInv(h', pc.g, pc.job.trace.hash, stage)
    requires pc.g < |h.tables|
    requires HasSlot(pc.stage) == HasSlot(stage) && (pc.stage.IncOverflow? ==> stage.UnlockOverflow?)
    requires pc.stage != UnlockOverflow && !pc.stage.Load? && !pc.stage.CasKey?
    ensures ThreadInv(h', pc.(stage := stage))
  {
  }

  // ---------------------------------------------------------------------------------------
  // Each instruction keeps the chain, the relied-on facts and its own facts
  // ---------------------------------------------------------------------------------------

  lemma LoadKeeps(h: Heap, pc: Pc)
    requires HeapInv(h) && ThreadInv(h, pc) && pc.InPut? && pc.stage.Load?
    requires Ready(h, pc)
    ensures ThreadInv(h, AfterLoad(h.tables[pc.g], pc))
  {
    PutIsReady(h, pc);
    hide Pow2, Slot, HeapInv, KeysInv;
    if pc.g == h.current {
      LoadKeepsKeys(h.tables[pc.g].keys, h.bits + pc.g, pc.job.trace.hash, pc.step);
    }
  }

  lemma LoadKeepsKeys(keys: seq<nat>, bits: nat, hash: nat, step: nat)
    requires KeysInv(keys, bits, hash, step, Load) && step < Pow2(bits) && hash != 0
    requires Slot(hash, bits, step) < Pow2(bits) == |keys|
    ensures var key := keys[Slot(hash, bits, step)];
            if key == hash then KeysInv(keys, bits, hash, step, IncSamples)
            else if key == 0 then KeysInv(keys, bits, hash, step, CasKey)
            else if step + 1 >= Pow2(bits) then KeysInv(keys, bits, hash, step, IncOverflow)
            else KeysInv(keys, bits, hash, step + 1, Load)
  {
    hide Pow2, Slot;
    var key := keys[Slot(hash, bits, step)];
    if key != hash && key != 0 {
      assert PassedAt(keys, bits, hash, step);
      hide Passed, PassedAt, FullOfOthers;
      PassedNext(keys, bits, hash, step);
      if step + 1 >= Pow2(bits) {
        FullAfterAll(keys, bits, hash);
      }
    }
  }

  lemma FullAfterAll(keys: seq<nat>, bits: nat, hash: nat)
    requires IsTable(keys, bits) && Passed(keys, bits, hash, Pow2(bits))
    ensures FullOfOthers(keys, hash)
  {
    OverflowMeansFull(keys, bits, hash);
  }

  lemma ClaimKeeps(h: Heap, pc: Pc)
    requires HeapInv(h) && ThreadInv(h, pc) && pc.InPut? && pc.stage.CasKey?
    requires Ready(h, pc)
    requires h.tables[pc.g].keys[SlotIn(h.tables[pc.g], pc)] == 0
    ensures var t := h.tables[pc.g];
            var h' := WithTable(h, pc.g, t.(keys := t.keys[SlotIn(t, pc) := pc.job.trace.hash]));
            HeapInv(h') && Rely(h, h') && ThreadInv(h', pc.(stage := IncSize))
  {
    PutIsReady(h, pc);
    ClaimKeepsHeap(h, pc);
    hide Pow2, Slot, HeapInv, Passed;
  }

  lemma ClaimKeepsHeap(h: Heap, pc: Pc)
    requires HeapInv(h) && ThreadInv(h, pc) && pc.InPut? && pc.stage.CasKey?
    requires Ready(h, pc)
    requires h.tables[pc.g].keys[SlotIn(h.tables[pc.g], pc)] == 0
    ensures var t := h.tables[pc.g];
            HeapInv(WithTable(h, pc.g, t.(keys := t.keys[SlotIn(t, pc) := pc.job.trace.hash])))
  {
    PutIsReady(h, pc);
    hide Pow2, Slot, Passed;
    var t, hash := h.tables[pc.g], pc.job.trace.hash;
    if pc.g == h.current {
      ClaimKeepsPathInv(t.keys, h.bits + pc.g, hash, pc.step);
    }
    hide PathInv, ThreadInv, Ready;
    TableChangeKeepsHeap(h, pc.g, t.(keys := t.keys[SlotIn(t, pc) := hash]));
    hide HeapInv;
  }

  /** Instructions that change the put's own table but not its keys. */
  lemma OwnTableKeeps(h: Heap, pc: Pc, t': Table)
    requires HeapInv(h) && ThreadInv(h, pc) && pc.InPut?
    requires pc.g < |h.tables| && WellFormed(t')
    requires t'.bits == h.tables[pc.g].bits && t'.prev == h.tables[pc.g].prev && t'.keys == h.tables[pc.g].keys
    ensures HeapInv(WithTable(h, pc.g, t')) && Rely(h, WithTable(h, pc.g, t'))
  {
    hide PathInv, Pow2, KeysInv;
    TableChangeKeepsHeap(h, pc.g, t');
  }

  lemma ZeroWordShape(t: Table, slot: nat)
    requires WellFormed(t)
    ensures var z := ZeroWord(t, slot);
            WellFormed(z) && z.bits == t.bits && z.prev == t.prev && z.size == t.size
  {
  }

  /** Zeroing a word of the previous table does not touch the newest one. */
  lemma ZeroKeeps(h: Heap, pc: Pc, slot: nat)
    requires HeapInv(h) && ThreadInv(h, pc) && pc.InPut? && pc.g > 0
    ensures pc.g - 1 < |h.tables|
    ensures var h' := WithTable(h, pc.g - 1, ZeroWord(h.tables[pc.g - 1], slot));
            HeapInv(h') && Rely(h, h')
  {
    TableAt(h, pc.g - 1);
    ZeroWordShape(h.tables[pc.g - 1], slot);
    hide PathInv, Pow2, KeysInv, ZeroWord;
    TableChangeKeepsHeap(h, pc.g - 1, ZeroWord(h.tables[pc.g - 1], slot));
  }

  lemma FindKeeps(h: Heap, pc: Pc)
    requires HeapInv(h) && ThreadInv(h, pc) && pc.InPut? && pc.stage.Find?
    requires pc.g > 0 && pc.g - 1 < |h.tables|
    ensures StageInv(h, pc.g, pc.job.trace.hash, AfterFind(h.tables[pc.g - 1], pc.job.trace.hash, pc.stage.at))
  {
    TableAt(h, pc.g - 1);
    SlotClosed(pc.job.trace.hash, h.bits + pc.g - 1, pc.stage.at);
    hide PathInv, Pow2, Slot, KeysInv;
  }

  /** Appending the next table, not yet published. */
  lemma AppendKeeps(h: Heap, pc: Pc)
    requires HeapInv(h) && ThreadInv(h, pc) && pc.InPut? && pc.g == h.current == |h.tables| - 1
    requires h.tables[pc.g].bits < MAX_BITS
    ensures var h' := h.(tables := h.tables + [EmptyTable(h.tables[pc.g].bits + 1, To(pc.g))]);
            HeapInv(h') && Rely(h, h')
  {
    TableAt(h, pc.g);
    hide PathInv, Pow2, KeysInv;
    var h' := h.(tables := h.tables + [EmptyTable(h.tables[pc.g].bits + 1, To(pc.g))]);
    forall i | 0 <= i < |h'.tables| ensures TableInv(h'.tables[i], h.bits, i) {
      assert i < |h.tables| ==> TableInv(h.tables[i], h.bits, i);
    }
  }

  lemma EmptyInPathOrder(bits: nat, prev: Link)
    ensures PathInv(EmptyTable(bits, prev).keys, bits)
  {
  }

  /** Publishing it: the new current table is empty, so it is in path order. */
  lemma PublishKeeps(h: Heap)
    requires HeapInv(h) && h.current + 1 == |h.tables| - 1
    ensures var h' := h.(current := h.current + 1);
            HeapInv(h') && Rely(h, h')
  {
    EmptyInPathOrder(h.bits + h.current + 1, To(h.current));
    hide PathInv, Pow2;
  }

  // ---------------------------------------------------------------------------------------
  // Growth: one put per table sees the threshold, and its compare-and-swap succeeds
  // ---------------------------------------------------------------------------------------

  predicate Growing(pc: Pc) {
    pc.InPut? && (pc.stage.Grow? || pc.stage.GrowCas?)
  }

  predicate Publishing(pc: Pc) {
    pc.InPut? && pc.stage.GrowCas?
  }

  /** A growing put works on the newest table; once it has allocated the next table, that one is
      the only unpublished table. */
  ghost predicate GrowerInv(h: Heap, pc: Pc) {
    && pc.InPut? && pc.g == h.current
    && |h.tables| == (if pc.stage.GrowCas? then pc.g + 2 else pc.g + 1)
    && (pc.stage.GrowCas? ==> pc.stage.made == pc.g + 1)
  }

  /** Tables that have a successor, or whose successor is being made, passed the threshold. */
  ghost predicate GrowthInv(h: Heap, threads: seq<Pc>) {
    && h.current < |h.tables|
    && (forall t :: 0 <= t < |threads| && Growing(threads[t]) ==>
          GrowerInv(h, threads[t]) && h.tables[h.current].size >= Threshold(h.bits + h.current))
    && (forall t, u :: 0 <= t < u < |threads| ==> !(Growing(threads[t]) && Growing(threads[u])))
    && (forall g :: 0 <= g < h.current ==> h.tables[g].size >= Threshold(h.bits + g))
    && (|h.tables| == h.current + 1 || SomePublishing(threads))
  }

  ghost predicate SomePublishing(threads: seq<Pc>) {
    exists t :: 0 <= t < |threads| && Publishing(threads[t])
  }

  lemma PublishingKept(threads: seq<Pc>, t: nat, pc: Pc)
    requires t < |threads| && !Publishing(threads[t])
    ensures SomePublishing(threads) ==> SomePublishing(threads[t := pc])
  {
    if SomePublishing(threads) {
      var u :| 0 <= u < |threads| && Publishing(threads[u]);
      assert Publishing(threads[t := pc][u]);
    }
  }

  /** Steps of threads that neither grow before nor after. */
  lemma GrowthStable(h: Heap, h': Heap, threads: seq<Pc>, t: nat, pc: Pc)
    requires GrowthInv(h, threads) && t < |threads| && !Growing(threads[t]) && !Growing(pc)
    requires h'.bits == h.bits && h'.current == h.current && |h'.tables| == |h.tables|
    requires forall g :: 0 <= g < |h.tables| ==> h'.tables[g].size >= h.tables[g].size
    ensures GrowthInv(h', threads[t := pc])
  {
    hide Threshold;
    PublishingKept(threads, t, pc);
  }

  /** The put whose increment reaches the threshold is alone. */
  lemma GrowthStarts(h: Heap, threads: seq<Pc>, t: nat)
    requires HeapInv(h) && GrowthInv(h, threads) && t < |threads|
    requires threads[t].InPut? && threads[t].stage.IncSize? && threads[t].g <= h.current
    requires h.tables[threads[t].g].size + 1 == Threshold(h.bits + threads[t].g)
    ensures var pc := threads[t];
            var table := h.tables[pc.g];
            pc.g == h.current
            && GrowthInv(WithTable(h, pc.g, table.(size := table.size + 1)), threads[t := pc.(stage := Grow)])
  {
    hide Threshold, HeapInv;
    forall u | 0 <= u < |threads| ensures !Growing(threads[u]) {
    }
    assert !SomePublishing(threads);
  }

  lemma GrowthGivesUp(h: Heap, threads: seq<Pc>, t: nat, pc: Pc)
    requires GrowthInv(h, threads) && t < |threads| && Growing(threads[t]) && !Publishing(threads[t]) && !Growing(pc)
    ensures GrowthInv(h, threads[t := pc])
  {
    hide Threshold;
  }

  lemma GrowthAllocates(h: Heap, threads: seq<Pc>, t: nat, table: Table)
    requires GrowthInv(h, threads) && t < |threads| && threads[t].InPut? && threads[t].stage.Grow?
    ensures GrowthInv(h.(tables := h.tables + [table]), threads[t := threads[t].(stage := GrowCas(|h.tables|))])
  {
    hide Threshold;
    var threads' := threads[t := threads[t].(stage := GrowCas(|h.tables|))];
    assert Publishing(threads'[t]);
  }

  /** The compare-and-swap on `_current_table` succeeds: the table it expects is current. */
  lemma GrowthPublishes(h: Heap, threads: seq<Pc>, t: nat, pc: Pc)
    requires GrowthInv(h, threads) && t < |threads| && Publishing(threads[t]) && !Growing(pc)
    ensures h.current == threads[t].g && threads[t].stage.made == h.current + 1 == |h.tables| - 1
    ensures GrowthInv(h.(current := h.current + 1), threads[t := pc])
  {
    hide Threshold;
  }

  // ---------------------------------------------------------------------------------------
  // One instruction of put
  // ---------------------------------------------------------------------------------------

  lemma UncountedHeap(h: Heap, overflow: nat)
    requires HeapInv(h)
    ensures HeapInv(h.(overflow := overflow)) && Rely(h, h.(overflow := overflow)) && Rely(h, h)
  {
  }

  lemma PutProbeKeeps(h: Heap, pc: Pc, h': Heap, pc': Pc)
    requires HeapInv(h) && ThreadInv(h, pc) && Ready(h, pc) && ProbeStep(h, pc, h', pc')
    ensures HeapInv(h') && Rely(h, h') && ThreadInv(h', pc')
  {
    UncountedHeap(h, h.overflow);
    hide Pow2, Slot, HeapInv, Rely;
    if pc.stage.Load? {
      LoadKeeps(h, pc);
    } else if h.tables[pc.g].keys[SlotIn(h.tables[pc.g], pc)] == 0 {
      ClaimKeeps(h, pc);
    }
  }

  lemma PutReadKeeps(h: Heap, pc: Pc, h': Heap, pc': Pc)
    requires HeapInv(h) && ThreadInv(h, pc) && Ready(h, pc) && ReadStep(h, pc, h', pc')
    ensures HeapInv(h') && Rely(h, h') && ThreadInv(h', pc')
  {
    PutIsReady(h, pc);
    UncountedHeap(h, h.overflow);
    UncountedHeap(h, h.overflow + 1);
    hide Pow2, Slot, HeapInv, KeysInv, Rely, ThreadInv;
    if pc.stage.Find? {
      FindKeeps(h, pc);
      hide AfterFind;
    }
    StageMove(h, h', pc, pc'.stage);
  }

  lemma PutOwnKeeps(h: Heap, pc: Pc, h': Heap, pc': Pc)
    requires HeapInv(h) && ThreadInv(h, pc) && Ready(h, pc) && OwnStep(h, pc, h', pc')
    ensures HeapInv(h') && Rely(h, h') && ThreadInv(h', pc')
  {
    PutIsReady(h, pc);
    hide Pow2, Slot, HeapInv, KeysInv, Rely, ThreadInv, Threshold;
    OwnTableKeeps(h, pc, OwnEffect(h.tables[pc.g], pc).0);
    StageMove(h, h', pc, OwnEffect(h.tables[pc.g], pc).1);
  }

  lemma PutZeroKeeps(h: Heap, pc: Pc, h': Heap, pc': Pc)
    requires HeapInv(h) && ThreadInv(h, pc) && Ready(h, pc) && ZeroStep(h, pc, h', pc')
    ensures HeapInv(h') && Rely(h, h') && ThreadInv(h', pc')
  {
    PutIsReady(h, pc);
    UncountedHeap(h, h.overflow);
    hide Pow2, Slot, HeapInv, KeysInv, Rely, ThreadInv, ZeroWord;
    if pc.g > 0 {
      ZeroKeeps(h, pc, SlotIn(h.tables[pc.g], pc));
      assert h' == WithTable(h, pc.g - 1, ZeroWord(h.tables[pc.g - 1], SlotIn(h.tables[pc.g], pc)));
    } else {
      assert h' == h;
    }
    hide ZeroStep, Ready, SlotIn;
    StageMove(h, h', pc, IncSamples);
  }

  lemma PutGrowKeeps(h: Heap, pc: Pc, h': Heap, pc': Pc)
    requires HeapInv(h) && ThreadInv(h, pc) && Ready(h, pc) && GrowStep(h, pc, h', pc') && GrowerInv(h, pc)
    ensures HeapInv(h') && Rely(h, h') && ThreadInv(h', pc')
  {
    PutIsReady(h, pc);
    GrowKeepsHeap(h, pc, h', pc');
    hide Pow2, Slot, HeapInv, KeysInv, Rely, ThreadInv, EmptyTable;
    assert StageInv(h', pc.g, pc.job.trace.hash, pc'.stage) && pc'.InPut? && pc' == pc.(stage := pc'.stage);
    hide GrowStep, Ready, StageInv;
    StageMove(h, h', pc, pc'.stage);
  }

  lemma GrowKeepsHeap(h: Heap, pc: Pc, h': Heap, pc': Pc)
    requires HeapInv(h) && ThreadInv(h, pc) && Ready(h, pc) && GrowStep(h, pc, h', pc') && GrowerInv(h, pc)
    ensures HeapInv(h') && Rely(h, h')
  {
    PutIsReady(h, pc);
    UncountedHeap(h, h.overflow);
    assert h.current < |h.tables|;
    hide Pow2, Slot, HeapInv, KeysInv, Rely, EmptyTable;
    if pc.stage.GrowCas? {
      PublishKeeps(h);
    } else if h' != h {
      AppendKeeps(h, pc);
    }
  }

  /** The part of a step that the chain and the thread itself notice. */
  lemma PutKeepsHeap(h: Heap, pc: Pc, h': Heap, pc': Pc)
    requires HeapInv(h) && ThreadInv(h, pc) && PutStep(h, pc, h', pc')
    requires Growing(pc) ==> GrowerInv(h, pc)
    ensures HeapInv(h') && Rely(h, h') && ThreadInv(h', pc')
  {
    assert pc.InPut?;
    hide HeapInv, ThreadInv, Rely, GrowerInv, Ready;
    if ProbeStep(h, pc, h', pc') {
      PutProbeKeeps(h, pc, h', pc');
    } else if ReadStep(h, pc, h', pc') {
      PutReadKeeps(h, pc, h', pc');
    } else if OwnStep(h, pc, h', pc') {
      PutOwnKeeps(h, pc, h', pc');
    } else if ZeroStep(h, pc, h', pc') {
      PutZeroKeeps(h, pc, h', pc');
    } else {
      PutGrowKeeps(h, pc, h', pc');
    }
  }

  /** Sizes never shrink, and only a growing put changes the number of tables or the current
      one. */
  lemma PutKeepsSizes(h: Heap, pc: Pc, h': Heap, pc': Pc)
    requires PutStep(h, pc, h', pc')
    ensures h'.bits == h.bits && |h.tables| <= |h'.tables|
    ensures forall g :: 0 <= g < |h.tables| ==> h'.tables[g].size >= h.tables[g].size
    ensures !Growing(pc) ==> |h'.tables| == |h.tables| && h'.current == h.current
    ensures pc'.InPut? && pc'.job == pc.job && pc'.g == pc.g
    ensures Growing(pc') && !Growing(pc) ==>
              pc.stage.IncSize? && pc'.stage.Grow? && h.tables[pc.g].size + 1 == Threshold(h.tables[pc.g].bits)
              && h'.tables[pc.g].size == Threshold(h.tables[pc.g].bits)
  {
    hide Pow2, Slot, Threshold;
    if ZeroStep(h, pc, h', pc') && h.tables[pc.g].prev.To? {
      ZeroWordShape(h.tables[h.tables[pc.g].prev.table], SlotIn(h.tables[pc.g], pc));
      hide ZeroWord;
    }
  }

  /** A table's size changes by the increment of a put in it and by nothing else, and a put whose
      increment reaches the threshold goes on to grow the chain. */
  lemma PutSizeStep(h: Heap, pc: Pc, h': Heap, pc': Pc)
    requires PutStep(h, pc, h', pc')
    ensures pc.InPut? && pc.g < |h.tables| <= |h'.tables|
    ensures forall g :: 0 <= g < |h.tables| ==>
              h'.tables[g].size == h.tables[g].size + (if pc.stage.IncSize? && g == pc.g then 1 else 0)
    ensures pc.stage.IncSize? && h.tables[pc.g].size + 1 == Threshold(h.tables[pc.g].bits) ==> Growing(pc')
  {
    hide Pow2, Slot, Threshold;
    if ZeroStep(h, pc, h', pc') && h.tables[pc.g].prev.To? {
      ZeroWordShape(h.tables[h.tables[pc.g].prev.table], SlotIn(h.tables[pc.g], pc));
      hide ZeroWord;
    }
  }

  lemma GrowStepKeepsGrowth(h: Heap, threads: seq<Pc>, t: nat, h': Heap, pc': Pc)
    requires GrowthInv(h, threads) && t < |threads| && Ready(h, threads[t]) && GrowStep(h, threads[t], h', pc')
    ensures GrowthInv(h', threads[t := pc'])
  {
    var pc := threads[t];
    hide Threshold, EmptyTable, GrowthInv, Ready;
    if pc.stage.GrowCas? {
      GrowthPublishes(h, threads, t, pc');
    } else if Growing(pc') {
      GrowthAllocates(h, threads, t, EmptyTable(h.tables[pc.g].bits + 1, To(pc.g)));
    } else {
      GrowthGivesUp(h, threads, t, pc');
    }
  }

  lemma PutKeepsGrowth(h: Heap, threads: seq<Pc>, t: nat, h': Heap, pc': Pc)
    requires HeapInv(h) && GrowthInv(h, threads) && t < |threads| && ThreadInv(h, threads[t])
    requires PutStep(h, threads[t], h', pc')
    ensures GrowthInv(h', threads[t := pc'])
  {
    var pc := threads[t];
    PutIsReady(h, pc);
    assert pc.g <= h.current < |h.tables|;
    hide HeapInv, ThreadInv, GrowthInv, Ready, PutStep, GrowStep;
    if GrowStep(h, pc, h', pc') {
      GrowStepKeepsGrowth(h, threads, t, h', pc');
    } else {
      OtherPutKeepsGrowth(h, threads, t, h', pc');
    }
  }

  lemma OtherPutKeepsGrowth(h: Heap, threads: seq<Pc>, t: nat, h': Heap, pc': Pc)
    requires HeapInv(h) && GrowthInv(h, threads) && t < |threads| && Ready(h, threads[t])
    requires threads[t].g <= h.current && h.tables[threads[t].g].bits == h.bits + threads[t].g
    requires PutStep(h, threads[t], h', pc') && !GrowStep(h, threads[t], h', pc')
    ensures GrowthInv(h', threads[t := pc'])
  {
    var pc := threads[t];
    PutKeepsSizes(h, pc, h', pc');
    OtherPutSteps(h, pc, h', pc');
    hide Threshold, HeapInv, GrowthInv, Ready, PutStep, GrowStep;
    if Growing(pc') {
      GrowthStarts(h, threads, t);
    } else {
      GrowthStable(h, h', threads, t, pc');
    }
  }

  /** Only the count of a new key starts growth. */
  lemma OtherPutSteps(h: Heap, pc: Pc, h': Heap, pc': Pc)
    requires Ready(h, pc) && PutStep(h, pc, h', pc') && !GrowStep(h, pc, h', pc')
    ensures !Growing(pc)
    ensures Growing(pc') ==>
              var table := h.tables[pc.g];
              h' == WithTable(h, pc.g, table.(size := table.size + 1)) && pc' == pc.(stage := Grow)
  {
    hide Threshold, Pow2, Slot, ZeroWord;
  }

  // ---------------------------------------------------------------------------------------
  // Traces and results
  // ---------------------------------------------------------------------------------------

  /** As long as there is only the first table, a stored trace has the hash of its slot. */
  ghost predicate TracesInv(h: Heap) {
    h.current == 0 < |h.tables| ==> TracesMatch(h.tables[0])
  }

  ghost predicate TracesMatch(t: Table) {
    forall slot: nat :: slot < |t.traces| && slot < |t.keys| && t.traces[slot].Stored? ==>
      t.traces[slot].trace.hash == t.keys[slot] != 0
  }

  lemma OwnKeepsTraces(t: Table, pc: Pc)
    requires TracesMatch(t) && pc.InPut? && WellFormed(t) && SlotIn(t, pc) < Pow2(t.bits)
    requires pc.stage.IncSize? || pc.stage.SetTrace? || pc.stage.IncSamples? || pc.stage.IncCounter?
    requires pc.stage.SetTrace? && pc.stage.link.Stored? ==>
               pc.stage.link.trace.hash == t.keys[SlotIn(t, pc)] != 0
    ensures TracesMatch(OwnEffect(t, pc).0)
  {
    hide Pow2, Slot, Threshold;
  }

  lemma ProbeKeepsTraces(h: Heap, pc: Pc, h': Heap, pc': Pc)
    requires Ready(h, pc) && pc.g == 0 && TracesMatch(h.tables[0]) && ProbeStep(h, pc, h', pc')
    ensures TracesMatch(h'.tables[0])
  {
    hide Pow2, Slot, AfterLoad;
  }

  lemma PutKeepsTraces(h: Heap, pc: Pc, h': Heap, pc': Pc)
    requires HeapInv(h) && ThreadInv(h, pc) && TracesInv(h) && PutStep(h, pc, h', pc')
    requires h.current <= h'.current
    ensures TracesInv(h')
  {
    if h'.current == 0 {
      PutIsReady(h, pc);
      assert h.current == 0 && pc.g == 0 && h.tables[0].prev.Null?;
      hide Pow2, Slot, HeapInv, TracesMatch, Ready;
      if OwnStep(h, pc, h', pc') {
        OwnKeepsTraces(h.tables[0], pc);
      } else if ProbeStep(h, pc, h', pc') {
        ProbeKeepsTraces(h, pc, h', pc');
      } else {
        hide ThreadInv, EmptyTable, AfterFind, AfterFindTrace;
        assert h'.tables[0] == h.tables[0];
      }
    }
  }

  /** Accepted puts that landed in the newest table are still where they landed. */
  ghost predicate ResultInv(h: Heap, r: Result) {
    && r.g <= h.current < |h.tables|
    && (r.g == h.current ==> r.slot < |h.tables[r.g].keys| && h.tables[r.g].keys[r.slot] == r.hash != 0)
  }

  ghost predicate ResultsInv(h: Heap, results: seq<Result>) {
    forall i :: 0 <= i < |results| ==> ResultInv(h, results[i])
  }

  lemma ResultsStable(h: Heap, h': Heap, results: seq<Result>)
    requires ResultsInv(h, results) && Rely(h, h') && h'.current < |h'.tables|
    ensures ResultsInv(h', results)
  {
    forall i | 0 <= i < |results| ensures ResultInv(h', results[i]) {
      assert ResultInv(h, results[i]);
    }
  }

  // ---------------------------------------------------------------------------------------
  // Conservation
  // ---------------------------------------------------------------------------------------

  function Value(n: nat): int { n }

  /** The number, and the weight, of results in table `g`. */
  ghost function Landed(results: seq<Result>, g: nat): nat {
    if results == [] then 0
    else Landed(results[..|results| - 1], g) + (if results[|results| - 1].g == g then 1 else 0)
  }

  ghost function LandedWeight(results: seq<Result>, g: nat): nat {
    if results == [] then 0
    else LandedWeight(results[..|results| - 1], g) + (if results[|results| - 1].g
        == g then results[|results| - 1].weight else 0)
  }

  lemma LandedAppend(results: seq<Result>, r: Result, g: nat)
    ensures Landed(results + [r], g) == Landed(results, g) + (if r.g == g then 1 else 0)
    ensures LandedWeight(results + [r], g) == LandedWeight(results, g) + (if r.g == g then r.weight else 0)
  {
    assert (results + [r])[..|results|] == results;
  }

  lemma {:induction false} LandedNone(results: seq<Result>, g: nat)
    requires forall i :: 0 <= i < |results| ==> results[i].g != g
    ensures Landed(results, g) == 0 && LandedWeight(results, g) == 0
  {
    if results != [] {
      LandedNone(results[..|results| - 1], g);
    }
  }

  /** What a put at work has already added to the samples and counters of table `g`. */
  function PendingSample(pc: Pc, g: nat): nat {
    if pc.InPut? && pc.g == g && (pc.stage.IncCounter? || pc.stage.Unlock?) then 1 else 0
  }

  function PendingWeight(pc: Pc, g: nat): nat {
    if pc.InPut? && pc.g == g && pc.stage.Unlock? then pc.job.weight else 0
  }

  function PendingOverflow(pc: Pc): int {
    if pc.InPut? && pc.stage.UnlockOverflow? then 1 else 0
  }

  function PendingSamples(threads: seq<Pc>, g: nat): seq<nat> {
    seq(|threads|, t requires 0 <= t < |threads| => PendingSample(threads[t], g))
  }

  function PendingWeights(threads: seq<Pc>, g: nat): seq<nat> {
    seq(|threads|, t requires 0 <= t < |threads| => PendingWeight(threads[t], g))
  }

  /** The samples and counters of table `g` account for the accepted puts in it, finished or
      pending. */
  ghost predicate TableCounts(t: Table, g: nat, threads: seq<Pc>, results: seq<Result>) {
    && Total(Value, t.samples) == Landed(results, g) + Total(Value, PendingSamples(threads, g))
    && Total(Value, t.counters) == LandedWeight(results, g) + Total(Value, PendingWeights(threads, g))
  }

  ghost predicate CallCounts(overflow: nat, threads: seq<Pc>, log: Log) {
    log.completed + Total(PendingOverflow, threads) == |log.results| + overflow + log.refused
  }

  lemma PendingUpdate(threads: seq<Pc>, t: nat, pc: Pc, g: nat)
    requires t < |threads|
    ensures Total(Value, PendingSamples(threads[t := pc], g))
            == Total(Value, PendingSamples(threads, g)) - PendingSample(threads[t], g) + PendingSample(pc, g)
    ensures Total(Value, PendingWeights(threads[t := pc], g))
            == Total(Value, PendingWeights(threads, g)) - PendingWeight(threads[t], g) + PendingWeight(pc, g)
    ensures Total(PendingOverflow, threads[t := pc])
            == Total(PendingOverflow, threads) - PendingOverflow(threads[t]) + PendingOverflow(pc)
  {
    TotalUpdate(Value, PendingSamples(threads, g), t, PendingSample(pc, g));
    TotalUpdate(Value, PendingWeights(threads, g), t, PendingWeight(pc, g));
    TotalUpdate(PendingOverflow, threads, t, pc);
    assert PendingSamples(threads[t := pc], g) == PendingSamples(threads, g)[t := PendingSample(pc, g)];
    assert PendingWeights(threads[t := pc], g) == PendingWeights(threads, g)[t := PendingWeight(pc, g)];
  }

  lemma PendingNone(threads: seq<Pc>, g: nat)
    requires forall t :: 0 <= t < |threads| ==> !(threads[t].InPut? && threads[t].g == g)
    ensures Total(Value, PendingSamples(threads, g)) == 0 && Total(Value, PendingWeights(threads, g)) == 0
  {
    TotalZero(Value, PendingSamples(threads, g));
    TotalZero(Value, PendingWeights(threads, g));
  }

  ghost predicate CountsInv(h: Heap, threads: seq<Pc>, log: Log) {
    && h.current < |h.tables|
    && TableCounts(h.tables[h.current], h.current, threads, log.results)
    && CallCounts(h.overflow, threads, log)
  }

  /** How a step on its own table changes that table's totals. */
  lemma OwnCountEffect(t: Table, pc: Pc)
    requires pc.InPut? && WellFormed(t) && SlotIn(t, pc) < Pow2(t.bits)
    requires pc.stage.IncSize? || pc.stage.SetTrace? || pc.stage.IncSamples? || pc.stage.IncCounter?
    ensures var (t', stage') := OwnEffect(t, pc);
            var pc' := pc.(stage := stage');
            && Total(Value, t'.samples) == Total(Value, t.samples) - PendingSample(pc, pc.g) + PendingSample(pc', pc.g)
            && Total(Value, t'.counters) == Total(Value, t.counters) - PendingWeight(pc, pc.g) + PendingWeight(pc',
                pc.g)
  {
    hide Pow2, Slot, Threshold, Total;
    var slot := SlotIn(t, pc);
    if pc.stage.IncSamples? {
      TotalUpdate<nat>(Value, t.samples, slot, t.samples[slot] + 1);
    } else if pc.stage.IncCounter? {
      TotalUpdate<nat>(Value, t.counters, slot, t.counters[slot] + pc.job.weight);
    }
  }

  /** The other steps leave the samples and counters of the put's table and of all later
      tables. */
  lemma OtherStepsDoNotCount(h: Heap, pc: Pc, h': Heap, pc': Pc)
    requires PutStep(h, pc, h', pc') && !OwnStep(h, pc, h', pc')
    requires h.tables[pc.g].prev.To? ==> h.tables[pc.g].prev.table < pc.g
    ensures forall g :: pc.g <= g < |h.tables| ==>
              h'.tables[g].samples == h.tables[g].samples && h'.tables[g].counters == h.tables[g].counters
    ensures pc'.InPut? && pc'.g == pc.g
    ensures forall g :: PendingSample(pc', g) == PendingSample(pc, g) == 0
                        && PendingWeight(pc', g) == PendingWeight(pc, g) == 0
  {
    hide Pow2, Slot, Threshold, EmptyTable, ZeroWord;
  }

  lemma OverflowEffect(h: Heap, pc: Pc, h': Heap, pc': Pc)
    requires PutStep(h, pc, h', pc')
    ensures h'.overflow == h.overflow - PendingOverflow(pc) + PendingOverflow(pc')
  {
    hide Pow2, Slot, Threshold, EmptyTable, ZeroWord;
  }

  /** How a step of a put changes the totals of the newest table. */
  lemma PutCountEffect(h: Heap, pc: Pc, h': Heap, pc': Pc)
    requires HeapInv(h) && ThreadInv(h, pc) && PutStep(h, pc, h', pc') && h'.current == h.current
    ensures h.current < |h.tables| && h'.current < |h'.tables|
    ensures var t, t', g := h.tables[h.current], h'.tables[h.current], h.current;
            && Total(Value, t'.samples) == Total(Value, t.samples) - PendingSample(pc, g) + PendingSample(pc', g)
            && Total(Value, t'.counters) == Total(Value, t.counters) - PendingWeight(pc, g) + PendingWeight(pc', g)
            && h'.overflow == h.overflow - PendingOverflow(pc) + PendingOverflow(pc')
  {
    PutIsReady(h, pc);
    assert pc.g <= h.current < |h.tables|;
    PutKeepsSizes(h, pc, h', pc');
    OverflowEffect(h, pc, h', pc');
    hide HeapInv, ThreadInv, Total, Ready, ProbeStep, ReadStep, GrowStep, ZeroStep;
    if OwnStep(h, pc, h', pc') {
      OwnCountEffect(h.tables[pc.g], pc);
      hide OwnEffect;
    } else {
      OtherStepsDoNotCount(h, pc, h', pc');
      hide PutStep;
    }
  }

  lemma PutKeepsCounts(h: Heap, threads: seq<Pc>, t: nat, h': Heap, pc': Pc, log: Log)
    requires HeapInv(h) && t < |threads| && ThreadInv(h, threads[t]) && CountsInv(h, threads, log)
    requires PutStep(h, threads[t], h', pc') && h'.current == h.current
    ensures CountsInv(h', threads[t := pc'], log)
  {
    PutCountEffect(h, threads[t], h', pc');
    hide HeapInv, ThreadInv, PutStep, Total;
    PendingUpdate(threads, t, pc', h.current);
  }

  lemma EmptyTotals(bits: nat, prev: Link)
    ensures Total(Value, EmptyTable(bits, prev).samples) == 0 && Total(Value, EmptyTable(bits, prev).counters) == 0
  {
    TotalZero(Value, Zeros(Pow2(bits)));
  }

  /** Nothing has landed in a table that is just being published. */
  lemma PublishKeepsCounts(h: Heap, threads: seq<Pc>, t: nat, pc': Pc, log: Log)
    requires HeapInv(h) && t < |threads| && CountsInv(h, threads, log) && ResultsInv(h, log.results)
    requires forall u :: 0 <= u < |threads| ==> ThreadInv(h, threads[u])
    requires h.current + 1 == |h.tables| - 1 && Publishing(threads[t])
    requires pc'.InPut? && pc'.g == threads[t].g && !pc'.stage.UnlockOverflow?
    ensures CountsInv(h.(current := h.current + 1), threads[t := pc'], log)
  {
    var g := h.current + 1;
    assert h.tables[g] == EmptyTable(h.bits + h.current + 1, To(h.current));
    EmptyTotals(h.bits + h.current + 1, To(h.current));
    NoneAhead(h, threads, t, pc', log.results);
    hide HeapInv, ThreadInv, ResultsInv, EmptyTable;
    PendingNone(threads[t := pc'], g);
    LandedNone(log.results, g);
    PendingUpdate(threads, t, pc', h.current);
  }

  /** No put works on a table that is not yet published, or has landed there. */
  lemma NoneAhead(h: Heap, threads: seq<Pc>, t: nat, pc': Pc, results: seq<Result>)
    requires t < |threads| && forall u :: 0 <= u < |threads| ==> ThreadInv(h, threads[u])
    requires ResultsInv(h, results) && threads[t].InPut? && pc'.InPut? && pc'.g == threads[t].g
    ensures var threads' := threads[t := pc'];
            forall u :: 0 <= u < |threads'| ==> !(threads'[u].InPut? && threads'[u].g == h.current + 1)
    ensures forall i :: 0 <= i < |results| ==> results[i].g != h.current + 1
  {
    hide StageInv, KeysInv, Pow2;
    assert ThreadInv(h, threads[t]);
    forall i | 0 <= i < |results| ensures results[i].g != h.current + 1 {
      assert ResultInv(h, results[i]);
    }
  }

  // ---------------------------------------------------------------------------------------
  // The whole invariant
  // ---------------------------------------------------------------------------------------

  function ModeOf(pc: Pc): Mode {
    match pc
    case LoadTable(_) => Shared
    case InPut(_, _, _, _) => Shared
    case Clearing => Exclusive
    case ClearUnlock => Exclusive
    case _ => Free
  }

  function Modes(threads: seq<Pc>): (modes: seq<Mode>)
    ensures |modes| == |threads|
    ensures forall t :: 0 <= t < |threads| ==> modes[t] == ModeOf(threads[t])
  {
    seq(|threads|, t requires 0 <= t < |threads| => ModeOf(threads[t]))
  }

  ghost predicate GateInv(word: int, threads: seq<Pc>) {
    |threads| <= THREAD_LIMIT && LockInv(word, Modes(threads))
  }

  ghost predicate ThreadsInv(h: Heap, threads: seq<Pc>) {
    forall t :: 0 <= t < |threads| ==> ThreadInv(h, threads[t])
  }

  /** The invariant whenever no thread is inside the body of clear. */
  ghost predicate Settled(s: State) {
    && GateInv(s.word, s.threads)
    && HeapInv(s.heap)
    && ThreadsInv(s.heap, s.threads)
    && GrowthInv(s.heap, s.threads)
    && TracesInv(s.heap)
    && ResultsInv(s.heap, s.log.results)
    && CountsInv(s.heap, s.threads, s.log)
  }

  /** A thread that changes neither its mode nor the word. */
  lemma GateStays(word: int, threads: seq<Pc>, t: nat, pc: Pc)
    requires GateInv(word, threads) && t < |threads| && ModeOf(pc) == ModeOf(threads[t])
    ensures GateInv(word, threads[t := pc])
  {
    assert Modes(threads[t := pc]) == Modes(threads);
  }

  lemma PutStepKeepsCounts(h: Heap, threads: seq<Pc>, t: nat, h': Heap, pc': Pc, log: Log)
    requires HeapInv(h) && ThreadsInv(h, threads) && GrowthInv(h, threads) && CountsInv(h, threads, log)
    requires ResultsInv(h, log.results) && t < |threads| && PutStep(h, threads[t], h', pc')
    ensures CountsInv(h', threads[t := pc'], log)
  {
    assert ThreadInv(h, threads[t]);
    if h'.current == h.current {
      hide GrowthInv, ThreadInv, HeapInv;
      PutKeepsCounts(h, threads, t, h', pc', log);
    } else {
      PutKeepsSizes(h, threads[t], h', pc');
      assert GrowerInv(h, threads[t]);
      hide GrowthInv, ThreadInv, CountsInv, ResultsInv, HeapInv, Pow2, EmptyTable;
      assert GrowStep(h, threads[t], h', pc');
      PublishKeepsCounts(h, threads, t, pc', log);
    }
  }

  /** Every instruction of put keeps the invariant. */
  lemma PutStepKeepsInv(s: State, t: nat, s': State)
    requires Settled(s) && t < |s.threads| == |s'.threads| && PutStep(s.heap, s.threads[t], s'.heap, s'.threads[t])
    requires s' == State(s.word, s'.heap, s.threads[t := s'.threads[t]], s.log)
    ensures Settled(s')
  {
    var pc, pc' := s.threads[t], s'.threads[t];
    assert ThreadInv(s.heap, pc);
    assert Growing(pc) ==> GrowerInv(s.heap, pc);
    PutKeepsSizes(s.heap, pc, s'.heap, pc');
    PutKeepsHeap(s.heap, pc, s'.heap, pc');
    assert s'.heap.current < |s'.heap.tables| && s.heap.current <= s'.heap.current && pc.InPut?;
    hide HeapInv, PutStep, GateInv, GrowthInv, TracesInv, CountsInv, ThreadInv, Rely, ResultsInv, GrowerInv;
    PutKeepsGrowth(s.heap, s.threads, t, s'.heap, pc');
    PutKeepsTraces(s.heap, pc, s'.heap, pc');
    GateStays(s.word, s.threads, t, pc');
    PutStepKeepsCounts(s.heap, s.threads, t, s'.heap, pc', s.log);
    ResultsStable(s.heap, s'.heap, s.log.results);
    forall u | 0 <= u < |s'.threads| ensures ThreadInv(s'.heap, s'.threads[u]) {
      if u != t {
        ThreadStable(s.heap, s'.heap, s.threads[u]);
      }
    }
  }

  // ---------------------------------------------------------------------------------------
  // Taking and releasing the lock
  // ---------------------------------------------------------------------------------------

  lemma GateAcquires(word: int, threads: seq<Pc>, t: nat, pc: Pc)
    requires GateInv(word, threads) && t < |threads| && ModeOf(threads[t]).Free?
    requires (ModeOf(pc).Shared? && word <= 0) || (ModeOf(pc).Exclusive? && word == 0)
    ensures GateInv(if ModeOf(pc).Shared? then Int32(word - 1) else 1, threads[t := pc])
  {
    assert Modes(threads[t := pc]) == Modes(threads)[t := ModeOf(pc)];
    if ModeOf(pc).Shared? {
      AcquireShared(word, Modes(threads), t);
    } else {
      AcquireExclusive(word, Modes(threads), t);
    }
  }

  lemma GateReleases(word: int, threads: seq<Pc>, t: nat, pc: Pc)
    requires GateInv(word, threads) && t < |threads| && !ModeOf(threads[t]).Free? && ModeOf(pc).Free?
    ensures GateInv(if ModeOf(threads[t]).Shared? then Int32(word + 1) else Int32(word - 1), threads[t := pc])
  {
    assert Modes(threads[t := pc]) == Modes(threads)[t := ModeOf(pc)];
    if ModeOf(threads[t]).Shared? {
      ReleaseShared(word, Modes(threads), t);
    } else {
      ReleaseExclusive(word, Modes(threads), t);
    }
  }

  lemma GateStepKeepsGate(s: State, t: nat, s': State)
    requires GateInv(s.word, s.threads) && t < |s.threads| && GateStep(s, t, s') && ThreadInv(s.heap, s.threads[t])
    ensures GateInv(s'.word, s'.threads)
    ensures |s'.threads| == |s.threads| && s'.threads == s.threads[t := s'.threads[t]] && s'.heap == s.heap
  {
    hide GateInv, Slot, Int32;
    var pc, pc' := s.threads[t], s'.threads[t];
    assert s'.threads == s.threads[t := pc'];
    if ModeOf(pc).Free? && !ModeOf(pc').Free? {
      GateAcquires(s.word, s.threads, t, pc');
    } else if !ModeOf(pc).Free? && ModeOf(pc').Free? {
      GateReleases(s.word, s.threads, t, pc');
    } else {
      GateStays(s.word, s.threads, t, pc');
    }
  }

  /** What a put that takes or gives back the lock knows, and what it adds to the log. */
  lemma GateStepKeepsThread(s: State, t: nat, s': State)
    requires HeapInv(s.heap) && t < |s.threads| && GateStep(s, t, s') && ThreadInv(s.heap, s.threads[t])
    ensures |s'.threads| == |s.threads| && ThreadInv(s.heap, s'.threads[t])
    ensures !Growing(s.threads[t]) && !Growing(s'.threads[t])
  {
    hide Slot, Int32, PathInv;
  }

  /** The log after a step at the gate. */
  lemma GateStepLog(s: State, t: nat, s': State)
    requires t < |s.threads| && GateStep(s, t, s')
    ensures |s'.threads| == |s.threads|
    ensures var pc := s.threads[t];
            if pc.InPut? then
              && pc.g < |s.heap.tables| && s'.threads[t].Idle?
              && s'.log == s.log.(completed := s.log.completed + 1,
                                  results := if pc.stage.UnlockOverflow? then s.log.results
                                             else s.log.results + [Result(pc.job.trace.hash, pc.g,
                                                 SlotIn(s.heap.tables[pc.g], pc), pc.job.weight)])
              && (pc.stage.Unlock? || pc.stage.UnlockOverflow?)
            else
              && s'.log.results == s.log.results
              && s'.log.completed - s.log.completed == s'.log.refused - s.log.refused
              && (s'.threads[t].InPut? ==> s'.threads[t].stage.Load?)
  {
    hide Slot, Int32;
  }

  /** A put that returns an id moves from the pending to the finished ones. */
  lemma AcceptKeepsCounts(h: Heap, threads: seq<Pc>, t: nat, log: Log, r: Result)
    requires CountsInv(h, threads, log) && t < |threads| && threads[t].InPut? && threads[t].stage.Unlock?
    requires r.g == threads[t].g && r.weight == threads[t].job.weight
    ensures CountsInv(h, threads[t := Idle], log.(completed := log.completed + 1, results := log.results + [r]))
  {
    hide Total, Landed, LandedWeight;
    PendingUpdate(threads, t, Idle, h.current);
    LandedAppend(log.results, r, h.current);
  }

  lemma OtherGateKeepsCounts(h: Heap, threads: seq<Pc>, t: nat, pc': Pc, log: Log, log': Log)
    requires CountsInv(h, threads, log) && t < |threads| && log'.results == log.results
    requires pc'.InPut? ==> pc'.stage.Load?
    requires var pc := threads[t];
             || (!pc.InPut? && log'.completed - log.completed == log'.refused - log.refused)
             || (pc.InPut? && pc.stage.UnlockOverflow? && log'.completed == log.completed + 1 && log'.refused
                 == log.refused)
    ensures CountsInv(h, threads[t := pc'], log')
  {
    hide Total, Landed, LandedWeight;
    PendingUpdate(threads, t, pc', h.current);
  }

  lemma GateStepKeepsCounts(s: State, t: nat, s': State)
    requires HeapInv(s.heap) && t < |s.threads| && GateStep(s, t, s') && ThreadInv(s.heap, s.threads[t])
    requires CountsInv(s.heap, s.threads, s.log) && ResultsInv(s.heap, s.log.results)
    requires |s'.threads| == |s.threads| && s'.threads == s.threads[t := s'.threads[t]]
    ensures CountsInv(s.heap, s'.threads, s'.log) && ResultsInv(s.heap, s'.log.results)
  {
    GateStepLog(s, t, s');
    hide HeapInv, GateStep, Slot, Pow2, ThreadInv, CountsInv, ResultInv;
    var pc := s.threads[t];
    if pc.InPut? && pc.stage.Unlock? {
      ResultOfPut(s.heap, pc);
      var r := Result(pc.job.trace.hash, pc.g, SlotIn(s.heap.tables[pc.g], pc), pc.job.weight);
      AcceptKeepsCounts(s.heap, s.threads, t, s.log, r);
    } else {
      OtherGateKeepsCounts(s.heap, s.threads, t, s'.threads[t], s.log, s'.log);
    }
  }

  lemma ResultOfPut(h: Heap, pc: Pc)
    requires HeapInv(h) && ThreadInv(h, pc) && pc.InPut? && pc.stage.Unlock?
    ensures pc.g < |h.tables|
    ensures ResultInv(h, Result(pc.job.trace.hash, pc.g, SlotIn(h.tables[pc.g], pc), pc.job.weight))
  {
    PutIsReady(h, pc);
    hide HeapInv, Pow2, Slot;
  }

  lemma GateStepKeepsInv(s: State, t: nat, s': State)
    requires Settled(s) && t < |s.threads| && GateStep(s, t, s')
    ensures Settled(s')
  {
    assert ThreadInv(s.heap, s.threads[t]);
    GateStepKeepsGate(s, t, s');
    GateStepKeepsThread(s, t, s');
    GateStepKeepsCounts(s, t, s');
    GrowthStable(s.heap, s.heap, s.threads, t, s'.threads[t]);
    hide HeapInv, GateStep, GateInv, GrowthInv, TracesInv, CountsInv, ThreadInv, ResultsInv;
  }

  // ---------------------------------------------------------------------------------------
  // clear
  // ---------------------------------------------------------------------------------------

  /** While a thread clears, no put is between taking and releasing the shared lock. */
  lemma ClearExcludesPut(s: State, t: nat, u: nat)
    requires GateInv(s.word, s.threads) && t < |s.threads| && u < |s.threads|
    requires ModeOf(s.threads[t]).Exclusive? && t != u
    ensures ModeOf(s.threads[u]).Free?
  {
    ExclusiveIsAlone(s.word, Modes(s.threads), t, u);
    assert Modes(s.threads)[u].Free?;
  }

  /** Threads that are not in put know nothing about the tables. */
  lemma OutsidersKept(h: Heap, h': Heap, pc: Pc)
    requires ThreadInv(h, pc) && !pc.InPut?
    ensures ThreadInv(h', pc)
  {
  }

  /** During a clear the newest table may be one that its successor has written into, so only
      the shape of the chain is known. */
  ghost predicate ShapeInv(h: Heap) {
    && 1 <= h.bits && h.bits + |h.tables| <= MAX_BITS + 1
    && |h.tables| == h.current + 1
    && forall g :: 0 <= g < |h.tables| ==> TableInv(h.tables[g], h.bits, g)
  }

  ghost predicate NobodyInside(h: Heap, threads: seq<Pc>) {
    forall t :: 0 <= t < |threads| ==> !threads[t].InPut? && ThreadInv(h, threads[t])
  }

  ghost predicate SomeClearing(threads: seq<Pc>) {
    exists t :: 0 <= t < |threads| && threads[t].Clearing?
  }

  ghost predicate Inv(s: State) {
    if SomeClearing(s.threads)
    then GateInv(s.word, s.threads) && ShapeInv(s.heap) && NobodyInside(s.heap, s.threads)
    else Settled(s)
  }

  /** A thread that enters clear finds no put inside and no half-made table. */
  lemma ClearBegins(s: State, t: nat)
    requires Settled(s) && t < |s.threads| && s.threads[t].Clearing?
    ensures ShapeInv(s.heap) && NobodyInside(s.heap, s.threads)
  {
    forall u | 0 <= u < |s.threads| ensures !s.threads[u].InPut? && ThreadInv(s.heap, s.threads[u]) {
      if u != t {
        ClearExcludesPut(s, t, u);
      }
    }
    assert !SomePublishing(s.threads);
  }

  lemma EmptyHeapInv(bits: nat)
    requires 1 <= bits <= MAX_BITS
    ensures HeapInv(Heap(bits, [EmptyTable(bits, Null)], 0, 0)) && TracesInv(Heap(bits, [EmptyTable(bits, Null)], 0, 0))
  {
    EmptyInPathOrder(bits, Null);
    hide PathInv;
  }

  /** With nobody inside, an empty storage and an empty log are consistent. */
  lemma EmptyIsSettled(s: State)
    requires GateInv(s.word, s.threads) && NobodyInside(s.heap, s.threads)
    requires 1 <= s.heap.bits <= MAX_BITS
    requires s.heap == Heap(s.heap.bits, [EmptyTable(s.heap.bits, Null)], 0, 0) && s.log == Log(0, 0, [])
    ensures Settled(s)
  {
    EmptyHeapInv(s.heap.bits);
    EmptyTotals(s.heap.bits, Null);
    PendingNone(s.threads, 0);
    TotalZero(PendingOverflow, s.threads);
    hide HeapInv, TracesInv, GateInv, EmptyTable;
    assert Landed([], 0) == 0 && LandedWeight([], 0) == 0;
  }

  lemma ClearStepKeepsInv(s: State, t: nat, s': State)
    requires Inv(s) && t < |s.threads| && ClearStep(s, t, s')
    ensures Inv(s')
  {
    assert SomeClearing(s.threads);
    var h := s.heap;
    var table := h.tables[h.current];
    assert TableInv(table, h.bits, h.current);
    hide GateInv, EmptyTable, WellFormed;
    if table.prev.To? {
      forall u | 0 <= u < |s.threads| ensures ThreadInv(s'.heap, s.threads[u]) {
        OutsidersKept(h, s'.heap, s.threads[u]);
      }
      assert s'.threads == s.threads;
    } else {
      GateStays(s.word, s.threads, t, ClearUnlock);
      forall u | 0 <= u < |s.threads| ensures ThreadInv(s'.heap, s.threads[u]) && !s.threads[u].InPut? {
        OutsidersKept(h, s'.heap, s.threads[u]);
      }
      assert s'.heap.tables == [EmptyTable(h.bits, Null)];
      EmptyIsSettled(s');
      forall u | 0 <= u < |s'.threads| ensures !s'.threads[u].Clearing? {
        if u != t {
          ClearExcludesPut(s, t, u);
        }
      }
    }
  }

  /** While one thread clears, the others can only be turned away. */
  lemma OthersDuringClear(s: State, t: nat, s': State)
    requires Inv(s) && SomeClearing(s.threads) && t < |s.threads| && GateStep(s, t, s')
    ensures Inv(s')
  {
    var c :| 0 <= c < |s.threads| && s.threads[c].Clearing?;
    assert ThreadInv(s.heap, s.threads[t]);
    assert t != c;
    ClearExcludesPut(s, c, t);
    GateStepKeepsGate(s, t, s');
    hide Int32, Slot;
    ClearExcludesPut(s', c, t);
    assert s'.threads[c].Clearing?;
    hide GateInv, ShapeInv;
    forall u | 0 <= u < |s'.threads| ensures !s'.threads[u].InPut? && ThreadInv(s'.heap, s'.threads[u]) {
      if u != t {
        assert ThreadInv(s.heap, s.threads[u]);
      }
    }
  }

  lemma StepKeepsInv(s: State, t: nat, s': State)
    requires Inv(s) && Step(s, t, s')
    ensures Inv(s')
  {
    hide Settled, ShapeInv, GateInv, PutStep, GateStep, ClearStep;
    if ClearStep(s, t, s') {
      ClearStepKeepsInv(s, t, s');
    } else if SomeClearing(s.threads) {
      if GateStep(s, t, s') {
        OthersDuringClear(s, t, s');
      } else {
        NoPutDuringClear(s, t, s');
      }
    } else {
      if GateStep(s, t, s') {
        GateStepKeepsInv(s, t, s');
      } else {
        PutStepKeepsInv(s, t, s');
      }
      if SomeClearing(s'.threads) {
        var c :| 0 <= c < |s'.threads| && s'.threads[c].Clearing?;
        ClearBegins(s', c);
        SettledGate(s');
      }
    }
  }

  lemma SettledGate(s: State)
    requires Settled(s)
    ensures GateInv(s.word, s.threads)
  {
  }

  lemma NoPutDuringClear(s: State, t: nat, s': State)
    requires Inv(s) && SomeClearing(s.threads) && t < |s.threads|
    ensures !PutStep(s.heap, s.threads[t], s'.heap, if t < |s'.threads| then s'.threads[t] else Idle)
  {
  }
}
