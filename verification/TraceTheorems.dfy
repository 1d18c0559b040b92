/** What holds in every state of every run of the call trace storage. */
module TraceTheorems {
  import opened Words
  import opened Sums
  import opened Bits
  import opened Probe
  import opened LockWord
  import opened TraceStorage
  import opened TraceInvariant
  import TraceIds

  lemma {:induction false} RunInv(run: seq<State>, i: nat)
    requires IsRun(run) && i < |run|
    ensures Inv(run[i])
  {
    if i == 0 {
      var s := run[0];
      AllFree(Modes(s.threads));
      EmptyIsSettled(s);
    } else {
      hide Inv, Step, Init;
      RunInv(run, i - 1);
      assert Next(run[i - 1], run[i - 1 + 1]);
      var t :| Step(run[i - 1], t, run[i]);
      StepKeepsInv(run[i - 1], t, run[i]);
    }
  }

  /** `clear` never overlaps a `put`: while one thread is between lock and unlock in clear, no
      other thread is between tryLockShared and unlockShared in put, or in clear. */
  lemma ClearNeverOverlapsPut(run: seq<State>, i: nat, t: nat, u: nat)
    requires IsRun(run) && i < |run| && t < |run[i].threads| && u < |run[i].threads| && t != u
    requires run[i].threads[t].Clearing? || run[i].threads[t].ClearUnlock?
    ensures var pc := run[i].threads[u];
            !pc.LoadTable? && !pc.InPut? && !pc.Clearing? && !pc.ClearUnlock?
  {
    RunInv(run, i);
    ClearExcludesPut(run[i], t, u);
  }

  /** In the newest table a hash sits in at most one slot, and the slots before it on its probe
      path hold other hashes. */
  lemma HashSitsOnce(run: seq<State>, i: nat, a: nat, b: nat)
    requires IsRun(run) && i < |run| && !SomeClearing(run[i].threads)
    ensures var h := run[i].heap; h.current < |h.tables| && PathInv(h.tables[h.current].keys, h.bits + h.current)
    ensures var keys := run[i].heap.tables[run[i].heap.current].keys;
            a < |keys| && b < |keys| && keys[a] == keys[b] != 0 ==> a == b
  {
    RunInv(run, i);
    var h := run[i].heap;
    var keys := h.tables[h.current].keys;
    if a < |keys| && b < |keys| && keys[a] == keys[b] != 0 {
      HashOccursOnce(keys, h.bits + h.current, a, b);
    }
  }

  function IdOf(h: Heap, r: Result): nat {
    TraceIds.Id(h.bits, r.g, r.slot)
  }

  /** Among the puts that landed in the newest table, equal hashes got equal ids and different
      hashes got different ids; no id is 0 or the overflow id. */
  lemma EqualHashesEqualIds(run: seq<State>, i: nat, j: nat, k: nat)
    requires IsRun(run) && i < |run| && !SomeClearing(run[i].threads)
    requires j < |run[i].log.results| && k < |run[i].log.results|
    requires run[i].log.results[j].g == run[i].heap.current == run[i].log.results[k].g
    ensures var h, a, b := run[i].heap, run[i].log.results[j], run[i].log.results[k];
            && (a.hash == b.hash <==> IdOf(h, a) == IdOf(h, b))
            && 0 < IdOf(h, a) < TraceIds.OVERFLOW_TRACE_ID
  {
    RunInv(run, i);
    var h, a, b := run[i].heap, run[i].log.results[j], run[i].log.results[k];
    assert HeapInv(h) && h.current < |h.tables|;
    assert ResultInv(h, a) && ResultInv(h, b);
    HashSitsOnce(run, i, a.slot, b.slot);
    hide IsRun, Inv, HeapInv, PathInv, TraceIds.Id;
    SlotIds(h, h.current, a.slot, b.slot);
  }

  /** Slots of one table have different ids, all in range. */
  lemma SlotIds(h: Heap, g: nat, a: nat, b: nat)
    requires HeapInv(h) && g < |h.tables| && a < |h.tables[g].keys| && b < |h.tables[g].keys|
    ensures a == b <==> TraceIds.Id(h.bits, g, a) == TraceIds.Id(h.bits, g, b)
    ensures 0 < TraceIds.Id(h.bits, g, a) < TraceIds.OVERFLOW_TRACE_ID
  {
    TableAt(h, g);
    assert a < Pow2(h.bits + g) && b < Pow2(h.bits + g) && 1 <= h.bits;
    hide HeapInv, TraceIds.Id, Pow2;
    TraceIds.IdIsExact(h.bits, g, a);
    if a != b {
      TraceIds.IdsDiffer(h.bits, g, a, g, b);
    }
  }

  /** As long as the storage has not grown, a stored trace has the hash of its slot's key. */
  lemma StoredTracesMatch(run: seq<State>, i: nat, slot: nat)
    requires IsRun(run) && i < |run| && !SomeClearing(run[i].threads) && run[i].heap.current == 0
    ensures |run[i].heap.tables| > 0
    ensures var t := run[i].heap.tables[0];
            slot < |t.traces| && slot < |t.keys| && t.traces[slot].Stored? ==> t.traces[slot].trace.hash == t.keys[slot]
  {
    RunInv(run, i);
  }

  /** A put that is about to report overflow in a table without successor has met only other
      hashes, and every slot of the table holds one. */
  lemma OverflowOnlyWhenFull(run: seq<State>, i: nat, t: nat)
    requires IsRun(run) && i < |run| && t < |run[i].threads|
    requires run[i].threads[t].InPut? && run[i].threads[t].stage.IncOverflow?
    requires run[i].threads[t].g == run[i].heap.current
    ensures var h := run[i].heap;
            && h.current < |h.tables| && |h.tables[h.current].keys| == Pow2(h.bits + h.current)
            && FullOfOthers(h.tables[h.current].keys, run[i].threads[t].job.trace.hash)
  {
    RunInv(run, i);
    assert ThreadInv(run[i].heap, run[i].threads[t]);
    TableAt(run[i].heap, run[i].heap.current);
  }

  /** At most one put is growing the chain at any time, and when it publishes the table it has
      made, the table it expects is current: the compare-and-swap succeeds, so no table is lost. */
  lemma GrowthSucceeds(run: seq<State>, i: nat, t: nat)
    requires IsRun(run) && i < |run| && t < |run[i].threads|
    requires Growing(run[i].threads[t])
    ensures forall u :: 0 <= u < |run[i].threads| && u != t ==> !Growing(run[i].threads[u])
    ensures var h, pc := run[i].heap, run[i].threads[t];
            pc.stage.GrowCas? ==> h.current == pc.g && pc.stage.made == h.current + 1 == |h.tables| - 1
  {
    RunInv(run, i);
    var s := run[i];
    assert GrowthInv(s.heap, s.threads);
    forall u | 0 <= u < |s.threads| && u != t ensures !Growing(s.threads[u]) {
    }
  }

  /** The chain: table g has capacity 2^(bits + g) and points back to table g - 1; the current
      table is the last one, except while a put is about to publish the last one. */
  lemma ChainDoubles(run: seq<State>, i: nat, g: nat)
    requires IsRun(run) && i < |run| && g < |run[i].heap.tables|
    ensures TableInv(run[i].heap.tables[g], run[i].heap.bits, g)
    ensures var s := run[i];
            s.heap.current == |s.heap.tables| - 1
            || (s.heap.current == |s.heap.tables| - 2 && SomePublishing(s.threads))
  {
    RunInv(run, i);
  }

  /** A step other than one of clear never lowers the size of a table. */
  lemma SizesOnlyGrow(s: State, t: nat, s': State, g: nat)
    requires Step(s, t, s') && !ClearStep(s, t, s') && g < |s.heap.tables|
    ensures g < |s'.heap.tables| && s'.heap.tables[g].size >= s.heap.tables[g].size
    ensures s'.heap.bits == s.heap.bits
  {
    if GateStep(s, t, s') {
      hide Int32, Slot;
    } else {
      PutKeepsSizes(s.heap, s.threads[t], s'.heap, s'.threads[t]);
      hide PutStep;
    }
  }

  /** Thread `t` leaves state `i` with the increment that reaches the threshold of table `g`. */
  ghost predicate SeesThreshold(run: seq<State>, i: nat, t: nat, g: nat) {
    && i + 1 < |run| && t < |run[i].threads| == |run[i + 1].threads|
    && PutStep(run[i].heap, run[i].threads[t], run[i + 1].heap, run[i + 1].threads[t])
    && run[i].threads[t].InPut? && run[i].threads[t].stage.IncSize? && run[i].threads[t].g == g
    && Growing(run[i + 1].threads[t])
  }

  lemma {:induction false} SizeKept(run: seq<State>, i: nat, j: nat, g: nat)
    requires IsRun(run) && i <= j < |run| && g < |run[i].heap.tables|
    requires forall k: nat, t: nat :: i <= k < j ==> !ClearStep'(run, k, t)
    ensures g < |run[j].heap.tables| && run[j].heap.tables[g].size >= run[i].heap.tables[g].size
    ensures run[j].heap.bits == run[i].heap.bits
    decreases j
  {
    hide ClearStep, Init, Inv;
    if i < j {
      SizeKept(run, i, j - 1, g);
      assert Next(run[j - 1], run[j - 1 + 1]);
      var t: nat :| Step(run[j - 1], t, run[j]);
      assert t < |run[j - 1].threads|;
      assert !ClearStep'(run, j - 1, t);
      hide Step;
      SizesOnlyGrow(run[j - 1], t, run[j], g);
    }
  }

  ghost predicate ClearStep'(run: seq<State>, k: nat, t: nat) {
    k + 1 < |run| && t < |run[k].threads| && ClearStep(run[k], t, run[k + 1])
  }

  /** Between two clears, one put per table sees the threshold. */
  lemma ThresholdSeenOnce(run: seq<State>, i: nat, t: nat, j: nat, u: nat, g: nat)
    requires IsRun(run) && i < j && j + 1 < |run|
    requires SeesThreshold(run, i, t, g)
    requires forall k: nat, t: nat :: i <= k < j ==> !ClearStep'(run, k, t)
    ensures !SeesThreshold(run, j, u, g)
  {
    hide IsRun, SeesThreshold, ClearStep', Threshold;
    ThresholdAt(run, i, t, g);
    SizeKept(run, i + 1, j, g);
    if SeesThreshold(run, j, u, g) {
      ThresholdAt(run, j, u, g);
    }
  }

  lemma ThresholdAt(run: seq<State>, i: nat, t: nat, g: nat)
    requires IsRun(run) && SeesThreshold(run, i, t, g)
    ensures i + 1 < |run| && g < |run[i].heap.tables| && g < |run[i + 1].heap.tables|
    ensures run[i].heap.tables[g].size + 1 == Threshold(run[i].heap.bits + g) == run[i + 1].heap.tables[g].size
    ensures run[i + 1].heap.bits == run[i].heap.bits
  {
    hide IsRun, PutStep, Inv, Threshold;
    var s := run[i];
    PutKeepsSizes(s.heap, s.threads[t], run[i + 1].heap, run[i + 1].threads[t]);
    PutTableExists(s.heap, s.threads[t], run[i + 1].heap, run[i + 1].threads[t]);
    ChainDoubles(run, i, g);
  }

  /** A size passes the threshold only by a put that sees it. */
  lemma CrossingIsSeen(run: seq<State>, k: nat, g: nat) returns (t: nat)
    requires IsRun(run) && k + 1 < |run| && g < |run[k].heap.tables| && g < |run[k + 1].heap.tables|
    requires forall t: nat :: !ClearStep'(run, k, t)
    requires run[k].heap.tables[g].size < Threshold(run[k].heap.bits + g) <= run[k + 1].heap.tables[g].size
    ensures SeesThreshold(run, k, t, g)
  {
    ChainDoubles(run, k, g);
    assert Next(run[k], run[k + 1]);
    hide IsRun, PutStep, Threshold, Inv, ClearStep;
    t :| Step(run[k], t, run[k + 1]);
    assert !ClearStep'(run, k, t);
    hide Int32, Slot;
    if !GateStep(run[k], t, run[k + 1]) {
      PutSizeStep(run[k].heap, run[k].threads[t], run[k + 1].heap, run[k + 1].threads[t]);
    }
  }

  lemma {:induction false} ThresholdIsSeen(run: seq<State>, i: nat, j: nat, g: nat) returns (k: nat, t: nat)
    requires IsRun(run) && i <= j < |run| && g < |run[i].heap.tables| && g < |run[j].heap.tables|
    requires forall k: nat, t: nat :: i <= k < j ==> !ClearStep'(run, k, t)
    requires run[i].heap.tables[g].size < Threshold(run[i].heap.bits + g) <= run[j].heap.tables[g].size
    ensures i <= k < j && SeesThreshold(run, k, t, g)
    decreases j
  {
    hide IsRun, SeesThreshold, ClearStep', Threshold;
    SizeKept(run, i, j - 1, g);
    if run[j - 1].heap.tables[g].size < Threshold(run[i].heap.bits + g) {
      k := j - 1;
      t := CrossingIsSeen(run, k, g);
    } else {
      k, t := ThresholdIsSeen(run, i, j - 1, g);
    }
  }

  /** Between two clears, when a table's size goes from below the threshold to at least it,
      exactly one put sees the threshold. */
  lemma ThresholdSeenByOne(run: seq<State>, i: nat, j: nat, g: nat) returns (k: nat, t: nat)
    requires IsRun(run) && i <= j < |run| && g < |run[i].heap.tables| && g < |run[j].heap.tables|
    requires forall k: nat, t: nat :: i <= k < j ==> !ClearStep'(run, k, t)
    requires run[i].heap.tables[g].size < Threshold(run[i].heap.bits + g) <= run[j].heap.tables[g].size
    ensures i <= k < j && SeesThreshold(run, k, t, g)
    ensures forall l: nat, u: nat :: i <= l < j && SeesThreshold(run, l, u, g) ==> l == k && u == t
  {
    k, t := ThresholdIsSeen(run, i, j, g);
    forall l: nat, u: nat | i <= l < j && SeesThreshold(run, l, u, g) ensures l == k && u == t {
      if k < l {
        ThresholdSeenOnce(run, k, t, l, u, g);
      } else if l < k {
        ThresholdSeenOnce(run, l, u, k, t, g);
      } else {
        OneThreadSees(run, k, t, u, g);
      }
    }
  }

  /** In step `k` thread `t` begins to grow the chain behind table `g`. */
  ghost predicate BeginsGrowth(run: seq<State>, k: nat, t: nat, g: nat) {
    && k + 1 < |run| && t < |run[k].threads| == |run[k + 1].threads|
    && (run[k].threads[t].InPut? ==> !run[k].threads[t].stage.Grow?)
    && run[k + 1].threads[t].InPut? && run[k + 1].threads[t].stage.Grow? && run[k + 1].threads[t].g == g
  }

  lemma GrowthIsSeen(run: seq<State>, k: nat, t: nat, g: nat)
    requires IsRun(run) && BeginsGrowth(run, k, t, g)
    ensures SeesThreshold(run, k, t, g)
  {
    assert Next(run[k], run[k + 1]);
    hide IsRun, PutStep, GateStep, ClearStep, Threshold;
    var v: nat :| Step(run[k], v, run[k + 1]);
    StepMovesOne(run[k], v, run[k + 1]);
    EntersGrow(run[k], t, run[k + 1]);
  }

  /** Growth begins with the count of a key, and with no other instruction. */
  lemma EntersGrow(s: State, t: nat, s': State)
    requires Step(s, t, s') && (s.threads[t].InPut? ==> !s.threads[t].stage.Grow?)
    requires s'.threads[t].InPut? && s'.threads[t].stage.Grow?
    ensures PutStep(s.heap, s.threads[t], s'.heap, s'.threads[t])
    ensures s.threads[t].InPut? && s.threads[t].stage.IncSize? && s'.threads[t].g == s.threads[t].g
  {
    hide Int32, Slot, Pow2, Threshold, ZeroWord, EmptyTable;
    if !GateStep(s, t, s') && !ClearStep(s, t, s') {
      assert !GrowStep(s.heap, s.threads[t], s'.heap, s'.threads[t]);
      PutKeepsSizes(s.heap, s.threads[t], s'.heap, s'.threads[t]);
    }
  }

  /** When the size of a table of `c` slots passes from below three quarters of `c` to at least that,
      with no clear between, exactly one put begins to grow the chain behind that table, by the count
      that reaches three quarters. */
  lemma GrowsAtThreeQuarters(run: seq<State>, i: nat, j: nat, g: nat, c: nat) returns (k: nat, t: nat)
    requires IsRun(run) && i <= j < |run| && g < |run[i].heap.tables| && g < |run[j].heap.tables|
    requires forall k: nat, t: nat :: i <= k < j ==> !ClearStep'(run, k, t)
    requires c == |run[i].heap.tables[g].keys|
    requires run[i].heap.tables[g].size < 3 * c / 4 <= run[j].heap.tables[g].size
    ensures i <= k < j && BeginsGrowth(run, k, t, g)
    ensures forall l: nat, u: nat :: i <= l < j && BeginsGrowth(run, l, u, g) ==> l == k && u == t
    ensures g < |run[k].heap.tables| && g < |run[k + 1].heap.tables|
    ensures run[k].heap.tables[g].size + 1 == run[k + 1].heap.tables[g].size == 3 * c / 4
    ensures c >= 4 ==> 4 * run[k + 1].heap.tables[g].size == 3 * c
  {
    ChainDoubles(run, i, g);
    SizeKept(run, i, i, g);
    ThresholdOf(run[i].heap.bits + g, c);
    hide IsRun, SeesThreshold, ClearStep', Threshold, Inv, BeginsGrowth;
    k, t := ThresholdSeenByOne(run, i, j, g);
    ThresholdAt(run, k, t, g);
    SizeKept(run, i, k, g);
    ThresholdGrows(run, k, t, g);
    forall l: nat, u: nat | i <= l < j && BeginsGrowth(run, l, u, g) ensures l == k && u == t {
      GrowthIsSeen(run, l, u, g);
    }
  }

  lemma ThresholdOf(bits: nat, c: nat)
    requires c == Pow2(bits)
    ensures Threshold(bits) == 3 * c / 4 && (c >= 4 ==> 4 * Threshold(bits) == 3 * c)
  {
    if bits >= 2 {
      assert Pow2(bits) == 4 * Pow2(bits - 2);
    }
  }

  lemma ThresholdGrows(run: seq<State>, k: nat, t: nat, g: nat)
    requires SeesThreshold(run, k, t, g)
    ensures BeginsGrowth(run, k, t, g)
  {
    var s, s' := run[k], run[k + 1];
    PutKeepsSizes(s.heap, s.threads[t], s'.heap, s'.threads[t]);
    hide PutStep;
  }

  lemma OneThreadSees(run: seq<State>, k: nat, t: nat, u: nat, g: nat)
    requires IsRun(run) && SeesThreshold(run, k, t, g) && SeesThreshold(run, k, u, g)
    ensures t == u
  {
    assert Next(run[k], run[k + 1]);
    hide IsRun, PutStep, GateStep, ClearStep;
    var v: nat :| Step(run[k], v, run[k + 1]);
    StepMovesOne(run[k], v, run[k + 1]);
  }

  lemma StepMovesOne(s: State, v: nat, s': State)
    requires Step(s, v, s')
    ensures forall t :: 0 <= t < |s.threads| && t != v ==> s'.threads[t] == s.threads[t]
  {
    hide Int32, Slot, PutStep;
  }

  lemma PutTableExists(h: Heap, pc: Pc, h': Heap, pc': Pc)
    requires PutStep(h, pc, h', pc')
    ensures pc.InPut? && pc.g < |h.tables|
  {
  }

  ghost predicate Quiescent(s: State) {
    forall t :: 0 <= t < |s.threads| ==> s.threads[t].Idle?
  }

  /** Conservation. At quiescence the samples of the newest table count the accepted puts that
      landed in it, and its counters hold their total weight. Every put that returned since the last
      clear is one of those samples, a put into an earlier table, an overflow or a refusal. */
  lemma PutsAreConserved(run: seq<State>, i: nat)
    requires IsRun(run) && i < |run| && Quiescent(run[i])
    ensures var h, log := run[i].heap, run[i].log;
            && h.current < |h.tables|
            && Total(Value, h.tables[h.current].samples) == Landed(log.results, h.current)
            && Total(Value, h.tables[h.current].counters) == LandedWeight(log.results, h.current)
            && log.completed == Total(Value, h.tables[h.current].samples) + LandedBefore(log.results, h.current)
                                + h.overflow + log.refused
            && (h.current == 0 ==> LandedBefore(log.results, h.current) == 0)
  {
    RunInv(run, i);
    var s := run[i];
    assert Settled(s);
    PendingNone(s.threads, s.heap.current);
    TotalZero(PendingOverflow, s.threads);
    forall k | 0 <= k < |s.log.results| ensures s.log.results[k].g <= s.heap.current {
      assert ResultInv(s.heap, s.log.results[k]);
    }
    hide Inv, HeapInv, IsRun, Total;
    LandedSplit(s.log.results, s.heap.current);
  }

  /** How many puts landed in tables before table `g`. */
  ghost function LandedBefore(results: seq<Result>, g: nat): nat {
    if results == [] then 0
    else LandedBefore(results[..|results| - 1], g) + (if results[|results| - 1].g < g then 1 else 0)
  }

  lemma {:induction false} LandedSplit(results: seq<Result>, g: nat)
    requires forall k :: 0 <= k < |results| ==> results[k].g <= g
    ensures Landed(results, g) + LandedBefore(results, g) == |results|
    ensures g == 0 ==> LandedBefore(results, g) == 0
  {
    if results != [] {
      LandedSplit(results[..|results| - 1], g);
    }
  }

  /** No thread is ever stuck: whatever instruction it is at, everything that instruction reads
      or writes exists and is in range. */
  lemma EveryThreadCanStep(run: seq<State>, i: nat, t: nat) returns (s': State)
    requires IsRun(run) && i < |run| && t < |run[i].threads|
    ensures Step(run[i], t, s')
  {
    RunInv(run, i);
    var s := run[i];
    var pc := s.threads[t];
    if pc.InPut? && !pc.stage.Unlock? && !pc.stage.UnlockOverflow? {
      assert Settled(s) && ThreadInv(s.heap, pc);
      PutIsReady(s.heap, pc);
      var h', pc' := PutCanStep(s.heap, pc);
      s' := State(s.word, h', s.threads[t := pc'], s.log);
    } else if pc.Clearing? {
      s' := ClearCanStep(s, t);
    } else {
      s' := GateCanStep(s, t);
    }
  }

  lemma PutCanStep(h: Heap, pc: Pc) returns (h': Heap, pc': Pc)
    requires Ready(h, pc) && !pc.stage.Unlock? && !pc.stage.UnlockOverflow?
    requires pc.stage.Find? || pc.stage.FindTrace? ==> h.tables[pc.g].prev.To?
    ensures PutStep(h, pc, h', pc')
  {
    hide Pow2, Slot, Threshold;
    var t := h.tables[pc.g];
    var slot := SlotIn(t, pc);
    h' := h;
    if pc.stage.IncSize? || pc.stage.SetTrace? || pc.stage.IncSamples? || pc.stage.IncCounter? {
      var (t', stage') := OwnEffect(t, pc);
      h', pc' := WithTable(h, pc.g, t'), pc.(stage := stage');
      return;
    }
    match pc.stage {
      case Load => pc' := AfterLoad(t, pc);
      case CasKey =>
        if t.keys[slot] == 0 {
          h', pc' := WithTable(h, pc.g, t.(keys := t.keys[slot := pc.job.trace.hash])), pc.(stage := IncSize);
        } else {
          pc' := pc.(stage := Load);
        }
      case Grow => pc' := pc.(stage := AfterGrow(t));
      case GrowCas(made) =>
        h', pc' := (if h.current == pc.g then h.(current := made) else h), pc.(stage := AfterGrow(t));
      case Find(at) => pc' := pc.(stage := AfterFind(h.tables[t.prev.table], pc.job.trace.hash, at));
      case FindTrace(from) => pc' := pc.(stage := AfterFindTrace(h.tables[t.prev.table], from));
      case Store => pc' := pc.(stage := SetTrace(NoTrace));
      case ClearPrev =>
        pc' := pc.(stage := IncSamples);
        if t.prev.To? {
          h' := WithTable(h, t.prev.table, ZeroWord(h.tables[t.prev.table], slot));
        }
      case IncOverflow => h', pc' := h.(overflow := h.overflow + 1), pc.(stage := UnlockOverflow);
    }
  }

  lemma ClearCanStep(s: State, t: nat) returns (s': State)
    requires Inv(s) && t < |s.threads| && s.threads[t].Clearing?
    ensures Step(s, t, s')
  {
    assert SomeClearing(s.threads);
    var table := s.heap.tables[s.heap.current];
    if table.prev.To? {
      s' := s.(heap := s.heap.(tables := s.heap.tables[..s.heap.current], current := table.prev.table));
    } else {
      s' := Moved(s, t, ClearUnlock).(
        heap := Heap(s.heap.bits, s.heap.tables[s.heap.current := EmptyTable(table.bits, Null)], s.heap.current, 0),
        log := Log(0, 0, []));
    }
    assert ClearStep(s, t, s');
  }

  lemma GateCanStep(s: State, t: nat) returns (s': State)
    requires Inv(s) && t < |s.threads| && !s.threads[t].Clearing?
    requires s.threads[t].InPut? ==> s.threads[t].stage.Unlock? || s.threads[t].stage.UnlockOverflow?
    ensures Step(s, t, s')
  {
    if s.threads[t].InPut? {
      assert ThreadInv(s.heap, s.threads[t]);
      hide Inv, ThreadInv;
      s' := UnlockCanStep(s, t);
    } else {
      hide Inv, Int32;
      s' := OutsiderCanStep(s, t);
    }
  }

  lemma UnlockCanStep(s: State, t: nat) returns (s': State)
    requires t < |s.threads| && s.threads[t].InPut? && s.threads[t].g < |s.heap.tables|
    requires s.threads[t].stage.Unlock? || s.threads[t].stage.UnlockOverflow?
    ensures GateStep(s, t, s')
  {
    hide Int32, Slot;
    var pc := s.threads[t];
    var result := Result(pc.job.trace.hash, pc.g, SlotIn(s.heap.tables[pc.g], pc), pc.job.weight);
    s' := Moved(s, t, Idle).(
      word := Int32(s.word + 1),
      log := s.log.(completed := s.log.completed + 1,
                    results := if pc.stage.UnlockOverflow? then s.log.results else s.log.results + [result]));
  }

  lemma OutsiderCanStep(s: State, t: nat) returns (s': State)
    requires t < |s.threads| && !s.threads[t].Clearing? && !s.threads[t].InPut?
    ensures GateStep(s, t, s')
  {
    hide Int32;
    match s.threads[t] {
      case Idle => s' := Moved(s, t, ClearSpin);
      case Enter(job) =>
        s' := if s.word <= 0 then Moved(s, t, EnterCas(job, s.word))
              else Moved(s, t, Idle).(log := s.log.(completed := s.log.completed + 1, refused := s.log.refused + 1));
      case EnterCas(job, v) =>
        s' := if s.word == v then Moved(s, t, LoadTable(job)).(word := Int32(v - 1)) else Moved(s, t, Enter(job));
      case LoadTable(job) => s' := Moved(s, t, InPut(job, s.heap.current, 0, Load));
      case ClearSpin => s' := if s.word == 0 then Moved(s, t, Clearing).(word := 1) else s;
      case ClearUnlock => s' := Moved(s, t, Idle).(word := Int32(s.word - 1));
    }
  }
}
