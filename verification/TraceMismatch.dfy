/** A run in which a put claims a slot late, and what comes of it, for every initial capacity. The first
    table is filled to three quarters, so that it gets a successor. The put of hash 4N, for an initial
    capacity N, clears slot 0 of the old table because its own slot in the new table is 0; a put of hash
    2N that still works on the old table claims that slot, and a put of hash 2N on the new table takes
    the trace of hash N, still in the slot, for its own. When the late put returns, it has the id that
    the put of hash N got. */
module TraceMismatch {
  import opened Words
  import opened Bits
  import opened Probe
  import opened TraceStorage
  import TraceTheorems

  ghost predicate Reachable(s: State) {
    exists run: seq<State> :: IsRun(run) && run[|run| - 1] == s
  }

  lemma Go(s: State, t: nat, s': State)
    requires Reachable(s) && Step(s, t, s')
    ensures Reachable(s')
  {
    hide Step, Init;
    var run: seq<State> :| IsRun(run) && run[|run| - 1] == s;
    var longer := run + [s'];
    assert Next(s, s');
    forall i | 0 <= i < |longer| - 1 ensures Next(longer[i], longer[i + 1]) {
      if i < |run| - 1 {
        assert Next(run[i], run[i + 1]);
      }
    }
    assert IsRun(longer);
  }

  /** A put takes the shared lock and the current table. */
  lemma Enters(s: State, t: nat, job: Job) returns (s': State)
    requires Reachable(s) && t < |s.threads| && s.threads[t].Idle? && job.trace.hash != 0 && -10 < s.word <= 0
    ensures Reachable(s')
    ensures s' == State(s.word - 1, s.heap, s.threads[t := InPut(job, s.heap.current, 0, Load)], s.log)
  {
    var s1, s2 := Moved(s, t, Enter(job)), Moved(s, t, EnterCas(job, s.word));
    var s3 := Moved(s, t, LoadTable(job)).(word := s.word - 1);
    s' := State(s.word - 1, s.heap, s.threads[t := InPut(job, s.heap.current, 0, Load)], s.log);
    assert Int32(s.word - 1) == s.word - 1;
    hide Int32;
    assert GateStep(s, t, s1);
    Go(s, t, s1);
    assert GateStep(s1, t, s2);
    Go(s1, t, s2);
    assert GateStep(s2, t, s3);
    Go(s2, t, s3);
    assert GateStep(s3, t, s');
    Go(s3, t, s');
  }

  // ---------------------------------------------------------------------------------------
  // The instructions of a put, one lemma each
  // ---------------------------------------------------------------------------------------

  /** One or two tables. */
  ghost predicate Small(h: Heap) {
    && 1 <= |h.tables| <= 2 && SmallTable(h.tables[0], h.bits, Null)
    && (|h.tables| == 2 ==> SmallTable(h.tables[1], h.bits + 1, To(0)))
  }

  ghost predicate SmallTable(t: Table, bits: nat, prev: Link) {
    WellFormed(t) && t.bits == bits && t.prev == prev
  }

  ghost predicate At(h: Heap, pc: Pc, stage: Stage) {
    Small(h) && pc.InPut? && pc.g < |h.tables| && pc.stage == stage
  }

  lemma AtIsReady(h: Heap, pc: Pc)
    requires Small(h) && pc.InPut? && pc.g < |h.tables|
    ensures Ready(h, pc) && SlotIn(h.tables[pc.g], pc) == Slot(pc.job.trace.hash, h.bits + pc.g, pc.step)
    ensures var n := |h.tables[pc.g].keys|;
            n == |h.tables[pc.g].traces| && SlotIn(h.tables[pc.g], pc) < n
  {
    SlotClosed(pc.job.trace.hash, h.bits + pc.g, pc.step);
    hide Slot, Pow2;
  }

  lemma Acts(s: State, t: nat, h: Heap, pc: Pc) returns (s': State)
    requires Reachable(s) && t < |s.threads| && PutStep(s.heap, s.threads[t], h, pc)
    ensures s' == State(s.word, h, s.threads[t := pc], s.log) && Reachable(s')
  {
    s' := State(s.word, h, s.threads[t := pc], s.log);
    hide PutStep, GateStep, ClearStep;
    Go(s, t, s');
  }

  lemma Looks(s: State, t: nat) returns (s': State)
    requires Reachable(s) && t < |s.threads| && At(s.heap, s.threads[t], Load)
    ensures SlotIn(s.heap.tables[s.threads[t].g], s.threads[t]) < |s.heap.tables[s.threads[t].g].keys|
    ensures s' == State(s.word, s.heap, s.threads[t := AfterLoad(s.heap.tables[s.threads[t].g], s.threads[t])], s.log)
    ensures Reachable(s')
  {
    hide Slot, Pow2;
    var pc := s.threads[t];
    AtIsReady(s.heap, pc);
    s' := Acts(s, t, s.heap, AfterLoad(s.heap.tables[pc.g], pc));
  }

  lemma Claims(s: State, t: nat) returns (s': State)
    requires Reachable(s) && t < |s.threads| && At(s.heap, s.threads[t], CasKey)
    requires var pc := s.threads[t];
             var slot := Slot(pc.job.trace.hash, s.heap.bits + pc.g, pc.step);
             slot < |s.heap.tables[pc.g].keys| && s.heap.tables[pc.g].keys[slot] == 0
    ensures var pc, t0 := s.threads[t], s.heap.tables[s.threads[t].g];
            var slot := Slot(pc.job.trace.hash, s.heap.bits + pc.g, pc.step);
            s' == State(s.word, WithTable(s.heap, pc.g, t0.(keys := t0.keys[slot := pc.job.trace.hash])),
                        s.threads[t := pc.(stage := IncSize)], s.log)
    ensures Reachable(s') && Small(s'.heap)
  {
    hide Slot, Pow2;
    var pc, t0 := s.threads[t], s.heap.tables[s.threads[t].g];
    AtIsReady(s.heap, pc);
    var slot := Slot(pc.job.trace.hash, s.heap.bits + pc.g, pc.step);
    s' := Acts(s, t, WithTable(s.heap, pc.g, t0.(keys := t0.keys[slot := pc.job.trace.hash])), pc.(stage := IncSize));
  }

  lemma Counts(s: State, t: nat) returns (s': State)
    requires Reachable(s) && t < |s.threads| && At(s.heap, s.threads[t], IncSize)
    ensures var pc, t0 := s.threads[t], s.heap.tables[s.threads[t].g];
            s' == State(s.word, WithTable(s.heap, pc.g, t0.(size := t0.size + 1)),
                        s.threads[t := pc.(stage := if t0.size + 1
                            == Threshold(t0.bits) then Grow else AfterGrow(t0))], s.log)
    ensures Reachable(s') && Small(s'.heap)
  {
    hide Slot, Pow2, Threshold;
    var pc, t0 := s.threads[t], s.heap.tables[s.threads[t].g];
    AtIsReady(s.heap, pc);
    s' := Acts(s, t, WithTable(s.heap, pc.g, t0.(size := t0.size + 1)),
               pc.(stage := if t0.size + 1 == Threshold(t0.bits) then Grow else AfterGrow(t0)));
  }

  /** The first table grows. */
  lemma Grows(s: State, t: nat) returns (s': State)
    requires Reachable(s) && t < |s.threads| && At(s.heap, s.threads[t], Grow) && |s.heap.tables| == 1
        && s.heap.current == 0
    requires s.heap.bits < MAX_BITS
    ensures var pc := s.threads[t];
            s' == State(s.word, s.heap.(tables := s.heap.tables + [EmptyTable(s.heap.bits + 1, To(0))], current := 1),
                        s.threads[t := pc.(stage := Store)], s.log)
    ensures Reachable(s') && Small(s'.heap)
  {
    hide Slot, Pow2;
    var pc := s.threads[t];
    AtIsReady(s.heap, pc);
    var h := s.heap.(tables := s.heap.tables + [EmptyTable(s.heap.bits + 1, To(0))]);
    var s1 := Acts(s, t, h, pc.(stage := GrowCas(1)));
    AtIsReady(h, s1.threads[t]);
    s' := Acts(s1, t, h.(current := 1), pc.(stage := Store));
    assert s'.threads == s.threads[t := pc.(stage := Store)];
  }

  lemma Finds(s: State, t: nat, at: nat) returns (s': State)
    requires Reachable(s) && t < |s.threads| && At(s.heap, s.threads[t], Find(at)) && s.threads[t].g == 1
    ensures var pc := s.threads[t];
            s' == State(s.word, s.heap, s.threads[t := pc.(stage := AfterFind(s.heap.tables[0], pc.job.trace.hash,
                at))], s.log)
    ensures Reachable(s')
  {
    hide Slot, Pow2, AfterFind;
    var pc := s.threads[t];
    AtIsReady(s.heap, pc);
    s' := Acts(s, t, s.heap, pc.(stage := AfterFind(s.heap.tables[0], pc.job.trace.hash, at)));
  }

  lemma Takes(s: State, t: nat, from: nat) returns (s': State)
    requires Reachable(s) && t < |s.threads| && At(s.heap, s.threads[t], FindTrace(from)) && s.threads[t].g == 1
    ensures var pc := s.threads[t];
            s' == State(s.word, s.heap, s.threads[t := pc.(stage := AfterFindTrace(s.heap.tables[0], from))], s.log)
    ensures Reachable(s')
  {
    hide Slot, Pow2, AfterFindTrace;
    var pc := s.threads[t];
    AtIsReady(s.heap, pc);
    s' := Acts(s, t, s.heap, pc.(stage := AfterFindTrace(s.heap.tables[0], from)));
  }

  lemma Stores(s: State, t: nat) returns (s': State)
    requires Reachable(s) && t < |s.threads| && At(s.heap, s.threads[t], Store)
    ensures var pc := s.threads[t];
            s' == State(s.word, s.heap, s.threads[t := pc.(stage := SetTrace(Stored(pc.job.trace)))], s.log)
    ensures Reachable(s')
  {
    hide Slot, Pow2;
    var pc := s.threads[t];
    AtIsReady(s.heap, pc);
    s' := Acts(s, t, s.heap, pc.(stage := SetTrace(Stored(pc.job.trace))));
  }

  lemma Sets(s: State, t: nat, link: TraceLink) returns (s': State)
    requires Reachable(s) && t < |s.threads| && At(s.heap, s.threads[t], SetTrace(link))
    ensures var pc, t0 := s.threads[t], s.heap.tables[s.threads[t].g];
            var slot := Slot(pc.job.trace.hash, s.heap.bits + pc.g, pc.step);
            && slot < |t0.traces|
            && s' == State(s.word, WithTable(s.heap, pc.g, t0.(traces := t0.traces[slot := link])),
                           s.threads[t := pc.(stage := ClearPrev)], s.log)
    ensures Reachable(s') && Small(s'.heap)
  {
    hide Slot, Pow2;
    var pc, t0 := s.threads[t], s.heap.tables[s.threads[t].g];
    AtIsReady(s.heap, pc);
    var slot := Slot(pc.job.trace.hash, s.heap.bits + pc.g, pc.step);
    s' := Acts(s, t, WithTable(s.heap, pc.g, t0.(traces := t0.traces[slot := link])), pc.(stage := ClearPrev));
  }

  /** The claim with its count. */
  lemma ClaimsAndCounts(s: State, t: nat, slot: nat) returns (s': State)
    requires Reachable(s) && t < |s.threads| && At(s.heap, s.threads[t], CasKey)
    requires var pc := s.threads[t];
             slot == Slot(pc.job.trace.hash, s.heap.bits + pc.g, pc.step)
             && slot < |s.heap.tables[pc.g].keys| && s.heap.tables[pc.g].keys[slot] == 0
    ensures var pc, t0 := s.threads[t], s.heap.tables[s.threads[t].g];
            var t1 := t0.(keys := t0.keys[slot := pc.job.trace.hash], size := t0.size + 1);
            s' == State(s.word, WithTable(s.heap, pc.g, t1), s.threads[t := pc.(stage :=
                        if t1.size == Threshold(t0.bits) then Grow else AfterGrow(t0))], s.log)
    ensures Reachable(s') && Small(s'.heap)
  {
    hide Slot, Pow2, Threshold, Reachable, WellFormed;
    s' := Claims(s, t);
    s' := Counts(s', t);
    var pc, t0 := s.threads[t], s.heap.tables[s.threads[t].g];
    var t1 := t0.(keys := t0.keys[slot := pc.job.trace.hash], size := t0.size + 1);
    assert s'.heap.tables == s.heap.tables[pc.g := t1];
  }

  /** The put stores its own trace. */
  lemma StoresOwn(s: State, t: nat, slot: nat) returns (s': State)
    requires Reachable(s) && t < |s.threads| && At(s.heap, s.threads[t], Store)
    requires slot == Slot(s.threads[t].job.trace.hash, s.heap.bits + s.threads[t].g, s.threads[t].step)
    ensures var pc, t0 := s.threads[t], s.heap.tables[s.threads[t].g];
            && slot < |t0.traces|
            && s' == State(s.word, WithTable(s.heap, pc.g, t0.(traces := t0.traces[slot := Stored(pc.job.trace)])),
                           s.threads[t := pc.(stage := ClearPrev)], s.log)
    ensures Reachable(s') && Small(s'.heap)
  {
    hide Slot, Pow2, Reachable, WellFormed;
    s' := Stores(s, t);
    s' := Sets(s', t, Stored(s.threads[t].job.trace));
  }

  /** A put on the second table clears the key of the first with its own slot number. */
  lemma Clears(s: State, t: nat) returns (s': State)
    requires Reachable(s) && t < |s.threads| && At(s.heap, s.threads[t], ClearPrev) && s.threads[t].g == 1
    requires Slot(s.threads[t].job.trace.hash, s.heap.bits + 1, s.threads[t].step) < |s.heap.tables[0].keys|
    ensures var pc, t0 := s.threads[t], s.heap.tables[0];
            s' == State(s.word, WithTable(s.heap, 0, t0.(keys := t0.keys[Slot(pc.job.trace.hash, s.heap.bits + 1,
                pc.step) := 0])),
                        s.threads[t := pc.(stage := IncSamples)], s.log)
    ensures Reachable(s') && Small(s'.heap)
  {
    hide Slot, Pow2;
    var pc, t0 := s.threads[t], s.heap.tables[0];
    AtIsReady(s.heap, pc);
    s' := Acts(s, t, WithTable(s.heap, 0, t0.(keys := t0.keys[Slot(pc.job.trace.hash, s.heap.bits + 1, pc.step) := 0])),
               pc.(stage := IncSamples));
  }

  function ResultOf(bits: nat, pc: Pc): Result
    requires pc.InPut?
  {
    Result(pc.job.trace.hash, pc.g, Slot(pc.job.trace.hash, bits + pc.g, pc.step), pc.job.weight)
  }

  /** A put on the first table has nothing to clear; it counts its sample and weight and leaves. */
  lemma Finishes(s: State, t: nat) returns (s': State)
    requires Reachable(s) && t < |s.threads| && At(s.heap, s.threads[t], ClearPrev) && s.threads[t].g == 0
    requires -10 < s.word < 0
    ensures Reachable(s') && Small(s'.heap) && s'.word == s.word + 1 && s'.threads == s.threads[t := Idle]
    ensures SameButCounts(s.heap, s'.heap)
    ensures s'.log.results == s.log.results + [ResultOf(s.heap.bits, s.threads[t])]
  {
    hide Slot, Pow2, Reachable;
    var pc := s.threads[t];
    AtIsReady(s.heap, pc);
    var t0, slot := s.heap.tables[0], SlotIn(s.heap.tables[0], pc);
    var s1 := Acts(s, t, s.heap, pc.(stage := IncSamples));
    var s2 := CountsSample(s1, t);
    var s3 := CountsWeight(s2, t);
    s' := Leaves(s3, t);
    assert s'.threads == s.threads[t := Idle];
  }

  /** Only samples and counters of the tables may differ. */
  ghost predicate SameButCounts(h: Heap, h': Heap) {
    && h'.bits == h.bits && h'.current == h.current && h'.overflow == h.overflow && |h'.tables| == |h.tables|
    && forall g :: 0 <= g < |h.tables| ==>
         h'.tables[g] == h.tables[g].(samples := h'.tables[g].samples, counters := h'.tables[g].counters)
  }

  lemma CountsSample(s: State, t: nat) returns (s': State)
    requires Reachable(s) && t < |s.threads| && At(s.heap, s.threads[t], IncSamples)
    ensures Reachable(s') && Small(s'.heap) && SameButCounts(s.heap, s'.heap)
    ensures s' == State(s.word, s'.heap, s.threads[t := s.threads[t].(stage := IncCounter)], s.log)
  {
    hide Slot, Pow2, Reachable;
    var pc := s.threads[t];
    AtIsReady(s.heap, pc);
    var t0, slot := s.heap.tables[pc.g], SlotIn(s.heap.tables[pc.g], pc);
    s' := Acts(s, t, WithTable(s.heap, pc.g, t0.(samples := t0.samples[slot := t0.samples[slot] + 1])),
               pc.(stage := IncCounter));
  }

  lemma CountsWeight(s: State, t: nat) returns (s': State)
    requires Reachable(s) && t < |s.threads| && At(s.heap, s.threads[t], IncCounter)
    ensures Reachable(s') && Small(s'.heap) && SameButCounts(s.heap, s'.heap)
    ensures s' == State(s.word, s'.heap, s.threads[t := s.threads[t].(stage := Unlock)], s.log)
  {
    hide Slot, Pow2, Reachable;
    var pc := s.threads[t];
    AtIsReady(s.heap, pc);
    var t0, slot := s.heap.tables[pc.g], SlotIn(s.heap.tables[pc.g], pc);
    s' := Acts(s, t, WithTable(s.heap, pc.g, t0.(counters := t0.counters[slot := t0.counters[slot] + pc.job.weight])),
               pc.(stage := Unlock));
  }

  lemma Leaves(s: State, t: nat) returns (s': State)
    requires Reachable(s) && t < |s.threads| && At(s.heap, s.threads[t], Unlock) && -10 < s.word < 0
    ensures Reachable(s') && s'.heap == s.heap && s'.word == s.word + 1 && s'.threads == s.threads[t := Idle]
    ensures s'.log.results == s.log.results + [ResultOf(s.heap.bits, s.threads[t])]
  {
    hide Slot, Pow2;
    var pc := s.threads[t];
    var result := Result(pc.job.trace.hash, pc.g, SlotIn(s.heap.tables[pc.g], pc), pc.job.weight);
    s' := Moved(s, t, Idle).(
      word := s.word + 1,
      log := s.log.(completed := s.log.completed + 1, results := s.log.results + [result]));
    assert Int32(s.word + 1) == s.word + 1;
    hide Int32;
    assert GateStep(s, t, s');
    Go(s, t, s');
  }

  // ---------------------------------------------------------------------------------------
  // The run
  // ---------------------------------------------------------------------------------------

  function T(hash: nat): Trace {
    Trace([], hash)
  }

  function P(hash: nat, g: nat, step: nat, stage: Stage): Pc {
    InPut(Job(T(hash), 1), g, step, stage)
  }

  /** The hashes that fill the first table, one after the other. */
  function HashOf(b: nat, k: nat): nat {
    if k == 0 then Pow2(b) else k
  }

  lemma HashOfFirst(b: nat)
    ensures HashOf(b, 0) == Pow2(b)
  {
  }

  lemma FillSlots(b: nat, k: nat)
    requires k < Pow2(b)
    ensures Slot(HashOf(b, k), b, 0) == k && HashOf(b, k) != 0 && HashOf(b, k) < 2 * Pow2(b)
  {
    SlotClosed(HashOf(b, k), b, 0);
    if k == 0 {
      RemainderUnique(Pow2(b), Pow2(b), 1, 0);
    } else {
      RemSmall(k, Pow2(b));
    }
  }

  lemma Numbers(b: nat)
    requires b >= 1
    ensures var n := Pow2(b);
            && n >= 2 && Pow2(b + 1) == 2 * n
            && Slot(2 * n, b, 0) == 0 && Slot(2 * n, b + 1, 0) == 0 && Slot(2 * n, b + 1, 1) == 1
            && Slot(4 * n, b, 0) == 0 && Slot(4 * n, b + 1, 0) == 0
            && 1 <= Threshold(b) < n && Threshold(b + 1) >= 3
  {
    var n := Pow2(b);
    assert n == 2 * Pow2(b - 1);
    SlotClosed(2 * n, b, 0);
    SlotClosed(2 * n, b + 1, 0);
    SlotClosed(2 * n, b + 1, 1);
    SlotClosed(4 * n, b, 0);
    SlotClosed(4 * n, b + 1, 0);
    assert Tri(0) == 0 && Tri(1) == 1;
    RemainderUnique(2 * n, n, 2, 0);
    RemainderUnique(4 * n, n, 4, 0);
    RemainderUnique(2 * n, 2 * n, 1, 0);
    RemainderUnique(2 * n + 1, 2 * n, 1, 1);
    RemainderUnique(4 * n, 2 * n, 2, 0);
  }

  /** The first `n` slots are filled. */
  ghost predicate Filled(h: Heap, b: nat, n: nat) {
    && Small(h) && |h.tables| == 1 && h.current == 0 && h.bits == b
    && var t := h.tables[0];
       && n <= |t.keys| == |t.traces| == Pow2(b) && t.size == n
       && (forall k: nat :: k < n ==> t.keys[k] == HashOf(b, k))
       && (forall k: nat :: n <= k < |t.keys| ==> t.keys[k] == 0)
       && (n > 0 ==> t.traces[0] == Stored(T(Pow2(b))))
  }

  /** The put of hash N, into slot 0 of the first table, has returned. */
  ghost predicate FirstReturned(results: seq<Result>, b: nat) {
    Result(Pow2(b), 0, 0, 1) in results
  }

  /** One thread fills the table while another is about to look at slot 0. */
  ghost predicate Filling(s: State, b: nat, n: nat) {
    Reachable(s) && s.word == -1 && Filled(s.heap, b, n) && (n > 0 ==> FirstReturned(s.log.results, b))
    && s.threads == [Idle, P(2 * Pow2(b), 0, 0, Load), Idle, Idle]
  }

  lemma Starts(b: nat) returns (s: State)
    requires 1 <= b < MAX_BITS
    ensures Filling(s, b, 0)
  {
    s := State(0, Heap(b, [EmptyTable(b, Null)], 0, 0), [Idle, Idle, Idle, Idle], Log(0, 0, []));
    assert IsRun([s]) && [s][0] == s;
    assert Filled(s.heap, b, 0);
    hide IsRun, Filled, Pow2;
    assert Reachable(s);
    hide Reachable;
    s := Enters(s, 1, Job(T(2 * Pow2(b)), 1));
  }

  /** A put begins in the next free slot. */
  lemma BeginsPut(s: State, b: nat, n: nat) returns (s': State)
    requires Filling(s, b, n) && n < Pow2(b)
    ensures Reachable(s') && s'.word == -2 && s'.heap == s.heap && s'.log == s.log
    ensures s'.threads == [P(HashOf(b, n), 0, 0, CasKey), P(2 * Pow2(b), 0, 0, Load), Idle, Idle]
  {
    FillSlots(b, n);
    hide Slot, Pow2, Reachable, HashOf;
    s' := Enters(s, 0, Job(T(HashOf(b, n)), 1));
    s' := Looks(s', 0);
  }

  /** And claims it. */
  lemma ClaimsNext(s: State, b: nat, n: nat) returns (s': State)
    requires Filling(s, b, n) && n < Pow2(b) && 1 <= b
    ensures Reachable(s') && s'.word == -2 && Small(s'.heap) && s'.log == s.log
    ensures s.heap.current == 0 && s.heap.bits == b && |s.heap.tables| == 1
    ensures var stage := if n + 1 == Threshold(b) then Grow else Store;
            s'.threads == [P(HashOf(b, n), 0, 0, stage), P(2 * Pow2(b), 0, 0, Load), Idle, Idle]
    ensures var t := s.heap.tables[0];
            s'.heap == s.heap.(tables := [t.(keys := t.keys[n := HashOf(b, n)], size := n + 1)])
  {
    s' := BeginsPut(s, b, n);
    FillSlots(b, n);
    hide Slot, Pow2, Reachable, HashOf, Threshold, WellFormed;
    s' := ClaimsAndCounts(s', 0, n);
  }

  /** A whole put below the threshold. */
  lemma PutsNext(s: State, b: nat, n: nat) returns (s': State)
    requires Filling(s, b, n) && 1 <= b && n + 1 < Threshold(b)
    ensures Filling(s', b, n + 1)
  {
    Numbers(b);
    FillSlots(b, n);
    var s1 := ClaimsNext(s, b, n);
    hide Slot, Pow2, Reachable, Threshold, HashOf, WellFormed;
    s' := StoresAndFinishes(s1, n);
    assert n == 0 ==> HashOf(b, n) == Pow2(b) by {
      HashOfFirst(b);
    }
    FilledNext(s.heap, s'.heap, b, n);
  }

  lemma StoresAndFinishes(s: State, slot: nat) returns (s': State)
    requires Reachable(s) && |s.threads| == 4 && At(s.heap, s.threads[0], Store) && s.threads[0].g == 0
    requires s.word == -2 && slot == Slot(s.threads[0].job.trace.hash, s.heap.bits, s.threads[0].step)
    ensures Reachable(s') && Small(s'.heap) && s'.word == -1 && s'.threads == s.threads[0 := Idle]
    ensures s'.log.results == s.log.results + [ResultOf(s.heap.bits, s.threads[0])]
    ensures var t0 := s.heap.tables[0];
            && slot < |t0.traces|
            && SameButCounts(WithTable(s.heap, 0, t0.(traces := t0.traces[slot := Stored(s.threads[0].job.trace)])),
                             s'.heap)
  {
    hide Slot, Pow2, Reachable, WellFormed, SameButCounts;
    var s1 := StoresOwn(s, 0, slot);
    s' := Finishes(s1, 0);
    assert s'.threads == s.threads[0 := Idle];
  }

  lemma FilledNext(h: Heap, h': Heap, b: nat, n: nat)
    requires Filled(h, b, n) && n < Pow2(b) && Small(h')
    requires var t := h.tables[0];
             SameButCounts(h.(tables := [t.(keys := t.keys[n := HashOf(b, n)], size := n + 1,
                                            traces := t.traces[n := Stored(T(HashOf(b, n)))])]), h')
    ensures Filled(h', b, n + 1)
  {
    hide Pow2, WellFormed;
  }

  lemma {:induction false} FillsUp(b: nat, n: nat) returns (s: State)
    requires 1 <= b < MAX_BITS && n < Threshold(b)
    ensures Filling(s, b, n)
  {
    if n == 0 {
      s := Starts(b);
    } else {
      hide Threshold, Filling;
      s := FillsUp(b, n - 1);
      s := PutsNext(s, b, n - 1);
    }
  }

  /** What matters after growth: slot 0 of the old table with its trace, and the first two slots of the
      new one. Hash 4N is not in the old table. */
  ghost predicate Shows(h: Heap, b: nat, old0: nat, new0: nat, new1: nat, newSize: nat) {
    && Small(h) && |h.tables| == 2 && h.current == 1 && h.bits == b
    && |h.tables[0].keys| == |h.tables[0].traces| == Pow2(b) && |h.tables[1].keys| == |h.tables[1].traces| == Pow2(b +
        1)
    && Pow2(b) >= 2 && Pow2(b + 1) == 2 * Pow2(b)
    && h.tables[0].keys[0] == old0 && h.tables[0].traces[0] == Stored(T(Pow2(b)))
    && (forall k: nat :: k < |h.tables[0].keys| ==> h.tables[0].keys[k] != 4 * Pow2(b))
    && h.tables[0].size >= Threshold(b)
    && h.tables[1].keys[0] == new0 && h.tables[1].keys[1] == new1 && h.tables[1].size == newSize
  }

  lemma EmptyShows(bits: nat, prev: Link)
    ensures var t := EmptyTable(bits, prev);
            && SmallTable(t, bits, prev) && |t.keys| == |t.traces| == Pow2(bits) && t.size == 0
            && forall i: nat :: i < |t.keys| ==> t.keys[i] == 0
  {
  }

  /** The put that reaches the threshold makes the storage grow. */
  lemma LastPutGrows(b: nat, n: nat, s0: State) returns (s: State)
    requires 1 <= b < MAX_BITS && n + 1 == Threshold(b) && Filling(s0, b, n)
    ensures Reachable(s) && s.word == -2 && Small(s.heap) && s.log == s0.log
    ensures s.threads == [P(HashOf(b, n), 0, 0, Store), P(2 * Pow2(b), 0, 0, Load), Idle, Idle]
    ensures var t := s0.heap.tables[0];
            s.heap == s0.heap.(tables := [t.(keys := t.keys[n := HashOf(b, n)], size := n + 1),
                                          EmptyTable(b + 1, To(0))], current := 1)
  {
    Numbers(b);
    hide Slot, Pow2, Reachable, Threshold, WellFormed, EmptyTable, HashOf, FirstReturned;
    var s1 := ClaimsNext(s0, b, n);
    hide Filled;
    s := Grows(s1, 0);
  }

  /** The put of hash N has returned, or is the one that waits before clearing. */
  ghost predicate FirstDone(pc: Pc, log: Log, b: nat) {
    && pc.InPut? && pc.g == 0 && pc.stage == ClearPrev
    && (FirstReturned(log.results, b) || pc == P(Pow2(b), 0, 0, ClearPrev))
  }

  /** And stores its trace. */
  lemma LastPutStores(b: nat) returns (s: State)
    requires 1 <= b < MAX_BITS
    ensures Reachable(s) && s.word == -2 && Shows(s.heap, b, Pow2(b), 0, 0, 0)
    ensures |s.threads| == 4 && s.threads == [s.threads[0], P(2 * Pow2(b), 0, 0, Load), Idle, Idle]
    ensures FirstDone(s.threads[0], s.log, b)
  {
    Numbers(b);
    HashOfFirst(b);
    var n := Threshold(b) - 1;
    var s0 := FillsUp(b, n);
    FillSlots(b, n);
    hide Slot, Pow2, Reachable, Threshold, WellFormed, EmptyTable, HashOf;
    var s1 := LastPutGrows(b, n, s0);
    s := StoresOwn(s1, 0, n);
    ShowsGrown(s0.heap, s.heap, b, n);
    assert s.threads == [P(HashOf(b, n), 0, 0, ClearPrev), P(2 * Pow2(b), 0, 0, Load), Idle, Idle];
  }

  lemma ShowsGrown(h: Heap, h': Heap, b: nat, n: nat)
    requires Filled(h, b, n) && n < Pow2(b) && b >= 1 && Small(h') && n + 1 == Threshold(b)
    requires var t := h.tables[0];
             h' == h.(tables := [t.(keys := t.keys[n := HashOf(b, n)], size := n + 1,
                                    traces := t.traces[n := Stored(T(HashOf(b, n)))]),
                                 EmptyTable(b + 1, To(0))], current := 1)
    ensures Shows(h', b, Pow2(b), 0, 0, 0)
  {
    Numbers(b);
    OthersInTable(b, h, n);
    EmptyShows(b + 1, To(0));
    hide Pow2, WellFormed, EmptyTable, HashOf, Filled, Slot, Threshold;
  }

  lemma OthersInTable(b: nat, h: Heap, n: nat)
    requires Filled(h, b, n) && n < Pow2(b)
    ensures var t := h.tables[0];
            && |t.keys| == |t.traces| == Pow2(b) && h.bits == b
            && t.traces[n := Stored(T(HashOf(b, n)))][0] == Stored(T(Pow2(b)))
            && var keys := t.keys[n := HashOf(b, n)];
               keys[0] == Pow2(b) && forall k: nat :: k < |keys| ==> keys[k] != 4 * Pow2(b)
  {
    hide WellFormed;
  }

  lemma FindGoesOn(h: Heap, b: nat, at: nat, x: nat, hash: nat)
    requires Shows(h, b, x, hash, 0, 1) && at < Pow2(b) && hash == 4 * Pow2(b)
    ensures var stage := AfterFind(h.tables[0], hash, at);
            stage == Store || (stage == Find(at + 1) && at + 1 < Pow2(b))
  {
    SlotClosed(hash, b, at);
    hide Slot, Pow2;
  }

  /** Thread 2 looks for hash 4N in the old table. */
  ghost predicate Seeking(s: State, b: nat, x: nat, stage: Stage) {
    Reachable(s) && Shows(s.heap, b, x, 4 * Pow2(b), 0, 1) && |s.threads| == 4
    && s.threads[2] == P(4 * Pow2(b), 1, 0, stage)
  }

  lemma SeeksOn(s: State, b: nat, at: nat, x: nat) returns (s': State)
    requires Seeking(s, b, x, Find(at)) && at < Pow2(b)
    ensures |s'.threads| == 4 && s' == State(s.word, s.heap, s.threads[2 := s'.threads[2]], s.log)
    ensures Seeking(s', b, x, Store) || (Seeking(s', b, x, Find(at + 1)) && at + 1 < Pow2(b))
  {
    FindGoesOn(s.heap, b, at, x, 4 * Pow2(b));
    hide Slot, Pow2, Reachable, AfterFind, WellFormed;
    s' := Finds(s, 2, at);
  }

  /** It ends without success. */
  lemma {:induction false} FindsNothing(s: State, b: nat, at: nat, x: nat) returns (s': State)
    requires Seeking(s, b, x, Find(at)) && at < Pow2(b)
    ensures Seeking(s', b, x, Store) && |s.threads| == 4
    ensures s' == State(s.word, s.heap, s.threads[2 := s'.threads[2]], s.log)
    decreases Pow2(b) - at
  {
    s' := SeeksOn(s, b, at, x);
    assert |s.threads| == 4;
    hide Seeking, Pow2;
    if !Seeking(s', b, x, Store) {
      s' := FindsNothing(s', b, at + 1, x);
    }
    assert s'.threads == s.threads[2 := s'.threads[2]];
  }

  /** Somebody waits in the old table, before its slot 0. */
  ghost predicate Waiting(s: State, b: nat, two: Pc, three: Pc, word: int) {
    && Reachable(s) && s.word == word && |s.threads| == 4
    && FirstDone(s.threads[0], s.log, b) && s.threads[1] == P(2 * Pow2(b), 0, 0, Load)
    && s.threads[2] == two && s.threads[3] == three
  }

  /** The put of hash 4N finds slot 0 of the new table free. */
  lemma SecondPutLooks(b: nat) returns (s: State)
    requires 1 <= b < MAX_BITS
    ensures Waiting(s, b, P(4 * Pow2(b), 1, 0, CasKey), Idle, -3) && Shows(s.heap, b, Pow2(b), 0, 0, 0)
  {
    var s0 := LastPutStores(b);
    Numbers(b);
    hide Slot, Pow2, Threshold, Reachable, WellFormed, FirstDone;
    var s1 := Enters(s0, 2, Job(T(4 * Pow2(b)), 1));
    s := Looks(s1, 2);
  }

  /** And claims it. */
  lemma SecondPutClaims(b: nat) returns (s: State)
    requires 1 <= b < MAX_BITS
    ensures Waiting(s, b, P(4 * Pow2(b), 1, 0, Find(0)), Idle, -3) && Shows(s.heap, b, Pow2(b), 4 * Pow2(b), 0, 1)
  {
    var s0 := SecondPutLooks(b);
    Numbers(b);
    hide Slot, Pow2, Threshold, Reachable, WellFormed, FirstDone;
    s := ClaimsAndCounts(s0, 2, 0);
  }

  /** And clears slot 0 of the old one. */
  lemma SecondPutClears(b: nat) returns (s: State)
    requires 1 <= b < MAX_BITS
    ensures Waiting(s, b, P(4 * Pow2(b), 1, 0, IncSamples), Idle, -3) && Shows(s.heap, b, 0, 4 * Pow2(b), 0, 1)
  {
    var s0 := SecondPutClaims(b);
    Numbers(b);
    hide Slot, Pow2, Threshold, Reachable, WellFormed, FirstDone;
    var s1 := SecondPutStores(s0, b);
    s := Clears(s1, 2);
  }

  lemma SecondPutStores(s: State, b: nat) returns (s': State)
    requires Waiting(s, b, P(4 * Pow2(b), 1, 0, Find(0)), Idle, -3) && Shows(s.heap, b, Pow2(b), 4 * Pow2(b), 0, 1)
    requires 1 <= b
    ensures Waiting(s', b, P(4 * Pow2(b), 1, 0, ClearPrev), Idle, -3) && Shows(s'.heap, b, Pow2(b), 4 * Pow2(b), 0, 1)
  {
    Numbers(b);
    hide Slot, Pow2, Threshold, Reachable, WellFormed, FirstDone;
    var s1 := FindsNothing(s, b, 0, Pow2(b));
    s' := StoresOwn(s1, 2, 0);
  }

  /** The waiting put of hash 2N claims the cleared slot. */
  lemma LateClaim(b: nat) returns (s: State)
    requires 1 <= b < MAX_BITS
    ensures Reachable(s) && s.word == -3 && Shows(s.heap, b, 2 * Pow2(b), 4 * Pow2(b), 0, 1)
    ensures Late(s, b) && s.threads[3].Idle? && s.threads[2].InPut?
  {
    var s0 := SecondPutClears(b);
    Numbers(b);
    hide Slot, Pow2, Threshold, Reachable, WellFormed, FirstDone;
    var s1 := Looks(s0, 1);
    s := Claims(s1, 1);
  }

  /** The put of hash 2N has claimed slot 0 of the old table, and has to count it. */
  ghost predicate Late(s: State, b: nat) {
    && |s.threads| == 4 && FirstDone(s.threads[0], s.log, b) && s.threads[1] == P(2 * Pow2(b), 0, 0, IncSize)
  }

  /** Another put of hash 2N begins on the new table, where slot 0 is taken. */
  lemma ThirdPutLooks(b: nat) returns (s: State)
    requires 1 <= b < MAX_BITS
    ensures Reachable(s) && s.word == -4 && Shows(s.heap, b, 2 * Pow2(b), 4 * Pow2(b), 0, 1)
    ensures Late(s, b) && s.threads[2].InPut? && s.threads[3] == P(2 * Pow2(b), 1, 1, CasKey)
  {
    var s0 := LateClaim(b);
    Numbers(b);
    hide Slot, Pow2, Threshold, Reachable, WellFormed, FirstDone;
    var s1 := Enters(s0, 3, Job(T(2 * Pow2(b)), 1));
    var s2 := Looks(s1, 3);
    s := Looks(s2, 3);
  }

  /** It claims slot 1. */
  lemma ThirdPutClaims(b: nat) returns (s: State)
    requires 1 <= b < MAX_BITS
    ensures Reachable(s) && s.word == -4 && Shows(s.heap, b, 2 * Pow2(b), 4 * Pow2(b), 2 * Pow2(b), 2)
    ensures Late(s, b) && s.threads[2].InPut? && s.threads[3] == P(2 * Pow2(b), 1, 1, Find(0))
  {
    var s0 := ThirdPutLooks(b);
    Numbers(b);
    hide Slot, Pow2, Threshold, Reachable, WellFormed, FirstDone;
    s := ClaimsAndCounts(s0, 3, 1);
  }

  /** It finds the late claim and takes the trace that is there. */
  lemma ThirdPutTakes(b: nat) returns (s: State)
    requires 1 <= b < MAX_BITS
    ensures Reachable(s) && s.word == -4 && Shows(s.heap, b, 2 * Pow2(b), 4 * Pow2(b), 2 * Pow2(b), 2)
    ensures Late(s, b) && s.threads[2].InPut? && s.threads[3] == P(2 * Pow2(b), 1, 1, SetTrace(Stored(T(Pow2(b)))))
  {
    var s0 := ThirdPutClaims(b);
    Numbers(b);
    hide Slot, Pow2, Threshold, Reachable, WellFormed, FirstDone;
    var s1 := Finds(s0, 3, 0);
    s := Takes(s1, 3, 0);
  }

  /** In the newest table the trace of hash N is under the key 2N. */
  ghost predicate Foreign(h: Heap, b: nat) {
    && h.bits == b && h.current == 1 && |h.tables| == 2
    && var t := h.tables[1];
       && 2 <= |t.keys| == |t.traces| && t.keys[1] == 2 * Pow2(b) != Pow2(b)
       && t.traces[1] == Stored(T(Pow2(b)))
  }

  lemma ThirdPutStores(b: nat) returns (s: State)
    requires 1 <= b < MAX_BITS
    ensures Reachable(s) && s.word == -4 && Foreign(s.heap, b) && Small(s.heap)
    ensures s.heap.tables[0].size >= Threshold(b)
    ensures Late(s, b) && s.threads[2].InPut? && s.threads[3].InPut?
  {
    var s0 := ThirdPutTakes(b);
    Numbers(b);
    hide Slot, Pow2, Threshold, Reachable, WellFormed, FirstDone;
    s := Sets(s0, 3, Stored(T(Pow2(b))));
  }

  /** Nobody clears. */
  ghost predicate NobodyClears(threads: seq<Pc>) {
    forall t :: 0 <= t < |threads| ==> threads[t].InPut? || threads[t].Idle?
  }

  /** For every initial capacity N there is a state of a run, nobody clearing, in which the newest table
      has the trace of hash N under the key 2N: the put of hash 2N on the old table has claimed slot 0
      late, and the one on the new table has found its hash there, with the trace that was left. */
  lemma ForeignTraceStored(b: nat) returns (s: State)
    requires 1 <= b < MAX_BITS
    ensures Reachable(s) && NobodyClears(s.threads) && Foreign(s.heap, b)
  {
    s := ThirdPutStores(b);
    hide Pow2, Threshold, Reachable;
  }

  /** The late put counts its key, stores its own trace and returns. */
  lemma LatePutReturns(b: nat) returns (s: State)
    requires 1 <= b < MAX_BITS
    ensures Reachable(s) && s.word == -3 && Foreign(s.heap, b) && Small(s.heap)
    ensures |s.threads| == 4 && FirstDone(s.threads[0], s.log, b)
    ensures s.threads[1].Idle? && s.threads[2].InPut? && s.threads[3].InPut?
    ensures Result(2 * Pow2(b), 0, 0, 1) in s.log.results
  {
    var s0 := ThirdPutStores(b);
    Numbers(b);
    var s1 := LatePutStores(s0, b);
    hide Slot, Pow2, Reachable, WellFormed;
    s := Finishes(s1, 1);
  }

  lemma LatePutStores(s: State, b: nat) returns (s': State)
    requires 1 <= b && Reachable(s) && s.word == -4 && Foreign(s.heap, b) && Small(s.heap)
    requires s.heap.tables[0].size >= Threshold(b) && Late(s, b)
    ensures Reachable(s') && s'.word == -4 && Foreign(s'.heap, b) && Small(s'.heap) && s'.log == s.log
    ensures s'.threads == s.threads[1 := P(2 * Pow2(b), 0, 0, ClearPrev)]
  {
    Numbers(b);
    hide Slot, Pow2, Threshold, Reachable, WellFormed, FirstDone;
    var s1 := Counts(s, 1);
    s' := StoresOwn(s1, 1, 0);
    assert s'.threads == s.threads[1 := P(2 * Pow2(b), 0, 0, ClearPrev)];
  }

  /** And once the late put and the put of hash N have returned, two puts of different hashes have got
      the same id. */
  lemma SameIdForTwoHashes(b: nat) returns (s: State, j: nat, k: nat)
    requires 1 <= b < MAX_BITS
    ensures Reachable(s) && NobodyClears(s.threads) && Foreign(s.heap, b)
    ensures j < |s.log.results| && k < |s.log.results|
    ensures var x, y := s.log.results[j], s.log.results[k];
            && x.hash == Pow2(b) != 2 * Pow2(b) == y.hash && x.g == y.g
            && TraceTheorems.IdOf(s.heap, x) == TraceTheorems.IdOf(s.heap, y)
  {
    s := BothReturn(b);
    Numbers(b);
    hide Slot, Reachable, Pow2, Foreign, TraceTheorems.IdOf;
    var x, y := Result(Pow2(b), 0, 0, 1), Result(2 * Pow2(b), 0, 0, 1);
    j :| j < |s.log.results| && s.log.results[j] == x;
    k :| k < |s.log.results| && s.log.results[k] == y;
    SameSlotSameId(s.heap, x, y);
  }

  lemma SameSlotSameId(h: Heap, x: Result, y: Result)
    requires x.g == y.g && x.slot == y.slot
    ensures TraceTheorems.IdOf(h, x) == TraceTheorems.IdOf(h, y)
  {
  }

  lemma BothReturn(b: nat) returns (s: State)
    requires 1 <= b < MAX_BITS
    ensures Reachable(s) && NobodyClears(s.threads) && Foreign(s.heap, b)
    ensures Result(Pow2(b), 0, 0, 1) in s.log.results && Result(2 * Pow2(b), 0, 0, 1) in s.log.results
  {
    var s0 := LatePutReturns(b);
    FirstSlot(b);
    hide Slot, Reachable, WellFormed, Pow2;
    s := Finishes(s0, 0);
  }

  lemma FirstSlot(b: nat)
    ensures Slot(Pow2(b), b, 0) == 0
  {
    FillSlots(b, 0);
  }
}
