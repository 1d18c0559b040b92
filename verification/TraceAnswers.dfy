/** What `put` answers and what it has done by then: every call that returns was refused while somebody
    cleared, or reported an overflow that it had counted, or got a slot that held its hash, to which it
    added one sample and its weight; and if it claimed the slot itself, it stored a trace there. */
module TraceAnswers {
  import opened Words
  import opened Bits
  import opened Probe
  import opened LockWord
  import opened TraceStorage
  import opened TraceInvariant
  import opened TraceTheorems

  // ---------------------------------------------------------------------------------------
  // What one instruction does
  // ---------------------------------------------------------------------------------------

  /** The slot goes from empty to the hash. */
  ghost predicate ClaimsSlot(h: Heap, h': Heap, g: nat, slot: nat, hash: nat) {
    && g < |h.tables| && slot < |h.tables[g].keys| && h.tables[g].keys[slot] == 0
    && h' == WithTable(h, g, h.tables[g].(keys := h.tables[g].keys[slot := hash]))
  }

  ghost predicate SeesKey(h: Heap, g: nat, slot: nat, hash: nat) {
    g < |h.tables| && slot < |h.tables[g].keys| && h.tables[g].keys[slot] == hash
  }

  ghost predicate SetsTrace(h: Heap, h': Heap, g: nat, slot: nat, link: TraceLink) {
    && g < |h.tables| && slot < |h.tables[g].traces|
    && h' == WithTable(h, g, h.tables[g].(traces := h.tables[g].traces[slot := link]))
  }

  ghost predicate AddsSample(h: Heap, h': Heap, g: nat, slot: nat) {
    && g < |h.tables| && slot < |h.tables[g].samples|
    && h' == WithTable(h, g, h.tables[g].(samples := h.tables[g].samples[slot := h.tables[g].samples[slot] + 1]))
  }

  ghost predicate AddsWeight(h: Heap, h': Heap, g: nat, slot: nat, weight: nat) {
    && g < |h.tables| && slot < |h.tables[g].counters|
    && h' == WithTable(h, g, h.tables[g].(counters :=
                                            h.tables[g].counters[slot := h.tables[g].counters[slot] + weight]))
  }

  predicate Holds(t: Table, from: nat, link: TraceLink) {
    from < |t.traces| && t.traces[from] == link
  }

  /** The trace stands in a slot of the previous table. */
  ghost predicate InPrevious(h: Heap, g: nat, link: TraceLink) {
    0 < g <= |h.tables| && link.Stored? && SomewhereIn(h.tables[g - 1], link)
  }

  ghost predicate SomewhereIn(t: Table, link: TraceLink) {
    exists from: nat :: Holds(t, from, link)
  }

  /** Between claiming and counting the sample. */
  predicate HasClaimed(stage: Stage) {
    HasSlot(stage) && !Counts(stage)
  }

  predicate Counts(stage: Stage) {
    stage.IncSamples? || stage.IncCounter? || stage.Unlock?
  }

  function MySlot(bits: nat, pc: Pc): nat
    requires pc.InPut?
  {
    Slot(pc.job.trace.hash, bits + pc.g, pc.step)
  }

  /** An instruction of a put that looks for its slot or claims it. */
  ghost predicate ProbeEffect(h: Heap, pc: Pc, h': Heap, pc': Pc) {
    && pc.InPut? && pc'.InPut? && pc'.job == pc.job && pc'.g == pc.g && h'.bits == h.bits
    && (HasClaimed(pc'.stage) ==>
          && pc'.step == pc.step && pc'.stage.IncSize?
          && ClaimsSlot(h, h', pc.g, MySlot(h.bits, pc), pc.job.trace.hash))
    && (Counts(pc'.stage) ==>
          && pc'.step == pc.step && pc'.stage.IncSamples?
          && SeesKey(h, pc.g, MySlot(h.bits, pc), pc.job.trace.hash))
    && (pc'.stage.UnlockOverflow? ==> h' == h.(overflow := h.overflow + 1))
  }

  lemma ProbeDoes(h: Heap, pc: Pc, h': Heap, pc': Pc)
    requires PutStep(h, pc, h', pc') && TableInv(h.tables[pc.g], h.bits, pc.g) && !HasSlot(pc.stage)
    ensures ProbeEffect(h, pc, h', pc')
  {
    hide Slot, Pow2;
  }

  /** An instruction of a put that has its slot. */
  ghost predicate SlotEffect(h: Heap, pc: Pc, h': Heap, pc': Pc) {
    && pc.InPut? && pc'.InPut? && pc'.job == pc.job && pc'.g == pc.g && h'.bits == h.bits
    && pc'.step == pc.step && HasSlot(pc'.stage)
    && (Counts(pc'.stage) && HasClaimed(pc.stage) ==> pc.stage.ClearPrev? && pc'.stage.IncSamples?)
    && (pc'.stage.ClearPrev? ==> pc.stage.SetTrace? && SetsTrace(h, h', pc.g, MySlot(h.bits, pc), pc.stage.link))
    && (pc'.stage.SetTrace? ==>
          || (pc.stage.Store? && (pc'.stage.link == NoTrace || pc'.stage.link == Stored(pc.job.trace)))
          || InPrevious(h, pc.g, pc'.stage.link))
    && (Counts(pc.stage) ==> Counts(pc'.stage) && !pc'.stage.IncSamples?)
    && (pc'.stage.IncCounter? ==> pc.stage.IncSamples? && AddsSample(h, h', pc.g, MySlot(h.bits, pc)))
    && (pc'.stage.Unlock? ==> pc.stage.IncCounter? && AddsWeight(h, h', pc.g, MySlot(h.bits, pc), pc.job.weight))
  }

  lemma SlotDoes(h: Heap, pc: Pc, h': Heap, pc': Pc)
    requires PutStep(h, pc, h', pc') && TableInv(h.tables[pc.g], h.bits, pc.g) && HasSlot(pc.stage)
    ensures SlotEffect(h, pc, h', pc')
  {
    hide Slot, Pow2, Threshold, EmptyTable, ZeroWord;
    if pc.stage.FindTrace? && pc'.stage.SetTrace? {
      assert h.tables[pc.g].prev == To(pc.g - 1);
      assert Holds(h.tables[pc.g - 1], pc.stage.from, pc'.stage.link);
      assert InPrevious(h, pc.g, pc'.stage.link);
    }
  }

  // ---------------------------------------------------------------------------------------
  // What a thread has done
  // ---------------------------------------------------------------------------------------

  ghost predicate Acts(run: seq<State>, m: nat, t: nat) {
    m + 1 < |run| && t < |run[m].threads| == |run[m + 1].threads| && Step(run[m], t, run[m + 1])
  }

  ghost predicate ClaimAt(run: seq<State>, m: nat, t: nat, g: nat, slot: nat, hash: nat) {
    Acts(run, m, t) && ClaimsSlot(run[m].heap, run[m + 1].heap, g, slot, hash)
  }

  ghost predicate Claimed(run: seq<State>, j: nat, k: nat, t: nat, g: nat, slot: nat, hash: nat) {
    exists m: nat :: j <= m < k && ClaimAt(run, m, t, g, slot, hash)
  }

  ghost predicate SeenAt(run: seq<State>, m: nat, t: nat, g: nat, slot: nat, hash: nat) {
    Acts(run, m, t) && SeesKey(run[m].heap, g, slot, hash)
  }

  ghost predicate Seen(run: seq<State>, j: nat, k: nat, t: nat, g: nat, slot: nat, hash: nat) {
    exists m: nat :: j <= m < k && SeenAt(run, m, t, g, slot, hash)
  }

  /** Storing the frames fails for want of memory. */
  ghost predicate StoreFails(run: seq<State>, m: nat, t: nat) {
    && Acts(run, m, t) && run[m].threads[t].InPut? && run[m].threads[t].stage.Store?
    && run[m + 1].threads[t].InPut? && run[m + 1].threads[t].stage == SetTrace(NoTrace)
  }

  ghost predicate FoundAt(run: seq<State>, m: nat, t: nat, g: nat, link: TraceLink) {
    Acts(run, m, t) && InPrevious(run[m].heap, g, link)
  }

  /** The trace a put may store: its own, one that it found in the previous table, or none if there was no
      memory for its own. */
  ghost predicate LinkOk(run: seq<State>, j: nat, k: nat, t: nat, g: nat, job: Job, link: TraceLink) {
    || link == Stored(job.trace)
    || (link == NoTrace && exists m: nat :: j <= m < k && StoreFails(run, m, t))
    || exists m: nat :: j <= m < k && FoundAt(run, m, t, g, link)
  }

  ghost predicate TraceAt(run: seq<State>, m: nat, t: nat, g: nat, slot: nat, link: TraceLink) {
    Acts(run, m, t) && SetsTrace(run[m].heap, run[m + 1].heap, g, slot, link)
  }

  ghost predicate Traced(run: seq<State>, j: nat, k: nat, t: nat, g: nat, slot: nat, job: Job) {
    exists m: nat, link: TraceLink ::
      j <= m < k && TraceAt(run, m, t, g, slot, link) && LinkOk(run, j, m, t, g, job, link)
  }

  ghost predicate SampleAt(run: seq<State>, m: nat, t: nat, g: nat, slot: nat) {
    Acts(run, m, t) && AddsSample(run[m].heap, run[m + 1].heap, g, slot)
  }

  ghost predicate Sampled(run: seq<State>, j: nat, k: nat, t: nat, g: nat, slot: nat) {
    exists m: nat :: j <= m < k && SampleAt(run, m, t, g, slot)
  }

  ghost predicate WeightAt(run: seq<State>, m: nat, t: nat, g: nat, slot: nat, weight: nat) {
    Acts(run, m, t) && AddsWeight(run[m].heap, run[m + 1].heap, g, slot, weight)
  }

  ghost predicate Weighed(run: seq<State>, j: nat, k: nat, t: nat, g: nat, slot: nat, weight: nat) {
    exists m: nat :: j <= m < k && WeightAt(run, m, t, g, slot, weight)
  }

  ghost predicate OverflowAt(run: seq<State>, m: nat, t: nat) {
    Acts(run, m, t) && run[m + 1].heap == run[m].heap.(overflow := run[m].heap.overflow + 1)
  }

  ghost predicate Overflowed(run: seq<State>, j: nat, k: nat, t: nat) {
    exists m: nat :: j <= m < k && OverflowAt(run, m, t)
  }

  /** The slot is the put's: it found its hash there, or claimed the slot and stored a trace. */
  ghost predicate Owns(run: seq<State>, j: nat, k: nat, t: nat, g: nat, slot: nat, job: Job) {
    || Seen(run, j, k, t, g, slot, job.trace.hash)
    || (Claimed(run, j, k, t, g, slot, job.trace.hash) && Traced(run, j, k, t, g, slot, job))
  }

  /** What a put at this stage has done since state `j`. */
  ghost predicate StageStory(run: seq<State>, j: nat, k: nat, t: nat, g: nat, slot: nat, job: Job, stage: Stage) {
    && (HasClaimed(stage) ==> Claimed(run, j, k, t, g, slot, job.trace.hash))
    && (stage.SetTrace? ==> LinkOk(run, j, k, t, g, job, stage.link))
    && (stage.ClearPrev? ==> Traced(run, j, k, t, g, slot, job))
    && (Counts(stage) ==> Owns(run, j, k, t, g, slot, job))
    && (stage.IncCounter? || stage.Unlock? ==> Sampled(run, j, k, t, g, slot))
    && (stage.Unlock? ==> Weighed(run, j, k, t, g, slot, job.weight))
    && (stage.UnlockOverflow? ==> Overflowed(run, j, k, t))
  }

  ghost predicate Story(run: seq<State>, j: nat, k: nat, t: nat, job: Job)
    requires k < |run| && t < |run[k].threads|
  {
    match run[k].threads[t]
    case Enter(x) => x == job
    case EnterCas(x, _) => x == job
    case LoadTable(x) => x == job
    case InPut(x, g, step, stage) =>
      x == job && StageStory(run, j, k, t, g, MySlot(run[k].heap.bits, run[k].threads[t]), job, stage)
    case _ => false
  }

  /** Thread `t` is inside one call of `put` from state `j` to state `k`. */
  ghost predicate Putting(run: seq<State>, j: nat, k: nat, t: nat, job: Job) {
    && j <= k < |run| && (forall m :: j <= m <= k ==> t < |run[m].threads| && !run[m].threads[t].Idle?)
    && run[j].threads[t] == Enter(job)
  }

  // ---------------------------------------------------------------------------------------
  // Step by step
  // ---------------------------------------------------------------------------------------

  /** What was done stays done. */
  lemma StageLater(run: seq<State>, j: nat, k: nat, t: nat, g: nat, slot: nat, job: Job, stage: Stage)
    requires StageStory(run, j, k, t, g, slot, job, stage)
    ensures StageStory(run, j, k + 1, t, g, slot, job, stage)
  {
    hide ClaimAt, SeenAt, StoreFails, FoundAt, TraceAt, SampleAt, WeightAt, OverflowAt;
  }

  lemma Mover(run: seq<State>, k: nat, t: nat) returns (moved: bool)
    requires IsRun(run) && k + 1 < |run| && t < |run[k].threads|
    ensures t < |run[k + 1].threads| && run[k + 1].heap.bits == run[k].heap.bits
    ensures if moved then Acts(run, k, t) else run[k + 1].threads[t] == run[k].threads[t]
  {
    assert Next(run[k], run[k + 1]);
    hide IsRun, Step;
    moved := Step(run[k], t, run[k + 1]);
    var v: nat :| Step(run[k], v, run[k + 1]);
    StepShape(run[k], v, run[k + 1]);
    StepMovesOne(run[k], v, run[k + 1]);
  }

  lemma StepShape(s: State, v: nat, s': State)
    requires Step(s, v, s')
    ensures |s'.threads| == |s.threads| && s'.heap.bits == s.heap.bits
  {
    hide Int32, Slot, Pow2, Threshold, EmptyTable, ZeroWord;
  }

  /** The put's own instruction on its table, when it has its slot. */
  lemma SlotStory(run: seq<State>, j: nat, k: nat, t: nat, job: Job)
    requires j <= k && Acts(run, k, t) && Story(run, j, k, t, job)
    requires SlotEffect(run[k].heap, run[k].threads[t], run[k + 1].heap, run[k + 1].threads[t])
    requires HasSlot(run[k].threads[t].stage)
    ensures Story(run, j, k + 1, t, job)
  {
    var h, h', pc, pc' := run[k].heap, run[k + 1].heap, run[k].threads[t], run[k + 1].threads[t];
    hide ClaimsSlot, SeesKey, SetsTrace, AddsSample, AddsWeight, InPrevious, Step, Slot;
    var slot, g := MySlot(h.bits, pc), pc.g;
    StageLater(run, j, k, t, g, slot, job, pc.stage);
    if pc'.stage.SetTrace? {
      SetNext(run, j, k, t, g, job);
    } else if pc'.stage.ClearPrev? {
      assert TraceAt(run, k, t, g, slot, pc.stage.link);
      hide LinkOk;
      assert Traced(run, j, k + 1, t, g, slot, job);
    } else if pc'.stage.IncCounter? {
      assert SampleAt(run, k, t, g, slot);
    } else if pc'.stage.Unlock? {
      assert WeightAt(run, k, t, g, slot, job.weight);
    }
    hide LinkOk, Claimed, Seen, Traced;
  }

  lemma SetNext(run: seq<State>, j: nat, k: nat, t: nat, g: nat, job: Job)
    requires j <= k && Acts(run, k, t) && run[k].threads[t].InPut? && run[k + 1].threads[t].InPut?
    requires run[k].threads[t].job == job && run[k].threads[t].g == g && run[k + 1].threads[t].stage.SetTrace?
    requires var pc, link := run[k].threads[t], run[k + 1].threads[t].stage.link;
             || (pc.stage.Store? && (link == NoTrace || link == Stored(job.trace)))
             || InPrevious(run[k].heap, g, link)
    ensures LinkOk(run, j, k + 1, t, g, job, run[k + 1].threads[t].stage.link)
  {
    var pc, link := run[k].threads[t], run[k + 1].threads[t].stage.link;
    hide Step, InPrevious;
    if InPrevious(run[k].heap, g, link) {
      assert FoundAt(run, k, t, g, link);
    } else if link == NoTrace {
      assert StoreFails(run, k, t);
    }
  }

  /** And when it is looking for it. */
  lemma ProbeStory(run: seq<State>, j: nat, k: nat, t: nat, job: Job)
    requires j <= k && Acts(run, k, t) && Story(run, j, k, t, job)
    requires ProbeEffect(run[k].heap, run[k].threads[t], run[k + 1].heap, run[k + 1].threads[t])
    requires !HasSlot(run[k].threads[t].stage)
    ensures Story(run, j, k + 1, t, job)
  {
    var h, h', pc, pc' := run[k].heap, run[k + 1].heap, run[k].threads[t], run[k + 1].threads[t];
    hide ClaimsSlot, SeesKey, Step, Slot;
    var slot, g := MySlot(h.bits, pc), pc.g;
    if HasClaimed(pc'.stage) {
      assert ClaimAt(run, k, t, g, slot, job.trace.hash);
    } else if Counts(pc'.stage) {
      assert SeenAt(run, k, t, g, slot, job.trace.hash);
    } else if pc'.stage.UnlockOverflow? {
      assert OverflowAt(run, k, t);
    }
  }

  /** A step at the gate, before the table is known. */
  lemma GateStory(run: seq<State>, j: nat, k: nat, t: nat, job: Job)
    requires j <= k && Acts(run, k, t) && Story(run, j, k, t, job) && !run[k].threads[t].InPut?
    requires !run[k + 1].threads[t].Idle?
    ensures Story(run, j, k + 1, t, job)
  {
    hide Int32, Slot;
  }

  lemma StoryLater(run: seq<State>, j: nat, k: nat, t: nat, job: Job)
    requires j <= k && k + 1 < |run| && t < |run[k].threads| && t < |run[k + 1].threads|
    requires Story(run, j, k, t, job) && run[k + 1].threads[t] == run[k].threads[t]
    requires run[k + 1].heap.bits == run[k].heap.bits
    ensures Story(run, j, k + 1, t, job)
  {
    var pc := run[k].threads[t];
    if pc.InPut? {
      StageLater(run, j, k, t, pc.g, MySlot(run[k].heap.bits, pc), job, pc.stage);
    }
    hide StageStory, Slot;
  }

  /** A put at work either acts on its table or leaves. */
  lemma PutActs(s: State, t: nat, s': State)
    requires Step(s, t, s') && s.threads[t].InPut? && !s'.threads[t].Idle?
    ensures PutStep(s.heap, s.threads[t], s'.heap, s'.threads[t])
  {
    hide PutStep, Int32, Slot;
  }

  lemma {:induction false} StoryHolds(run: seq<State>, j: nat, k: nat, t: nat, job: Job)
    requires IsRun(run) && Putting(run, j, k, t, job)
    ensures Story(run, j, k, t, job)
    decreases k
  {
    hide IsRun, Story, Inv, Acts, PutStep, HasSlot;
    if j == k {
      StoryBegins(run, j, t, job);
    } else {
      StoryHolds(run, j, k - 1, t, job);
      var moved := Mover(run, k - 1, t);
      RunInv(run, k - 1);
      if !moved {
        StoryLater(run, j, k - 1, t, job);
      } else {
        OwnStory(run, j, k - 1, t, job);
      }
    }
  }

  lemma OwnStory(run: seq<State>, j: nat, k: nat, t: nat, job: Job)
    requires j <= k && Acts(run, k, t) && Story(run, j, k, t, job) && Inv(run[k]) && !run[k + 1].threads[t].Idle?
    ensures Story(run, j, k + 1, t, job)
  {
    var h, h', pc, pc' := run[k].heap, run[k + 1].heap, run[k].threads[t], run[k + 1].threads[t];
    hide Story, Inv, PutStep, HasSlot, Step, SlotEffect, ProbeEffect, TableInv;
    if !pc.InPut? {
      GateStory(run, j, k, t, job);
    } else {
      PutActs(run[k], t, run[k + 1]);
      PutTable(run[k], t);
      if HasSlot(pc.stage) {
        SlotDoes(h, pc, h', pc');
        SlotStory(run, j, k, t, job);
      } else {
        ProbeDoes(h, pc, h', pc');
        ProbeStory(run, j, k, t, job);
      }
    }
  }

  lemma StoryBegins(run: seq<State>, j: nat, t: nat, job: Job)
    requires j < |run| && t < |run[j].threads| && run[j].threads[t] == Enter(job)
    ensures Story(run, j, j, t, job)
  {
  }

  // ---------------------------------------------------------------------------------------
  // The answer
  // ---------------------------------------------------------------------------------------

  /** Some thread is inside clear, with the lock. */
  ghost predicate ClearHolds(s: State) {
    exists u :: 0 <= u < |s.threads| && (s.threads[u].Clearing? || s.threads[u].ClearUnlock?)
  }

  lemma WordOfClear(s: State)
    requires Inv(s)
    ensures s.word > 0 <==> ClearHolds(s)
  {
    var modes := Modes(s.threads);
    assert GateInv(s.word, s.threads);
    WordTells(s.word, modes);
    hide Inv, LockInv;
    forall u | 0 <= u < |s.threads|
      ensures modes[u].Exclusive? <==> s.threads[u].Clearing? || s.threads[u].ClearUnlock?
    {
      assert modes[u] == ModeOf(s.threads[u]);
    }
  }

  /** What the call of thread `t`, which began in state `j` and ends with step `k`, answers. */
  ghost predicate Answered(run: seq<State>, j: nat, k: nat, t: nat, job: Job)
    requires k + 1 < |run| && t < |run[k].threads|
  {
    var log, log', pc := run[k].log, run[k + 1].log, run[k].threads[t];
    match pc
    case Enter(_) => ClearHolds(run[k]) && log' == log.(completed := log.completed + 1, refused := log.refused + 1)
    case InPut(_, g, _, stage) =>
      if stage.UnlockOverflow?
      then Overflowed(run, j, k, t) && log' == log.(completed := log.completed + 1)
      else
        var slot := MySlot(run[k].heap.bits, pc);
        && log' == log.(completed := log.completed + 1,
                        results := log.results + [Result(job.trace.hash, g, slot, job.weight)])
        && Owns(run, j, k, t, g, slot, job)
        && Sampled(run, j, k, t, g, slot) && Weighed(run, j, k, t, g, slot, job.weight)
    case _ => false
  }

  lemma LastStep(run: seq<State>, j: nat, k: nat, t: nat, job: Job)
    requires j <= k && Acts(run, k, t) && Story(run, j, k, t, job) && Inv(run[k]) && run[k + 1].threads[t].Idle?
    ensures Answered(run, j, k, t, job)
  {
    var s, s', pc := run[k], run[k + 1], run[k].threads[t];
    if pc.InPut? {
      PutTable(s, t);
      hide Inv;
      LeavesPut(s, t, s');
    } else {
      WordOfClear(s);
    }
    hide Inv, LinkOk, Claimed, Seen, Traced, Sampled, Weighed, Overflowed, ClearHolds, PutStep, Slot, Int32;
  }

  /** A put that has its table leaves by releasing the lock. */
  lemma LeavesPut(s: State, t: nat, s': State)
    requires Step(s, t, s') && s.threads[t].InPut? && s'.threads[t].Idle?
    requires s.threads[t].g < |s.heap.tables| && TableInv(s.heap.tables[s.threads[t].g], s.heap.bits, s.threads[t].g)
    ensures var pc, log := s.threads[t], s.log;
            && (pc.stage.Unlock? || pc.stage.UnlockOverflow?)
            && s'.log == log.(completed := log.completed + 1,
                              results := if pc.stage.UnlockOverflow? then log.results
                                         else log.results + [Result(pc.job.trace.hash, pc.g, MySlot(s.heap.bits, pc),
                                                                    pc.job.weight)])
  {
    hide PutStep, Slot, Int32;
    if PutStep(s.heap, s.threads[t], s'.heap, s'.threads[t]) {
      PutKeepsSizes(s.heap, s.threads[t], s'.heap, s'.threads[t]);
    }
  }

  /** A put that returns was refused, because somebody was inside clear at that moment; or it reports an
      overflow, which it has counted; or it returns a slot that is its own, to which it has added one
      sample and its weight. */
  lemma PutAnswers(run: seq<State>, j: nat, k: nat, t: nat, job: Job)
    requires IsRun(run) && Putting(run, j, k, t, job) && k + 1 < |run|
    requires t < |run[k + 1].threads| && run[k + 1].threads[t].Idle?
    ensures Answered(run, j, k, t, job)
  {
    hide IsRun, Story, Inv, Acts;
    StoryHolds(run, j, k, t, job);
    var moved := Mover(run, k, t);
    RunInv(run, k);
    LastStep(run, j, k, t, job);
  }

  /** A put is refused by nothing else than a clear: with none inside, it goes on. */
  lemma RefusedExact(run: seq<State>, k: nat, t: nat)
    requires IsRun(run) && Acts(run, k, t) && run[k].threads[t].Enter?
    ensures run[k + 1].threads[t].Idle? <==> ClearHolds(run[k])
  {
    RunInv(run, k);
    WordOfClear(run[k]);
    hide IsRun, Inv, ClearHolds, Int32;
  }

  lemma PutTable(s: State, t: nat)
    requires Inv(s) && t < |s.threads| && s.threads[t].InPut?
    ensures s.threads[t].g < |s.heap.tables| && TableInv(s.heap.tables[s.threads[t].g], s.heap.bits, s.threads[t].g)
  {
    assert Settled(s);
    PutIsReady(s.heap, s.threads[t]);
  }
}
