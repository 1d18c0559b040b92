/** The call trace storage of callTraceStorage.cpp: `put` and `clear` as a state machine in which
    any number of threads run them at once, one atomic instruction at a time, for any initial
    capacity that is a power of two.

    Tables are named by their place in the chain: table 0 has the initial capacity and table
    g + 1 is the one allocated by the `put` that filled table g to three quarters. A trace carries
    the value of `calcHash`; nothing else about the hash is used, except that it is not 0. */
module TraceStorage {
  import opened Words
  import opened Bits
  import opened Probe
  import opened LockWord

  const MAX_BITS: nat := 30

  datatype Trace = Trace(frames: seq<nat>, hash: nat)

  datatype TraceLink = NoTrace | Stored(trace: Trace)

  datatype Link = Null | To(table: nat)

  /** A hash table. The arrays keys, traces, samples and counters have 2^bits entries. */
  datatype Table = Table(
    bits: nat,
    prev: Link,
    keys: seq<nat>,
    traces: seq<TraceLink>,
    samples: seq<nat>,
    counters: seq<nat>,
    size: nat)

  datatype Heap = Heap(bits: nat, tables: seq<Table>, current: nat, overflow: nat)

  datatype Job = Job(trace: Trace, weight: nat)

  /** What a `put` that holds the shared lock is about to do, for its table and slot. */
  datatype Stage =
    | Load                       // read the key
    | CasKey                     // the key was 0: claim the slot
    | IncSize
    | Grow                       // allocate the next table
    | GrowCas(made: nat)         // publish it
    | Find(at: nat)              // findCallTrace on the previous table, after `at` moves
    | FindTrace(from: nat)       // the hash was found in that slot: read its trace
    | Store                      // copy the frames into the allocator
    | SetTrace(link: TraceLink)
    | ClearPrev
    | IncSamples
    | IncCounter
    | Unlock
    | IncOverflow
    | UnlockOverflow

  datatype Pc =
    | Idle
    | Enter(job: Job)                  // tryLockShared: load
    | EnterCas(job: Job, value: int)   // tryLockShared: compare-and-swap
    | LoadTable(job: Job)
    | InPut(job: Job, g: nat, step: nat, stage: Stage)
    | ClearSpin                        // clear: lock()
    | Clearing
    | ClearUnlock

  /** An accepted put: the hash and where it landed. */
  datatype Result = Result(hash: nat, g: nat, slot: nat, weight: nat)

  /** Puts that returned since the last clear. */
  datatype Log = Log(completed: nat, refused: nat, results: seq<Result>)

  datatype State = State(word: int, heap: Heap, threads: seq<Pc>, log: Log)

  // ---------------------------------------------------------------------------------------
  // The instructions of put
  // ---------------------------------------------------------------------------------------

  function Zeros(n: nat): (z: seq<nat>)
    ensures |z| == n && forall i :: 0 <= i < n ==> z[i] == 0
  {
    seq(n, i => 0)
  }

  function NoTraces(n: nat): (z: seq<TraceLink>)
    ensures |z| == n && forall i :: 0 <= i < n ==> z[i] == NoTrace
  {
    seq(n, i => NoTrace)
  }

  /** LongHashTable::allocate, and LongHashTable::clear of an existing table. */
  function EmptyTable(bits: nat, prev: Link): Table {
    var n := Pow2(bits);
    Table(bits, prev, Zeros(n), NoTraces(n), Zeros(n), Zeros(n), 0)
  }

  ghost predicate WellFormed(t: Table) {
    var n := Pow2(t.bits);
    |t.keys| == n && |t.traces| == n && |t.samples| == n && |t.counters| == n
  }

  /** The size at which the next table is allocated: 3/4 of the capacity. */
  function Threshold(bits: nat): nat {
    Pow2(bits) * 3 / 4
  }

  /** A put at work in an existing table, at a slot inside it. */
  ghost predicate Ready(h: Heap, pc: Pc) {
    && pc.InPut? && pc.g < |h.tables|
    && var t := h.tables[pc.g];
       && WellFormed(t) && SlotIn(t, pc) < Pow2(t.bits)
       && (t.prev.To? ==> t.prev.table < |h.tables| && WellFormed(h.tables[t.prev.table]))
  }

  /** The slot a put is at in table `t`. */
  function SlotIn(t: Table, pc: Pc): nat
    requires pc.InPut?
  {
    Slot(pc.job.trace.hash, t.bits, pc.step)
  }

  function WithTable(h: Heap, g: nat, t: Table): Heap
    requires g < |h.tables|
  {
    h.(tables := h.tables[g := t])
  }

  /** Reading the key of the slot: found, empty, overflow, or on to the next slot. */
  ghost function AfterLoad(t: Table, pc: Pc): Pc
    requires pc.InPut? && SlotIn(t, pc) < |t.keys|
  {
    var key := t.keys[SlotIn(t, pc)];
    if key == pc.job.trace.hash then pc.(stage := IncSamples)
    else if key == 0 then pc.(stage := CasKey)
    else if pc.step + 1 >= Pow2(t.bits) then pc.(stage := IncOverflow)
    else pc.(step := pc.step + 1)
  }

  /** After the slot is claimed and the table possibly grown: look for the trace in the
      previous table, if there is one. */
  function AfterGrow(t: Table): Stage {
    if t.prev.Null? then Store else Find(0)
  }

  /** One round of the search in the previous table `p`. */
  ghost function AfterFind(p: Table, hash: nat, at: nat): Stage {
    var from := Slot(hash, p.bits, at);
    if from < |p.keys| && p.keys[from] == hash then FindTrace(from)
    else if (from < |p.keys| && p.keys[from] == 0) || at + 1 >= Pow2(p.bits) then Store
    else Find(at + 1)
  }

  function AfterFindTrace(p: Table, from: nat): Stage {
    if from < |p.traces| && p.traces[from].Stored? then SetTrace(p.traces[from]) else Store
  }

  /** Storing 0 in word `slot` of the key array of a table. The array is followed in memory by
      the samples, three words each, and a successor's slot may lie beyond the keys. */
  function ZeroWord(t: Table, slot: nat): Table {
    if slot < |t.keys| then t.(keys := t.keys[slot := 0])
    else
      var i := (slot - |t.keys|) / 3;
      if i >= |t.traces| || i >= |t.samples| || i >= |t.counters| then t
      else if (slot - |t.keys|) % 3 == 0 then t.(traces := t.traces[i := NoTrace])
      else if (slot - |t.keys|) % 3 == 1 then t.(samples := t.samples[i := 0])
      else t.(counters := t.counters[i := 0])
  }

  /** Looking at the slot, and claiming it when it is empty. */
  ghost predicate ProbeStep(h: Heap, pc: Pc, h': Heap, pc': Pc)
    requires Ready(h, pc)
  {
    var t := h.tables[pc.g];
    var slot := SlotIn(t, pc);
    match pc.stage
    case Load => h' == h && pc' == AfterLoad(t, pc)
    case CasKey =>
      if t.keys[slot] == 0
      then h' == WithTable(h, pc.g, t.(keys := t.keys[slot := pc.job.trace.hash])) && pc' == pc.(stage := IncSize)
      else h' == h && pc' == pc.(stage := Load)
    case _ => false
  }

  /** Allocating and publishing the next table. */
  ghost predicate GrowStep(h: Heap, pc: Pc, h': Heap, pc': Pc)
    requires Ready(h, pc)
  {
    var t := h.tables[pc.g];
    match pc.stage
    case Grow =>
      || (h' == h && pc' == pc.(stage := AfterGrow(t)))                       // no memory
      || (t.bits < MAX_BITS
          && h' == h.(tables := h.tables + [EmptyTable(t.bits + 1, To(pc.g))])
          && pc' == pc.(stage := GrowCas(|h.tables|)))
    case GrowCas(made) =>
      && h' == (if h.current == pc.g then h.(current := made) else h)
      && pc' == pc.(stage := AfterGrow(t))
    case _ => false
  }

  /** Steps that change no table. */
  ghost predicate ReadStep(h: Heap, pc: Pc, h': Heap, pc': Pc)
    requires Ready(h, pc)
  {
    var t := h.tables[pc.g];
    match pc.stage
    case Find(at) =>
      t.prev.To? && h' == h && pc' == pc.(stage := AfterFind(h.tables[t.prev.table], pc.job.trace.hash, at))
    case FindTrace(from) =>
      t.prev.To? && h' == h && pc' == pc.(stage := AfterFindTrace(h.tables[t.prev.table], from))
    case Store =>
      h' == h && pc'.InPut? && pc' == pc.(stage := pc'.stage)
      && (pc'.stage == SetTrace(Stored(pc.job.trace)) || pc'.stage == SetTrace(NoTrace))
    case IncOverflow => h' == h.(overflow := h.overflow + 1) && pc' == pc.(stage := UnlockOverflow)
    case _ => false
  }

  /** Steps that change the put's own table: the new table and the next stage. */
  ghost function OwnEffect(t: Table, pc: Pc): (Table, Stage)
    requires pc.InPut? && WellFormed(t) && SlotIn(t, pc) < Pow2(t.bits)
    requires pc.stage.IncSize? || pc.stage.SetTrace? || pc.stage.IncSamples? || pc.stage.IncCounter?
  {
    var slot := SlotIn(t, pc);
    match pc.stage
    case IncSize =>
      (t.(size := t.size + 1), if t.size + 1 == Threshold(t.bits) then Grow else AfterGrow(t))
    case SetTrace(link) => (t.(traces := t.traces[slot := link]), ClearPrev)
    case IncSamples => (t.(samples := t.samples[slot := t.samples[slot] + 1]), IncCounter)
    case IncCounter => (t.(counters := t.counters[slot := t.counters[slot] + pc.job.weight]), Unlock)
  }

  ghost predicate OwnStep(h: Heap, pc: Pc, h': Heap, pc': Pc)
    requires Ready(h, pc)
  {
    && (pc.stage.IncSize? || pc.stage.SetTrace? || pc.stage.IncSamples? || pc.stage.IncCounter?)
    && var (t', stage') := OwnEffect(h.tables[pc.g], pc);
       h' == WithTable(h, pc.g, t') && pc' == pc.(stage := stage')
  }

  /** Zeroing the word of the previous table at the new table's slot index. */
  ghost predicate ZeroStep(h: Heap, pc: Pc, h': Heap, pc': Pc)
    requires Ready(h, pc)
  {
    var t := h.tables[pc.g];
    && pc.stage.ClearPrev? && pc' == pc.(stage := IncSamples)
    && h' == if t.prev.Null? then h
             else WithTable(h, t.prev.table, ZeroWord(h.tables[t.prev.table], SlotIn(t, pc)))
  }

  /** An instruction of put between taking the table and releasing the lock. */
  ghost predicate PutStep(h: Heap, pc: Pc, h': Heap, pc': Pc) {
    && Ready(h, pc)
    && ( || ProbeStep(h, pc, h', pc') || GrowStep(h, pc, h', pc') || ReadStep(h, pc, h', pc')
         || OwnStep(h, pc, h', pc') || ZeroStep(h, pc, h', pc'))
  }

  // ---------------------------------------------------------------------------------------
  // The machine
  // ---------------------------------------------------------------------------------------

  ghost predicate Init(s: State) {
    && s.word == 0
    && 1 <= s.heap.bits <= MAX_BITS
    && s.heap == Heap(s.heap.bits, [EmptyTable(s.heap.bits, Null)], 0, 0)
    && |s.threads| <= THREAD_LIMIT && (forall t :: 0 <= t < |s.threads| ==> s.threads[t].Idle?)
    && s.log == Log(0, 0, [])
  }

  function Moved(s: State, t: nat, pc: Pc): State
    requires t < |s.threads|
  {
    s.(threads := s.threads[t := pc])
  }

  /** Taking and releasing the lock, and loading `_current_table`. */
  ghost predicate GateStep(s: State, t: nat, s': State)
    requires t < |s.threads|
  {
    match s.threads[t]
    case Idle =>
      || s' == Moved(s, t, ClearSpin)
      || exists job: Job :: job.trace.hash != 0 && s' == Moved(s, t, Enter(job))
    case Enter(job) =>
      s' == if s.word <= 0 then Moved(s, t, EnterCas(job, s.word))
            else Moved(s, t, Idle).(log := s.log.(completed := s.log.completed + 1, refused := s.log.refused + 1))
    case EnterCas(job, v) =>
      s' == if s.word == v then Moved(s, t, LoadTable(job)).(word := Int32(v - 1)) else Moved(s, t, Enter(job))
    case LoadTable(job) => s' == Moved(s, t, InPut(job, s.heap.current, 0, Load))
    case InPut(job, g, step, stage) =>
      && g < |s.heap.tables|
      && (stage.Unlock? || stage.UnlockOverflow?)
      && var result := Result(job.trace.hash, g, SlotIn(s.heap.tables[g], s.threads[t]), job.weight);
         s' == Moved(s, t, Idle).(
                 word := Int32(s.word + 1),
                 log := s.log.(completed := s.log.completed + 1,
                               results := if stage.UnlockOverflow? then s.log.results else s.log.results + [result]))
    case ClearSpin => s' == if s.word == 0 then Moved(s, t, Clearing).(word := 1) else s
    case ClearUnlock => s' == Moved(s, t, Idle).(word := Int32(s.word - 1))
    case Clearing => false
  }

  /** The body of clear: drop the current table while it has a predecessor, then empty the
      first one. */
  ghost predicate ClearStep(s: State, t: nat, s': State)
    requires t < |s.threads|
  {
    && s.threads[t].Clearing? && s.heap.current < |s.heap.tables|
    && var table := s.heap.tables[s.heap.current];
       match table.prev
       case To(p) => s' == s.(heap := s.heap.(tables := s.heap.tables[..s.heap.current], current := p))
       case Null =>
         s' == Moved(s, t, ClearUnlock).(
                 heap := s.heap.(tables := s.heap.tables[s.heap.current := EmptyTable(table.bits, Null)],
                     overflow := 0),
                 log := Log(0, 0, []))
  }

  ghost predicate Step(s: State, t: nat, s': State) {
    && t < |s.threads| == |s'.threads|
    && ( || GateStep(s, t, s')
         || ClearStep(s, t, s')
         || (PutStep(s.heap, s.threads[t], s'.heap, s'.threads[t])
             && s' == State(s.word, s'.heap, s.threads[t := s'.threads[t]], s.log)))
  }

  ghost predicate Next(s: State, s': State) {
    exists t :: Step(s, t, s')
  }

  ghost predicate IsRun(run: seq<State>) {
    && |run| > 0
    && Init(run[0])
    && forall i :: 0 <= i < |run| - 1 ==> Next(run[i], run[i + 1])
  }
}
