/** When a stored trace has the hash of its slot's key, in all tables. A put that claims a slot of a
    table that already has a successor may find there a trace of the key that was cleared. As long
    as no put does that, every slot of every table matches, and puts that landed in one table, new or
    old, got equal ids exactly for equal hashes. */
module TraceMatch {
  import opened Words
  import opened Bits
  import opened Probe
  import opened TraceStorage
  import opened TraceInvariant
  import opened TraceTheorems

  // ---------------------------------------------------------------------------------------
  // Step by step, exactly
  // ---------------------------------------------------------------------------------------

  ghost predicate MatchTable(t: Table) {
    forall slot: nat :: slot < |t.keys| && slot < |t.traces| && t.keys[slot] != 0 && t.traces[slot].Stored? ==>
      t.traces[slot].trace.hash == t.keys[slot]
  }

  /** Every slot of every table with a key and a trace has the trace of that key. */
  ghost predicate Match(h: Heap) {
    forall g :: 0 <= g < |h.tables| ==> MatchTable(h.tables[g])
  }

  lemma MatchAfter(h: Heap, g: nat, t: Table)
    requires Match(h) && g < |h.tables|
    ensures Match(WithTable(h, g, t)) <==> MatchTable(t)
  {
    var h' := WithTable(h, g, t);
    assert h'.tables[g] == t;
    forall i | 0 <= i < |h'.tables| && i != g ensures MatchTable(h'.tables[i]) {
    }
  }

  /** Claiming a slot keeps the match if and only if the slot has no trace or a trace of that hash. */
  lemma ClaimMatchExact(h: Heap, pc: Pc, h': Heap, pc': Pc)
    requires Match(h) && PutStep(h, pc, h', pc') && pc.stage.CasKey?
    requires h.tables[pc.g].keys[SlotIn(h.tables[pc.g], pc)] == 0 && pc.job.trace.hash != 0
    ensures SlotIn(h.tables[pc.g], pc) < |h.tables[pc.g].traces|
    ensures var link := h.tables[pc.g].traces[SlotIn(h.tables[pc.g], pc)];
            Match(h') <==> link.NoTrace? || link.trace.hash == pc.job.trace.hash
  {
    hide Pow2, Slot, Match, MatchTable;
    var t, slot, hash := h.tables[pc.g], SlotIn(h.tables[pc.g], pc), pc.job.trace.hash;
    var t' := t.(keys := t.keys[slot := hash]);
    assert h' == WithTable(h, pc.g, t');
    MatchAt(h, pc.g);
    MatchAfter(h, pc.g, t');
    KeyChangeMatch(t, slot, hash);
  }

  lemma MatchAt(h: Heap, g: nat)
    requires Match(h) && g < |h.tables|
    ensures MatchTable(h.tables[g])
  {
  }

  lemma KeyChangeMatch(t: Table, slot: nat, hash: nat)
    requires MatchTable(t) && slot < |t.keys| && slot < |t.traces| && t.keys[slot] == 0 && hash != 0
    ensures MatchTable(t.(keys := t.keys[slot := hash]))
            <==> t.traces[slot].NoTrace? || t.traces[slot].trace.hash == hash
  {
    var t' := t.(keys := t.keys[slot := hash]);
    assert t'.keys[slot] == hash && t'.traces[slot] == t.traces[slot];
  }

  /** Storing a trace keeps the match if and only if the slot's key has been cleared or is that of the
      trace. */
  lemma StoreMatchExact(h: Heap, pc: Pc, h': Heap, pc': Pc)
    requires Match(h) && PutStep(h, pc, h', pc') && pc.stage.SetTrace?
    ensures SlotIn(h.tables[pc.g], pc) < |h.tables[pc.g].keys|
    ensures var key, link := h.tables[pc.g].keys[SlotIn(h.tables[pc.g], pc)], pc.stage.link;
            Match(h') <==> key == 0 || link.NoTrace? || link.trace.hash == key
  {
    hide Pow2, Slot, Match, MatchTable;
    var t, slot := h.tables[pc.g], SlotIn(h.tables[pc.g], pc);
    var t' := t.(traces := t.traces[slot := pc.stage.link]);
    assert h' == WithTable(h, pc.g, t');
    MatchAt(h, pc.g);
    MatchAfter(h, pc.g, t');
    TraceChangeMatch(t, slot, pc.stage.link);
  }

  lemma TraceChangeMatch(t: Table, slot: nat, link: TraceLink)
    requires MatchTable(t) && slot < |t.keys| && slot < |t.traces|
    ensures MatchTable(t.(traces := t.traces[slot := link]))
            <==> t.keys[slot] == 0 || link.NoTrace? || link.trace.hash == t.keys[slot]
  {
    var t' := t.(traces := t.traces[slot := link]);
    assert t'.keys[slot] == t.keys[slot] && t'.traces[slot] == link;
  }

  // ---------------------------------------------------------------------------------------
  // What a put does to keys and traces
  // ---------------------------------------------------------------------------------------

  /** The tables have the same keys and traces as before; a new one is empty. */
  ghost predicate SameEntries(h: Heap, h': Heap) {
    && h'.bits == h.bits && |h.tables| <= |h'.tables|
    && (forall g :: 0 <= g < |h.tables| ==>
          h'.tables[g].keys == h.tables[g].keys && h'.tables[g].traces == h.tables[g].traces)
    && (forall g :: |h.tables| <= g < |h'.tables| ==> NothingIn(h'.tables[g]))
  }

  ghost predicate NothingIn(t: Table) {
    && (forall slot: nat :: slot < |t.keys| ==> t.keys[slot] == 0)
    && (forall slot: nat :: slot < |t.traces| ==> t.traces[slot] == NoTrace)
    && |t.keys| == |t.traces|
  }

  lemma EmptyHasNothing(bits: nat, prev: Link)
    ensures NothingIn(EmptyTable(bits, prev))
  {
  }

  predicate Claims(h: Heap, pc: Pc)
    requires pc.InPut? && pc.g < |h.tables| && SlotIn(h.tables[pc.g], pc) < |h.tables[pc.g].keys|
  {
    pc.stage.CasKey? && h.tables[pc.g].keys[SlotIn(h.tables[pc.g], pc)] == 0
  }

  /** Only claiming, storing a trace and clearing a word of the previous table change entries. */
  lemma QuietPut(h: Heap, pc: Pc, h': Heap, pc': Pc)
    requires Ready(h, pc) && PutStep(h, pc, h', pc') && !Claims(h, pc) && !pc.stage.SetTrace? && !pc.stage.ClearPrev?
    ensures SameEntries(h, h')
  {
    hide Pow2, Slot, Threshold, NothingIn, EmptyTable, AfterLoad, AfterFind, AfterFindTrace;
    if pc.stage.Grow? {
      EmptyHasNothing(h.tables[pc.g].bits + 1, To(pc.g));
    }
  }

  /** No other instruction of a put breaks the match. */
  lemma OthersKeepMatch(h: Heap, pc: Pc, h': Heap, pc': Pc)
    requires Ready(h, pc) && Match(h) && PutStep(h, pc, h', pc') && !Claims(h, pc) && !pc.stage.SetTrace?
    ensures Match(h')
  {
    if pc.stage.ClearPrev? {
      var t := h.tables[pc.g];
      hide Pow2, Slot, MatchTable;
      if t.prev.To? {
        var word := SlotIn(t, pc);
        ZeroKeepsMatch(h.tables[t.prev.table], word);
        MatchAfter(h, t.prev.table, ZeroWord(h.tables[t.prev.table], word));
      }
    } else {
      QuietPut(h, pc, h', pc');
      hide PutStep, Ready;
      forall g | 0 <= g < |h'.tables| ensures MatchTable(h'.tables[g]) {
        if g < |h.tables| {
          assert MatchTable(h.tables[g]);
        } else {
          assert NothingIn(h'.tables[g]);
        }
      }
    }
  }

  lemma ZeroKeepsMatch(t: Table, word: nat)
    requires MatchTable(t)
    ensures MatchTable(ZeroWord(t, word))
  {
    ZeroWordEntries(t, word);
    hide ZeroWord;
  }

  lemma ZeroWordEntries(t: Table, word: nat)
    ensures var t' := ZeroWord(t, word);
            && |t'.keys| == |t.keys| && |t'.traces| == |t.traces|
            && (forall s: nat :: s < |t.keys| ==> t'.keys[s] == t.keys[s] || t'.keys[s] == 0)
            && (forall s: nat :: s < |t.traces| ==> t'.traces[s] == t.traces[s] || t'.traces[s] == NoTrace)
  {
  }

  // ---------------------------------------------------------------------------------------
  // Who has which slot
  // ---------------------------------------------------------------------------------------

  /** A put has found or claimed this slot of table `g` for this hash, or has found it there while
      looking for a trace. */
  datatype Mark = Mark(g: nat, slot: nat, hash: nat)

  /** The slot it has. */
  function OwnMarkOf(bits: nat, pc: Pc): Option<Mark> {
    if pc.InPut? && HasSlot(pc.stage)
    then Some(Mark(pc.g, Slot(pc.job.trace.hash, bits + pc.g, pc.step), pc.job.trace.hash)) else None
  }

  /** The slot of the previous table whose trace it is about to read. */
  function LookMarkOf(pc: Pc): Option<Mark> {
    if pc.InPut? && pc.stage.FindTrace? && pc.g > 0
    then Some(Mark(pc.g - 1, pc.stage.from, pc.job.trace.hash)) else None
  }

  function SetOf(m: Option<Mark>): set<Mark> {
    if m.Some? then {m.value} else {}
  }

  ghost function ThreadMarks(bits: nat, pc: Pc): set<Mark> {
    SetOf(OwnMarkOf(bits, pc)) + SetOf(LookMarkOf(pc))
  }

  ghost function MarksOfThreads(bits: nat, threads: seq<Pc>): (marks: set<Mark>)
    ensures forall t :: 0 <= t < |threads| ==> ThreadMarks(bits, threads[t]) <= marks
    ensures forall m :: m in marks ==> exists t :: 0 <= t < |threads| && m in ThreadMarks(bits, threads[t])
  {
    set t, m | 0 <= t < |threads| && m in ThreadMarks(bits, threads[t]) :: m
  }

  function ResultMark(r: Result): Mark {
    Mark(r.g, r.slot, r.hash)
  }

  ghost function MarksOfResults(results: seq<Result>): (marks: set<Mark>)
    ensures forall i :: 0 <= i < |results| ==> ResultMark(results[i]) in marks
    ensures forall m :: m in marks ==> exists i :: 0 <= i < |results| && m == ResultMark(results[i])
  {
    set i | 0 <= i < |results| :: ResultMark(results[i])
  }

  ghost function AllMarks(bits: nat, threads: seq<Pc>, results: seq<Result>): set<Mark> {
    MarksOfThreads(bits, threads) + MarksOfResults(results)
  }

  lemma ThreadStepMarks(bits: nat, threads: seq<Pc>, t: nat, pc: Pc)
    requires t < |threads|
    ensures MarksOfThreads(bits, threads[t := pc]) <= MarksOfThreads(bits, threads) + ThreadMarks(bits, pc)
  {
    hide ThreadMarks;
    var threads' := threads[t := pc];
    forall m | m in MarksOfThreads(bits, threads') ensures m in MarksOfThreads(bits, threads) + ThreadMarks(bits, pc) {
      var u :| 0 <= u < |threads'| && m in ThreadMarks(bits, threads'[u]);
      if u != t {
        assert m in ThreadMarks(bits, threads[u]);
      }
    }
  }

  // ---------------------------------------------------------------------------------------
  // The invariant
  // ---------------------------------------------------------------------------------------

  /** The slot of a mark holds its hash or has been cleared, no other slot holds the hash, and a trace
      there is of that hash. */
  ghost predicate MarkOk(h: Heap, m: Mark) {
    && m.g <= h.current < |h.tables| && m.hash != 0
    && var t := h.tables[m.g];
       && m.slot < |t.keys| == |t.traces|
       && (t.keys[m.slot] == m.hash || (m.g < h.current && t.keys[m.slot] == 0))
       && (forall s: nat :: s < |t.keys| && t.keys[s] == m.hash ==> s == m.slot)
       && (t.traces[m.slot].Stored? ==> t.traces[m.slot].trace.hash == m.hash)
  }

  ghost predicate MarksOk(h: Heap, marks: set<Mark>) {
    forall m :: m in marks ==> MarkOk(h, m)
  }

  /** In one table, the same hash exactly for the same slot. */
  ghost predicate MarksAgree(marks: set<Mark>) {
    forall m, n :: m in marks && n in marks && m.g == n.g ==> (m.hash == n.hash <==> m.slot == n.slot)
  }

  ghost predicate UniqueKeys(keys: seq<nat>) {
    forall a: nat, b: nat :: a < |keys| && b < |keys| && keys[a] == keys[b] != 0 ==> a == b
  }

  /** A free slot has no trace. */
  ghost predicate FreeIsBare(t: Table) {
    forall slot: nat :: slot < |t.keys| && slot < |t.traces| && t.keys[slot] == 0 ==> t.traces[slot] == NoTrace
  }

  ghost predicate TableOk(h: Heap, g: nat)
    requires g < |h.tables|
  {
    && |h.tables[g].keys| == |h.tables[g].traces|
    && MatchTable(h.tables[g]) && UniqueKeys(h.tables[g].keys)
    && (g >= h.current ==> FreeIsBare(h.tables[g]))
  }

  ghost predicate TablesOk(h: Heap) {
    h.current < |h.tables| && forall g: nat :: g < |h.tables| ==> TableOk(h, g)
  }

  ghost predicate Core(h: Heap, marks: set<Mark>) {
    TablesOk(h) && MarksOk(h, marks) && MarksAgree(marks)
  }

  lemma CoreAdd(h: Heap, marks: set<Mark>, m: Mark)
    requires Core(h, marks) && m.g <= h.current && m.slot < |h.tables[m.g].keys|
    requires h.tables[m.g].keys[m.slot] == m.hash != 0
    ensures Core(h, marks + {m})
  {
    assert TableOk(h, m.g);
    assert MarkOk(h, m);
    forall n | n in marks && n.g == m.g ensures m.hash == n.hash <==> m.slot == n.slot {
      assert MarkOk(h, n);
    }
  }

  lemma CoreFewer(h: Heap, marks: set<Mark>, marks': set<Mark>)
    requires Core(h, marks) && marks' <= marks
    ensures Core(h, marks')
  {
  }

  lemma MarkSame(h: Heap, h': Heap, m: Mark)
    requires MarkOk(h, m) && SameEntries(h, h') && h.current <= h'.current < |h'.tables|
    ensures MarkOk(h', m)
  {
    assert h'.tables[m.g].keys == h.tables[m.g].keys && h'.tables[m.g].traces == h.tables[m.g].traces;
  }

  lemma CoreSame(h: Heap, h': Heap, marks: set<Mark>)
    requires Core(h, marks) && SameEntries(h, h') && h.current <= h'.current < |h'.tables|
    ensures Core(h', marks)
  {
    forall m | m in marks ensures MarkOk(h', m) {
      MarkSame(h, h', m);
    }
    forall g: nat | g < |h'.tables| ensures TableOk(h', g) {
      if g < |h.tables| {
        assert TableOk(h, g);
      } else {
        assert NothingIn(h'.tables[g]);
      }
    }
  }

  lemma CoreClaim(h: Heap, marks: set<Mark>, slot: nat, hash: nat)
    requires Core(h, marks) && slot < |h.tables[h.current].keys| && h.tables[h.current].keys[slot] == 0
    requires hash != 0 && hash !in h.tables[h.current].keys
    ensures var t := h.tables[h.current];
            Core(WithTable(h, h.current, t.(keys := t.keys[slot := hash])), marks + {Mark(h.current, slot, hash)})
  {
    var t, g := h.tables[h.current], h.current;
    var h' := WithTable(h, g, t.(keys := t.keys[slot := hash]));
    assert TableOk(h, g);
    forall i: nat | i < |h'.tables| ensures TableOk(h', i) {
      if i != g {
        assert TableOk(h, i);
      }
    }
    forall m | m in marks ensures MarkOk(h', m) && !(m.g == g && (m.slot == slot || m.hash == hash)) {
      assert MarkOk(h, m);
    }
    assert MarkOk(h', Mark(g, slot, hash));
  }

  lemma CoreStore(h: Heap, marks: set<Mark>, m: Mark, link: TraceLink)
    requires Core(h, marks) && m in marks && (link.Stored? ==> link.trace.hash == m.hash)
    ensures m.g < |h.tables| && m.slot < |h.tables[m.g].traces|
    ensures var t := h.tables[m.g]; Core(WithTable(h, m.g, t.(traces := t.traces[m.slot := link])), marks)
  {
    assert MarkOk(h, m);
    var t, g := h.tables[m.g], m.g;
    var h' := WithTable(h, g, t.(traces := t.traces[m.slot := link]));
    forall i: nat | i < |h'.tables| ensures TableOk(h', i) {
      assert TableOk(h, i);
    }
    forall n | n in marks ensures MarkOk(h', n) {
      assert MarkOk(h, n);
      if n.g == g && n.slot == m.slot {
        assert n.hash == m.hash;
      }
    }
  }

  lemma CoreZero(h: Heap, marks: set<Mark>, g: nat, word: nat)
    requires Core(h, marks) && g < h.current
    ensures Core(WithTable(h, g, ZeroWord(h.tables[g], word)), marks)
  {
    var t := h.tables[g];
    var h' := WithTable(h, g, ZeroWord(t, word));
    ZeroWordEntries(t, word);
    assert TableOk(h, g);
    hide ZeroWord;
    forall i: nat | i < |h'.tables| ensures TableOk(h', i) {
      assert TableOk(h, i);
    }
    forall n | n in marks ensures MarkOk(h', n) {
      assert MarkOk(h, n);
    }
  }

  // ---------------------------------------------------------------------------------------
  // Every timely step keeps it
  // ---------------------------------------------------------------------------------------

  /** A trace about to be stored is of the put's hash. */
  ghost predicate StageOk(pc: Pc) {
    pc.InPut? && pc.stage.SetTrace? && pc.stage.link.Stored? ==> pc.stage.link.trace.hash == pc.job.trace.hash
  }

  /** What a put knows about its place. */
  ghost predicate Placed(h: Heap, pc: Pc) {
    && Ready(h, pc) && pc.InPut? && pc.g <= h.current < |h.tables| && pc.job.trace.hash != 0
    && h.tables[pc.g].bits == h.bits + pc.g && |h.tables[pc.g].keys| == |h.tables[pc.g].traces|
    && SlotIn(h.tables[pc.g], pc) < |h.tables[pc.g].keys|
    && (h.tables[pc.g].prev.To? <==> pc.g > 0)
    && (pc.g > 0 ==> h.tables[pc.g].prev == To(pc.g - 1) && |h.tables[pc.g - 1].keys| == |h.tables[pc.g - 1].traces|)
  }

  lemma PutIsPlaced(h: Heap, pc: Pc)
    requires HeapInv(h) && ThreadInv(h, pc) && pc.InPut?
    ensures Placed(h, pc)
  {
    PutIsReady(h, pc);
    hide Slot, HeapInv;
  }

  lemma OwnMark(h: Heap, pc: Pc)
    requires Placed(h, pc) && HasSlot(pc.stage)
    ensures Mark(pc.g, SlotIn(h.tables[pc.g], pc), pc.job.trace.hash) in ThreadMarks(h.bits, pc)
  {
  }

  lemma ClaimKeepsCore(h: Heap, pc: Pc, h': Heap, pc': Pc, marks: set<Mark>)
    requires Placed(h, pc) && PutStep(h, pc, h', pc') && Core(h, marks)
    requires Claims(h, pc) && pc.g == h.current && pc.job.trace.hash !in h.tables[pc.g].keys
    ensures Core(h', marks + ThreadMarks(h'.bits, pc')) && StageOk(pc')
  {
    hide Core, Pow2, Slot, Ready;
    var slot, hash := SlotIn(h.tables[pc.g], pc), pc.job.trace.hash;
    CoreClaim(h, marks, slot, hash);
    assert OwnMarkOf(h'.bits, pc') == Some(Mark(h.current, slot, hash)) && LookMarkOf(pc') == None;
    assert ThreadMarks(h'.bits, pc') == {Mark(h.current, slot, hash)};
  }

  lemma StoreKeepsCore(h: Heap, pc: Pc, h': Heap, pc': Pc, marks: set<Mark>)
    requires Placed(h, pc) && PutStep(h, pc, h', pc') && Core(h, marks)
    requires pc.stage.SetTrace? && StageOk(pc) && ThreadMarks(h.bits, pc) <= marks
    ensures Core(h', marks + ThreadMarks(h'.bits, pc')) && StageOk(pc')
  {
    OwnMark(h, pc);
    hide Core, Pow2, Slot, Ready;
    CoreStore(h, marks, Mark(pc.g, SlotIn(h.tables[pc.g], pc), pc.job.trace.hash), pc.stage.link);
    assert OwnMarkOf(h'.bits, pc') == OwnMarkOf(h.bits, pc) && LookMarkOf(pc') == LookMarkOf(pc);
    assert marks + ThreadMarks(h'.bits, pc') == marks;
  }

  lemma ZeroKeepsCore(h: Heap, pc: Pc, h': Heap, pc': Pc, marks: set<Mark>)
    requires Placed(h, pc) && PutStep(h, pc, h', pc') && Core(h, marks)
    requires pc.stage.ClearPrev? && ThreadMarks(h.bits, pc) <= marks
    ensures Core(h', marks + ThreadMarks(h'.bits, pc')) && StageOk(pc')
  {
    hide Core, Pow2, Slot, Ready, ZeroWord;
    if pc.g > 0 {
      CoreZero(h, marks, pc.g - 1, SlotIn(h.tables[pc.g], pc));
    }
    assert OwnMarkOf(h'.bits, pc') == OwnMarkOf(h.bits, pc) && LookMarkOf(pc') == LookMarkOf(pc);
    assert marks + ThreadMarks(h'.bits, pc') == marks;
  }

  /** The slot of a mark holds its hash. */
  ghost predicate Holds(h: Heap, m: Mark) {
    m.g <= h.current && m.g < |h.tables| && m.slot < |h.tables[m.g].keys| && h.tables[m.g].keys[m.slot] == m.hash != 0
  }

  /** A mark is an old one or that of a hash that has just been found. */
  ghost predicate OldOrFound(h: Heap, m: Option<Mark>, m': Option<Mark>) {
    m'.None? || m' == m || Holds(h, m'.value)
  }

  /** The remaining instructions give the put no mark, except for a hash it has just found, and no trace
      but its own or one it has found. */
  ghost predicate QuietResult(h: Heap, pc: Pc, h': Heap, pc': Pc) {
    && pc.InPut? && pc'.InPut? && pc'.job == pc.job && h'.bits == h.bits
    && OldOrFound(h, OwnMarkOf(h.bits, pc), OwnMarkOf(h.bits, pc'))
    && OldOrFound(h, LookMarkOf(pc), LookMarkOf(pc'))
    && (pc'.stage.SetTrace? && pc'.stage.link.Stored? ==>
          pc'.stage.link == Stored(pc.job.trace) || TakenFrom(h, LookMarkOf(pc), pc'.stage.link))
  }

  ghost predicate TakenFrom(h: Heap, m: Option<Mark>, link: TraceLink) {
    m.Some? && m.value.g < |h.tables| && m.value.slot < |h.tables[m.value.g].traces|
    && link == h.tables[m.value.g].traces[m.value.slot]
  }

  lemma QuietProbe(h: Heap, pc: Pc, h': Heap, pc': Pc)
    requires Placed(h, pc) && ProbeStep(h, pc, h', pc') && !Claims(h, pc)
    ensures QuietResult(h, pc, h', pc')
  {
    hide Pow2, Slot, Ready;
  }

  lemma QuietGrow(h: Heap, pc: Pc, h': Heap, pc': Pc)
    requires Placed(h, pc) && GrowStep(h, pc, h', pc')
    ensures QuietResult(h, pc, h', pc')
  {
    hide Pow2, Slot, Ready, EmptyTable;
  }

  lemma QuietRead(h: Heap, pc: Pc, h': Heap, pc': Pc)
    requires Placed(h, pc) && ReadStep(h, pc, h', pc')
    ensures QuietResult(h, pc, h', pc')
  {
    hide Pow2, Slot, Ready;
  }

  lemma QuietOwn(h: Heap, pc: Pc, h': Heap, pc': Pc)
    requires Placed(h, pc) && OwnStep(h, pc, h', pc') && !pc.stage.SetTrace?
    ensures QuietResult(h, pc, h', pc')
  {
    hide Pow2, Slot, Threshold;
  }

  lemma QuietMarks(h: Heap, pc: Pc, h': Heap, pc': Pc)
    requires Placed(h, pc) && PutStep(h, pc, h', pc')
    requires !Claims(h, pc) && !pc.stage.SetTrace? && !pc.stage.ClearPrev?
    ensures QuietResult(h, pc, h', pc')
  {
    hide QuietResult;
    if ProbeStep(h, pc, h', pc') {
      QuietProbe(h, pc, h', pc');
    } else if GrowStep(h, pc, h', pc') {
      QuietGrow(h, pc, h', pc');
    } else if ReadStep(h, pc, h', pc') {
      QuietRead(h, pc, h', pc');
    } else {
      hide ProbeStep, GrowStep, ReadStep;
      QuietOwn(h, pc, h', pc');
    }
  }

  lemma QuietStage(h: Heap, pc: Pc, h': Heap, pc': Pc, marks: set<Mark>)
    requires QuietResult(h, pc, h', pc') && MarksOk(h, marks) && ThreadMarks(h.bits, pc) <= marks
    ensures StageOk(pc')
  {
    hide OwnMarkOf, OldOrFound;
    var m := LookMarkOf(pc);
    if m.Some? {
      assert m.value in ThreadMarks(h.bits, pc);
      assert MarkOk(h, m.value);
    }
    hide ThreadMarks, MarksOk;
  }

  lemma QuietKeepsCore(h: Heap, pc: Pc, h': Heap, pc': Pc, marks: set<Mark>)
    requires Placed(h, pc) && PutStep(h, pc, h', pc') && Core(h, marks)
    requires !Claims(h, pc) && !pc.stage.SetTrace? && !pc.stage.ClearPrev? && ThreadMarks(h.bits, pc) <= marks
    requires h.current <= h'.current < |h'.tables|
    ensures Core(h', marks + ThreadMarks(h'.bits, pc')) && StageOk(pc')
  {
    hide PutStep, Ready, SameEntries, OwnMarkOf, LookMarkOf;
    QuietPut(h, pc, h', pc');
    QuietMarks(h, pc, h', pc');
    QuietStage(h, pc, h', pc', marks);
    hide Core, StageOk, Placed, OldOrFound;
    AddFound(h, marks, OwnMarkOf(h.bits, pc), OwnMarkOf(h.bits, pc'));
    var more := marks + SetOf(OwnMarkOf(h.bits, pc'));
    AddFound(h, more, LookMarkOf(pc), LookMarkOf(pc'));
    CoreSame(h, h', more + SetOf(LookMarkOf(pc')));
    assert marks + ThreadMarks(h'.bits, pc') == more + SetOf(LookMarkOf(pc'));
  }

  lemma AddFound(h: Heap, marks: set<Mark>, m: Option<Mark>, m': Option<Mark>)
    requires Core(h, marks) && SetOf(m) <= marks && OldOrFound(h, m, m')
    ensures Core(h, marks + SetOf(m'))
  {
    hide Core;
    if m'.Some? && m' != m {
      CoreAdd(h, marks, m'.value);
    } else {
      assert marks + SetOf(m') == marks;
    }
  }

  lemma PutKeepsCore(h: Heap, pc: Pc, h': Heap, pc': Pc, marks: set<Mark>)
    requires HeapInv(h) && ThreadInv(h, pc) && PutStep(h, pc, h', pc') && Core(h, marks)
    requires StageOk(pc) && ThreadMarks(h.bits, pc) <= marks && h.current <= h'.current < |h'.tables|
    requires !LatePut(h, pc, pc')
    ensures h'.bits == h.bits && Core(h', marks + ThreadMarks(h'.bits, pc')) && StageOk(pc')
  {
    PutKeepsSizes(h, pc, h', pc');
    PutIsPlaced(h, pc);
    if Claims(h, pc) {
      ClaimedIsSeen(h, pc, h', pc');
      NotYetThere(h, pc);
      hide HeapInv, ThreadInv, PutStep, Core, Placed, ThreadMarks, StageOk;
      ClaimKeepsCore(h, pc, h', pc', marks);
    } else {
      hide HeapInv, ThreadInv, PutStep, Core, Placed, ThreadMarks, StageOk, Claims;
      if pc.stage.SetTrace? {
        StoreKeepsCore(h, pc, h', pc', marks);
      } else if pc.stage.ClearPrev? {
        ZeroKeepsCore(h, pc, h', pc', marks);
      } else {
        QuietKeepsCore(h, pc, h', pc', marks);
      }
    }
  }

  /** A put claims a slot in a table that already has a successor. */
  ghost predicate LatePut(h: Heap, pc: Pc, pc': Pc) {
    pc.InPut? && pc.stage.CasKey? && pc.g < h.current && pc'.InPut? && pc'.stage.IncSize?
  }

  lemma ClaimedIsSeen(h: Heap, pc: Pc, h': Heap, pc': Pc)
    requires Placed(h, pc) && PutStep(h, pc, h', pc') && Claims(h, pc)
    ensures pc'.InPut? && pc'.stage.IncSize?
  {
    hide Pow2, Slot;
  }

  lemma NotYetThere(h: Heap, pc: Pc)
    requires HeapInv(h) && ThreadInv(h, pc) && Placed(h, pc) && Claims(h, pc) && pc.g == h.current
    ensures pc.job.trace.hash !in h.tables[pc.g].keys
  {
    AbsentIfEmptyReached(h.tables[pc.g].keys, h.bits + pc.g, pc.job.trace.hash, pc.step);
  }

  // ---------------------------------------------------------------------------------------
  // Runs
  // ---------------------------------------------------------------------------------------

  ghost predicate StagesOk(threads: seq<Pc>) {
    forall t :: 0 <= t < |threads| ==> StageOk(threads[t])
  }

  ghost predicate MatchInv(s: State) {
    SomeClearing(s.threads) || (Core(s.heap, AllMarks(s.heap.bits, s.threads, s.log.results)) && StagesOk(s.threads))
  }

  /** Just after a clear, or at the start: one empty table, nothing logged and no put inside. */
  ghost predicate Fresh(s: State) {
    && s.heap.current == 0 && |s.heap.tables| == 1 && NothingIn(s.heap.tables[0]) && s.log.results == []
    && forall t :: 0 <= t < |s.threads| ==> !s.threads[t].InPut?
  }

  lemma FreshMatches(s: State)
    requires Fresh(s)
    ensures MatchInv(s)
  {
    assert MarksOfThreads(s.heap.bits, s.threads) == {} && MarksOfResults(s.log.results) == {};
    assert TableOk(s.heap, 0);
  }

  lemma PutKeepsMatch(h: Heap, threads: seq<Pc>, results: seq<Result>, t: nat, h': Heap, pc': Pc)
    requires t < |threads| && HeapInv(h) && ThreadInv(h, threads[t]) && PutStep(h, threads[t], h', pc')
    requires Core(h, AllMarks(h.bits, threads, results)) && StagesOk(threads)
    requires h.current <= h'.current < |h'.tables| && !LatePut(h, threads[t], pc')
    ensures Core(h', AllMarks(h'.bits, threads[t := pc'], results)) && StagesOk(threads[t := pc'])
  {
    var marks := AllMarks(h.bits, threads, results);
    assert StageOk(threads[t]);
    hide HeapInv, ThreadInv, PutStep, ThreadMarks, Core, StageOk, LatePut;
    PutKeepsCore(h, threads[t], h', pc', marks);
    ThreadStepMarks(h.bits, threads, t, pc');
    CoreFewer(h', marks + ThreadMarks(h'.bits, pc'), AllMarks(h'.bits, threads[t := pc'], results));
  }

  /** A put that leaves takes its mark to the results; other steps at the gate make none. */
  lemma GateMarks(s: State, t: nat, s': State)
    requires t < |s.threads| && GateStep(s, t, s') && (s.threads[t].InPut? ==> Placed(s.heap, s.threads[t]))
    ensures |s'.threads| == |s.threads| && s'.threads == s.threads[t := s'.threads[t]] && s'.heap == s.heap
    ensures ThreadMarks(s.heap.bits, s'.threads[t]) == {} && StageOk(s'.threads[t])
    ensures MarksOfResults(s'.log.results) <= AllMarks(s.heap.bits, s.threads, s.log.results)
  {
    var pc := s.threads[t];
    hide Slot, Int32, Ready;
    if pc.InPut? && pc.stage.Unlock? {
      OwnMark(s.heap, pc);
      var r := Result(pc.job.trace.hash, pc.g, SlotIn(s.heap.tables[pc.g], pc), pc.job.weight);
      assert s'.log.results == s.log.results + [r];
      assert ResultMark(r) in ThreadMarks(s.heap.bits, pc);
      hide GateStep, Placed;
      MoreResults(s.log.results, r);
    } else {
      assert s'.log.results == s.log.results;
    }
  }

  lemma MoreResults(results: seq<Result>, r: Result)
    ensures MarksOfResults(results + [r]) <= MarksOfResults(results) + {ResultMark(r)}
  {
    forall m | m in MarksOfResults(results + [r]) ensures m in MarksOfResults(results) + {ResultMark(r)} {
      var i :| 0 <= i < |results + [r]| && m == ResultMark((results + [r])[i]);
    }
  }

  lemma GateKeepsMatch(s: State, t: nat, s': State)
    requires t < |s.threads| && GateStep(s, t, s') && (s.threads[t].InPut? ==> Placed(s.heap, s.threads[t]))
    requires Core(s.heap, AllMarks(s.heap.bits, s.threads, s.log.results)) && StagesOk(s.threads)
    ensures Core(s'.heap, AllMarks(s'.heap.bits, s'.threads, s'.log.results)) && StagesOk(s'.threads)
  {
    hide Core, Placed, ThreadMarks, GateStep, StageOk;
    GateMarks(s, t, s');
    ThreadStepMarks(s.heap.bits, s.threads, t, s'.threads[t]);
    CoreFewer(s.heap, AllMarks(s.heap.bits, s.threads, s.log.results), AllMarks(s'.heap.bits, s'.threads,
        s'.log.results));
  }

  lemma ClearGoesOn(s: State, t: nat, s': State)
    requires t < |s.threads| && ClearStep(s, t, s') && s.heap.tables[s.heap.current].prev.To?
    ensures SomeClearing(s'.threads)
  {
    assert s'.threads[t].Clearing?;
  }

  /** A clear that is finished leaves a fresh storage. */
  lemma ClearLeavesFresh(s: State, t: nat, s': State)
    requires Inv(s) && t < |s.threads| && ClearStep(s, t, s') && !SomeClearing(s'.threads)
    ensures Fresh(s')
  {
    assert SomeClearing(s.threads);
    var h := s.heap;
    assert TableInv(h.tables[h.current], h.bits, h.current);
    if h.tables[h.current].prev.To? {
      ClearGoesOn(s, t, s');
    } else {
      EmptyHasNothing(h.tables[h.current].bits, Null);
    }
  }

  lemma OnlyClearEndsClearing(s: State, t: nat, s': State)
    requires Step(s, t, s') && !ClearStep(s, t, s') && SomeClearing(s.threads)
    ensures SomeClearing(s'.threads)
  {
    var c :| 0 <= c < |s.threads| && s.threads[c].Clearing?;
    StepMovesOne(s, t, s');
    hide Int32, Slot;
    assert s'.threads[c].Clearing?;
  }

  /** A step in which no put claims a slot late. */
  ghost predicate Timely(s: State, t: nat, s': State) {
    t < |s.threads| && t < |s'.threads| ==> !LatePut(s.heap, s.threads[t], s'.threads[t])
  }

  lemma StepKeepsMatch(s: State, t: nat, s': State)
    requires Inv(s) && Inv(s') && MatchInv(s) && Step(s, t, s') && Timely(s, t, s')
    ensures MatchInv(s')
  {
    hide Inv, PutStep, GateStep, Core, AllMarks, StagesOk, LatePut;
    if !SomeClearing(s'.threads) {
      if ClearStep(s, t, s') {
        hide ClearStep;
        ClearLeavesFresh(s, t, s');
        FreshMatches(s');
      } else {
        if SomeClearing(s.threads) {
          OnlyClearEndsClearing(s, t, s');
        }
        hide ClearStep, SomeClearing;
        ThreadFacts(s, t);
        if GateStep(s, t, s') {
          GateKeepsMatch(s, t, s');
        } else {
          CurrentOnlyGrows(s, t, s');
          PutKeepsMatch(s.heap, s.threads, s.log.results, t, s'.heap, s'.threads[t]);
        }
      }
    }
  }

  lemma ThreadFacts(s: State, t: nat)
    requires Inv(s) && !SomeClearing(s.threads) && t < |s.threads|
    ensures HeapInv(s.heap) && ThreadInv(s.heap, s.threads[t]) && GrowthInv(s.heap, s.threads)
    ensures s.threads[t].InPut? ==> Placed(s.heap, s.threads[t])
  {
    hide HeapInv, ThreadInv, GrowthInv, GateInv, TracesInv, ResultsInv, CountsInv, Placed;
    if s.threads[t].InPut? {
      PutIsPlaced(s.heap, s.threads[t]);
    }
  }

  lemma CurrentOnlyGrows(s: State, t: nat, s': State)
    requires HeapInv(s.heap) && t < |s.threads| && t < |s'.threads| && ThreadInv(s.heap, s.threads[t])
    requires GrowthInv(s.heap, s.threads) && PutStep(s.heap, s.threads[t], s'.heap, s'.threads[t])
    ensures s.heap.current <= s'.heap.current < |s'.heap.tables|
  {
    var pc := s.threads[t];
    assert Growing(pc) ==> GrowerInv(s.heap, pc);
    hide GrowthInv, PutStep;
    PutKeepsHeap(s.heap, pc, s'.heap, s'.threads[t]);
    hide ThreadInv;
  }

  lemma NextOfRun(run: seq<State>, k: nat)
    requires IsRun(run) && k + 1 < |run|
    ensures Next(run[k], run[k + 1])
  {
  }

  lemma NextKeepsMatch(s: State, s': State)
    requires Inv(s) && Inv(s') && MatchInv(s) && Next(s, s') && forall t: nat :: Timely(s, t, s')
    ensures MatchInv(s')
  {
    hide Inv, Step, MatchInv, Timely;
    var t: nat :| Step(s, t, s');
    StepKeepsMatch(s, t, s');
  }

  lemma {:induction false} TimelyRunInv(run: seq<State>, c: nat, i: nat)
    requires IsRun(run) && c <= i < |run| && Fresh(run[c]) && TimelyRun(run, c, i)
    ensures MatchInv(run[i])
    decreases i
  {
    hide IsRun, Inv, Next, MatchInv, Timely, Fresh;
    if i == c {
      FreshMatches(run[c]);
    } else {
      TimelyRunInv(run, c, i - 1);
      RunInv(run, i - 1);
      RunInv(run, i);
      NextOfRun(run, i - 1);
      var before, after := run[i - 1], run[i];
      forall t: nat ensures Timely(before, t, after) {
        assert TimelyAt(run, i - 1, t);
      }
      NextKeepsMatch(before, after);
    }
  }

  /** From state `c` to state `i`, no put claims a slot of a table that already has a successor. */
  ghost predicate TimelyRun(run: seq<State>, c: nat, i: nat) {
    forall k: nat, t: nat :: c <= k < i ==> TimelyAt(run, k, t)
  }

  ghost predicate TimelyAt(run: seq<State>, k: nat, t: nat) {
    k + 1 < |run| ==> Timely(run[k], t, run[k + 1])
  }

  /** In every run, as long as since the last clear no put has claimed a slot of a table that already
      has a successor, every slot of every table that has a key and a trace has the trace of that
      key. */
  lemma TimelyTracesMatch(run: seq<State>, c: nat, i: nat)
    requires IsRun(run) && c <= i < |run| && Fresh(run[c]) && TimelyRun(run, c, i) && !SomeClearing(run[i].threads)
    ensures Match(run[i].heap)
  {
    hide IsRun, Fresh, TimelyRun;
    TimelyRunInv(run, c, i);
    forall g: nat | g < |run[i].heap.tables| ensures MatchTable(run[i].heap.tables[g]) {
      assert TableOk(run[i].heap, g);
    }
  }

  /** And puts that landed in the same table, the newest or not, got equal ids if and only if their
      hashes are equal. */
  lemma TimelyIds(run: seq<State>, c: nat, i: nat, j: nat, k: nat)
    requires IsRun(run) && c <= i < |run| && Fresh(run[c]) && TimelyRun(run, c, i) && !SomeClearing(run[i].threads)
    requires j < |run[i].log.results| && k < |run[i].log.results|
    requires run[i].log.results[j].g == run[i].log.results[k].g
    ensures var h, a, b := run[i].heap, run[i].log.results[j], run[i].log.results[k];
            && (a.hash == b.hash <==> IdOf(h, a) == IdOf(h, b))
            && 0 < IdOf(h, a) < TraceIds.OVERFLOW_TRACE_ID
  {
    hide IsRun, Fresh, TimelyRun;
    TimelyRunInv(run, c, i);
    RunInv(run, i);
    ResultIds(run[i], j, k);
  }

  lemma ResultIds(s: State, j: nat, k: nat)
    requires Inv(s) && MatchInv(s) && !SomeClearing(s.threads)
    requires j < |s.log.results| && k < |s.log.results| && s.log.results[j].g == s.log.results[k].g
    ensures var h, a, b := s.heap, s.log.results[j], s.log.results[k];
            (a.hash == b.hash <==> IdOf(h, a) == IdOf(h, b)) && 0 < IdOf(h, a) < TraceIds.OVERFLOW_TRACE_ID
  {
    hide Inv, MarkOk, MarksOfThreads;
    var h, a, b := s.heap, s.log.results[j], s.log.results[k];
    var m, n := ResultMark(a), ResultMark(b);
    assert m in AllMarks(h.bits, s.threads, s.log.results) && n in AllMarks(h.bits, s.threads, s.log.results);
    assert MarkOk(h, m) && MarkOk(h, n) && (m.hash == n.hash <==> m.slot == n.slot);
    hide MatchInv;
    HeapOf(s);
    IdsOfMarks(h, m, n);
  }

  lemma HeapOf(s: State)
    requires Inv(s) && !SomeClearing(s.threads)
    ensures HeapInv(s.heap)
  {
  }

  lemma IdsOfMarks(h: Heap, m: Mark, n: Mark)
    requires HeapInv(h) && MarkOk(h, m) && MarkOk(h, n) && m.g == n.g && (m.hash == n.hash <==> m.slot == n.slot)
    ensures var x, y := TraceIds.Id(h.bits, m.g, m.slot), TraceIds.Id(h.bits, n.g, n.slot);
            (m.hash == n.hash <==> x == y) && 0 < x < TraceIds.OVERFLOW_TRACE_ID
  {
    SlotIds(h, m.g, m.slot, n.slot);
    hide HeapInv, TraceIds.Id;
  }
}
