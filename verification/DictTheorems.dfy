/** What holds in every run of concurrent lookups: one key has one id, different keys have
    different ids, ids keep their meaning, discarded tables are out of sight, `_size` counts the
    keys, and no thread is ever stuck. */
module DictTheorems {
  import opened Sums
  import opened Words
  import opened Bits
  import opened DictTree
  import opened DictRace
  import opened DictOwners
  import opened DictMap

  ghost predicate ThreadsInv(cfg: Config, tables: seq<Table>, threads: seq<Pc>)
    requires Sensible(cfg)
  {
    forall i :: 0 <= i < |threads| ==> ThreadInv(cfg, tables, threads[i])
  }

  ghost predicate AnswerHolds(tables: seq<Table>, a: Answer) {
    HasKey(tables, a.t, a.r, a.c, a.key)
  }

  ghost predicate AnswersInv(tables: seq<Table>, answers: seq<Answer>) {
    forall i :: 0 <= i < |answers| ==> AnswerHolds(tables, answers[i])
  }

  ghost predicate Inv(cfg: Config, s: State) {
    && Sensible(cfg) && TreeInv(cfg, s.heap)
    && ThreadsInv(cfg, s.heap.tables, s.threads)
    && AnswersInv(s.heap.tables, s.answers)
    && FateInv(s.heap, s.threads)
    && SizeInv(s.heap, s.threads)
  }

  lemma InitInv(cfg: Config, s: State)
    requires Init(cfg, s)
    ensures Inv(cfg, s)
  {
    RootKeeps(cfg);
    assert Times(Capacity(cfg), 0) == 0;
    TotalZero(Counting, s.threads);
    assert Filled(s.heap.tables) == {};
    assert forall u: nat, r: nat, m: nat :: !LinkAt(s.heap.tables, u, r, m);
    assert LinksInv(s.heap);
    forall i: nat, m: nat | i < |s.threads| ensures !Owns(s.threads, i, m) {
      assert s.threads[i].Idle?;
    }
    assert FatesInv(s.heap, s.threads);
    hide FateInv, TreeInv;
  }

  // ---------------------------------------------------------------------------------------
  // Every step keeps the invariant
  // ---------------------------------------------------------------------------------------

  /** What one step does to the tree and to the thread that takes it. */
  lemma TreePart(cfg: Config, s: State, t: nat, s': State)
    requires Inv(cfg, s) && Step(cfg, s, t, s')
    ensures TreeInv(cfg, s'.heap) && Extends(s.heap.tables, s'.heap.tables)
    ensures ThreadInv(cfg, s'.heap.tables, s'.threads[t])
  {
    var pc, pc' := s.threads[t], s'.threads[t];
    assert ThreadInv(cfg, s.heap.tables, pc);
    ExtendsSame(s.heap.tables);
    hide Extends, FateInv, SizeInv, ThreadsInv, AnswersInv;
    if CellStep(cfg, s.heap, pc, s'.heap, pc') {
      hide TreeInv, ThreadInv;
      CellStepKeeps(cfg, s.heap, pc, s'.heap, pc');
    } else if LevelStep(cfg, s.heap, pc, s'.heap, pc') {
      hide TreeInv, ThreadInv;
      LevelStepKeeps(cfg, s.heap, pc, s'.heap, pc');
    } else if StartStep(pc, pc') {
    } else {
      var a := s'.answers[|s.answers|];
      assert AnswerStep(cfg, s.heap, pc, s'.heap, a);
      hide LevelStep, CellStep;
      assert s'.heap.tables == s.heap.tables && s'.heap.baseIndex == s.heap.baseIndex;
    }
  }

  lemma AnswerHolding(cfg: Config, h: Heap, pc: Pc, h': Heap, a: Answer)
    requires Sensible(cfg) && TreeInv(cfg, h) && ThreadInv(cfg, h.tables, pc) && AnswerStep(cfg, h, pc, h', a)
    ensures AnswerHolds(h'.tables, a)
  {
    if pc.Compare? {
      var r := RowAt(cfg, pc.key, pc.level);
      var stored := h.tables[pc.t].rows[r].cells[pc.c].key;
      StoredIsKey(cfg, h.tables, pc.t, r, pc.c, stored);
      KeyEqualsIsEquality(stored, pc.key);
    }
  }

  lemma OthersPart(cfg: Config, s: State, t: nat, s': State)
    requires Inv(cfg, s) && Step(cfg, s, t, s')
    ensures ThreadsInv(cfg, s'.heap.tables, s'.threads) && AnswersInv(s'.heap.tables, s'.answers)
  {
    TreePart(cfg, s, t, s');
    var tables, tables' := s.heap.tables, s'.heap.tables;
    forall i | 0 <= i < |s'.threads| ensures ThreadInv(cfg, tables', s'.threads[i]) {
      if i != t {
        assert ThreadInv(cfg, tables, s.threads[i]);
        ThreadStable(cfg, tables, tables', s.threads[i]);
      }
    }
    forall i | 0 <= i < |s'.answers| ensures AnswerHolds(tables', s'.answers[i]) {
      if i < |s.answers| {
        assert AnswerHolds(tables, s.answers[i]);
        var a := s.answers[i];
        assert s'.answers[i] == a;
        HasKeyKept(tables, tables', a.t, a.r, a.c, a.key);
      } else {
        AnswerHolding(cfg, s.heap, s.threads[t], s'.heap, s'.answers[i]);
      }
    }
  }

  ghost predicate SameLinks(tables: seq<Table>, tables': seq<Table>) {
    forall u: nat, r: nat, m: nat :: LinkAt(tables', u, r, m) <==> LinkAt(tables, u, r, m)
  }

  lemma ClaimLinks(tables: seq<Table>, t: nat, r: nat, c: nat, key: Key)
    requires t < |tables| && r < |tables[t].rows| && c < |tables[t].rows[r].cells|
    ensures SameLinks(tables, Claim(tables, t, r, c, key)) && |Claim(tables, t, r, c, key)| == |tables|
  {
  }

  /** Steps other than making and linking a table leave the links alone. */
  lemma QuietStep(cfg: Config, s: State, t: nat, s': State)
    requires Inv(cfg, s) && Step(cfg, s, t, s') && !s.threads[t].MakeTable? && !s.threads[t].CasNext?
    ensures SameLinks(s.heap.tables, s'.heap.tables) && |s'.heap.tables| == |s.heap.tables|
    ensures s'.heap.freed == s.heap.freed && !s'.threads[t].CasNext?
  {
    hide Inv;
    var pc := s.threads[t];
    if pc.CasCell? && s'.heap.tables != s.heap.tables {
      ClaimLinks(s.heap.tables, pc.t, RowAt(cfg, pc.key, pc.level), pc.c, pc.key);
    }
  }

  lemma FatePart(cfg: Config, s: State, t: nat, s': State)
    requires Inv(cfg, s) && Step(cfg, s, t, s')
    ensures FateInv(s'.heap, s'.threads)
  {
    var pc := s.threads[t];
    if pc.MakeTable? {
      MakeFate(cfg, s.heap, s.threads, s'.heap, s'.threads, t);
    } else if pc.CasNext? {
      CasFate(cfg, s.heap, s.threads, s'.heap, s'.threads, t);
    } else {
      QuietStep(cfg, s, t, s');
      FatesUntouched(s.heap, s.threads, s'.heap, s'.threads, t);
    }
  }

  /** A step fills a cell exactly when its thread then still has to count it. */
  lemma FilledStep(cfg: Config, s: State, t: nat, s': State)
    requires Inv(cfg, s) && Step(cfg, s, t, s')
    ensures |Filled(s'.heap.tables)| - s'.heap.size - Counting(s'.threads[t])
         == |Filled(s.heap.tables)| - s.heap.size - Counting(s.threads[t])
  {
    hide Inv, Filled, Capacity;
    var pc, tables, tables' := s.threads[t], s.heap.tables, s'.heap.tables;
    if pc.CasCell? {
      if tables' != tables {
        ClaimFills(tables, pc.t, RowAt(cfg, pc.key, pc.level), pc.c, pc.key);
      }
    } else if pc.MakeTable? {
      MakeFillsNothing(cfg, s.heap, s'.heap);
    } else if pc.CasNext? {
      if tables' != tables {
        SetNextFillsNothing(tables, pc.t, RowAt(cfg, pc.key, pc.level), pc.made);
      }
    } else {
      assert tables' == tables;
    }
  }

  lemma MakeFillsNothing(cfg: Config, h: Heap, h': Heap)
    requires h'.tables == h.tables + [EmptyTable(cfg, h.baseIndex + Capacity(cfg))]
    ensures Filled(h'.tables) == Filled(h.tables)
  {
    SameFilled(h.tables, h'.tables);
  }

  lemma SetNextFillsNothing(tables: seq<Table>, t: nat, r: nat, next: nat)
    requires t < |tables| && r < |tables[t].rows|
    ensures Filled(SetNext(tables, t, r, next)) == Filled(tables)
  {
    SameFilled(tables, SetNext(tables, t, r, next));
  }

  lemma StepKeepsInv(cfg: Config, s: State, t: nat, s': State)
    requires Inv(cfg, s) && Step(cfg, s, t, s')
    ensures Inv(cfg, s') && Extends(s.heap.tables, s'.heap.tables)
  {
    TreePart(cfg, s, t, s');
    OthersPart(cfg, s, t, s');
    FatePart(cfg, s, t, s');
    FilledStep(cfg, s, t, s');
    TotalUpdate(Counting, s.threads, t, s'.threads[t]);
    hide TreeInv, ThreadsInv, AnswersInv, FateInv, Extends;
    assert s'.threads == s.threads[t := s'.threads[t]];
    hide Step;
  }

  lemma {:induction false} RunInv(cfg: Config, run: seq<State>, i: nat)
    requires IsRun(cfg, run) && i < |run|
    ensures Inv(cfg, run[i])
  {
    if i == 0 {
      InitInv(cfg, run[0]);
    } else {
      RunInv(cfg, run, i - 1);
      assert Next(cfg, run[i - 1], run[i - 1 + 1]);
      var t: nat :| Step(cfg, run[i - 1], t, run[i]);
      StepKeepsInv(cfg, run[i - 1], t, run[i]);
    }
  }

  // ---------------------------------------------------------------------------------------
  // Ids
  // ---------------------------------------------------------------------------------------

  /** The 32-bit number a lookup returns. */
  ghost function Id(cfg: Config, tables: seq<Table>, a: Answer): nat
    requires a.t < |tables|
  {
    CellId(cfg, tables, a.t, a.r, a.c)
  }

  /** The numbers handed out so far fit in 32 bits. */
  ghost predicate Fits(cfg: Config, h: Heap) {
    h.baseIndex + Capacity(cfg) <= U32
  }

  lemma NextExtends(cfg: Config, s: State, s': State)
    requires Inv(cfg, s) && Next(cfg, s, s')
    ensures Extends(s.heap.tables, s'.heap.tables) && s.answers <= s'.answers
  {
    var t: nat :| Step(cfg, s, t, s');
    StepKeepsInv(cfg, s, t, s');
    hide Inv, Extends;
  }

  lemma RunStep(cfg: Config, run: seq<State>, i: nat)
    requires IsRun(cfg, run) && i < |run| - 1
    ensures Next(cfg, run[i], run[i + 1])
  {
  }

  lemma {:induction false} RunExtends(cfg: Config, run: seq<State>, i: nat, j: nat)
    requires IsRun(cfg, run) && i <= j < |run|
    ensures Extends(run[i].heap.tables, run[j].heap.tables) && run[i].answers <= run[j].answers
    decreases j
  {
    hide Inv, IsRun, Next, Extends;
    if i == j {
      ExtendsSame(run[i].heap.tables);
    } else {
      RunExtends(cfg, run, i, j - 1);
      RunInv(cfg, run, j - 1);
      RunStep(cfg, run, j - 1);
      NextExtends(cfg, run[j - 1], run[j]);
      ExtendsTrans(run[i].heap.tables, run[j - 1].heap.tables, run[j].heap.tables);
    }
  }

  /** Over all interleavings and at all times: two lookups return the same id exactly when they
      looked up the same key, and an id is never 0, as long as ids fit in 32 bits. */
  lemma OneKeyOneId(cfg: Config, run: seq<State>, i: nat, x: nat, j: nat, y: nat)
    requires IsRun(cfg, run) && i <= j < |run| && x < |run[i].answers| && y < |run[j].answers|
    requires Fits(cfg, run[j].heap)
    ensures AnswerHolds(run[i].heap.tables, run[i].answers[x]) && AnswerHolds(run[j].heap.tables, run[j].answers[y])
    ensures var a, b := run[i].answers[x], run[j].answers[y];
            && (Id(cfg, run[i].heap.tables, a) == Id(cfg, run[j].heap.tables, b) <==> a.key == b.key)
            && Id(cfg, run[j].heap.tables, b) != 0
  {
    var a, b, h := run[i].answers[x], run[j].answers[y], run[j].heap;
    RunInv(cfg, run, i);
    RunInv(cfg, run, j);
    RunExtends(cfg, run, i, j);
    assert AnswerHolds(run[i].heap.tables, a) && AnswerHolds(h.tables, b);
    IdKept(cfg, run[i].heap.tables, h.tables, a);
    hide Inv, IsRun;
    SameHeap(cfg, h, a, b);
  }

  lemma SameHeap(cfg: Config, h: Heap, a: Answer, b: Answer)
    requires Sensible(cfg) && TreeInv(cfg, h) && Fits(cfg, h) && AnswerHolds(h.tables, a) && AnswerHolds(h.tables, b)
    ensures Id(cfg, h.tables, a) == Id(cfg, h.tables, b) <==> a.key == b.key
    ensures Id(cfg, h.tables, b) != 0
  {
    CellIdsDiffer(cfg, h, a.t, a.r, a.c, b.t, b.r, b.c);
    CellIdsDiffer(cfg, h, b.t, b.r, b.c, b.t, b.r, b.c);
    if a.key == b.key {
      KeyStoredOnce(cfg, h.tables, a.key, a.t, a.r, a.c, b.t, b.r, b.c);
    }
  }

  lemma IdKept(cfg: Config, tables: seq<Table>, tables': seq<Table>, a: Answer)
    requires Extends(tables, tables') && AnswerHolds(tables, a)
    ensures AnswerHolds(tables', a) && Id(cfg, tables', a) == Id(cfg, tables, a)
  {
    HasKeyKept(tables, tables', a.t, a.r, a.c, a.key);
    ExtendsAt(tables, tables', a.t, a.r);
  }

  /** An id once returned stands for the same key in every later state. */
  lemma IdKeepsMeaning(cfg: Config, run: seq<State>, i: nat, x: nat, j: nat)
    requires IsRun(cfg, run) && i <= j < |run| && x < |run[i].answers|
    ensures var a := run[i].answers[x];
            && x < |run[j].answers| && run[j].answers[x] == a
            && AnswerHolds(run[i].heap.tables, a) && AnswerHolds(run[j].heap.tables, a)
            && Id(cfg, run[j].heap.tables, a) == Id(cfg, run[i].heap.tables, a)
  {
    RunInv(cfg, run, i);
    RunExtends(cfg, run, i, j);
    assert AnswerHolds(run[i].heap.tables, run[i].answers[x]);
    IdKept(cfg, run[i].heap.tables, run[j].heap.tables, run[i].answers[x]);
  }

  // ---------------------------------------------------------------------------------------
  // Discarded tables, the size, progress
  // ---------------------------------------------------------------------------------------

  predicate Visits(pc: Pc, t: nat) {
    !pc.Idle? && pc.t == t
  }

  /** No thread ever touches a freed table, and no key is ever stored in one. */
  lemma DiscardedTablesAreUnseen(cfg: Config, run: seq<State>, i: nat, m: nat)
    requires IsRun(cfg, run) && i < |run| && m in run[i].heap.freed
    ensures forall p :: 0 <= p < |run[i].threads| ==> !Visits(run[i].threads[p], m) && !Owns(run[i].threads, p, m)
    ensures forall r, c, key :: !HasKey(run[i].heap.tables, m, r, c, key)
    ensures !Linked(run[i].heap.tables, m)
  {
    RunInv(cfg, run, i);
    var s := run[i];
    forall p | 0 <= p < |s.threads| ensures !Visits(s.threads[p], m) && !Owns(s.threads, p, m) {
      assert ThreadInv(cfg, s.heap.tables, s.threads[p]);
      if !s.threads[p].Idle? {
        VisitedIsAlive(cfg, s.heap, s.threads[p]);
      }
    }
    forall r, c, key ensures !HasKey(s.heap.tables, m, r, c, key) {
      if HasKey(s.heap.tables, m, r, c, key) {
        FreedHoldsNothing(cfg, s.heap, m, r, c, key);
      }
    }
  }

  lemma VisitedIsAlive(cfg: Config, h: Heap, pc: Pc)
    requires Sensible(cfg) && TreeInv(cfg, h) && LinksInv(h) && ThreadInv(cfg, h.tables, pc) && !pc.Idle?
    ensures pc.t !in h.freed
  {
    if pc.CountKey? {
      FreedHoldsNothing(cfg, h, pc.t, pc.r, pc.c, pc.key);
    } else {
      ReachedIsAlive(cfg, h, pc.key, pc.level);
    }
  }

  /** When no lookup is in progress, `_size` is the number of keys, and every table ever made is
      either linked, in one place, or freed. */
  lemma AtRest(cfg: Config, run: seq<State>, i: nat)
    requires IsRun(cfg, run) && i < |run| && forall p :: 0 <= p < |run[i].threads| ==> run[i].threads[p].Idle?
    ensures var h := run[i].heap;
            && h.size == |Filled(h.tables)| == |KeysOf(h.tables, Filled(h.tables))|
            && forall m: nat :: 0 < m < |h.tables| ==> (Linked(h.tables, m) <==> m !in h.freed)
  {
    RunInv(cfg, run, i);
    var h := run[i].heap;
    TotalZero(Counting, run[i].threads);
    KeysCount(cfg, h.tables, Filled(h.tables));
    forall m: nat | 0 < m < |h.tables| ensures Linked(h.tables, m) <==> m !in h.freed {
      assert FateKnown(h, run[i].threads, m);
      if Linked(h.tables, m) {
        var u: nat, r: nat :| LinkAt(h.tables, u, r, m);
      }
    }
  }

  /** A lookup never blocks: whatever the other threads do, its next instruction is enabled. */
  lemma EveryThreadCanStep(cfg: Config, run: seq<State>, i: nat, p: nat)
    requires IsRun(cfg, run) && i < |run| && p < |run[i].threads| && !run[i].threads[p].Idle?
    ensures exists s' :: Step(cfg, run[i], p, s')
  {
    RunInv(cfg, run, i);
    var s := run[i];
    var pc := s.threads[p];
    assert ThreadInv(cfg, s.heap.tables, pc);
    hide Inv, IsRun;
    if pc.CountKey? {
      var a := Answer(pc.key, pc.t, pc.r, pc.c);
      var s' := State(s.heap.(size := s.heap.size + 1), s.threads[p := Idle], s.answers + [a]);
      assert Step(cfg, s, p, s');
    } else {
      RunInv(cfg, run, i);
      WalkerCanStep(cfg, s, p);
    }
  }

  ghost function After(s: State, p: nat, h: Heap, pc: Pc): State
    requires p < |s.threads|
  {
    s.(heap := h, threads := s.threads[p := pc])
  }

  lemma WalkerCanStep(cfg: Config, s: State, p: nat)
    requires Sensible(cfg) && TreeInv(cfg, s.heap) && p < |s.threads| && ThreadInv(cfg, s.heap.tables, s.threads[p])
    requires !s.threads[p].Idle? && !s.threads[p].CountKey?
    ensures exists s' :: Step(cfg, s, p, s')
  {
    var pc, h := s.threads[p], s.heap;
    ShapeAt(cfg, h.tables, pc.t, RowAt(cfg, pc.key, pc.level));
    var r := RowAt(cfg, pc.key, pc.level);
    var row := h.tables[pc.t].rows[r];
    hide TreeInv, ThreadInv, Rows, Capacity;
    match pc {
      case AtCell(key, insert, level, t, c) =>
        assert Step(cfg, s, p, After(s, p, h, if insert && row.cells[c].Empty? then CasCell(key, level, t, c)
                                            else Compare(key, insert, level, t, c)));
      case CasCell(key, level, t, c) =>
        if row.cells[c].Empty? {
          assert Step(cfg, s, p, After(s, p, h.(tables := Claim(h.tables, t, r, c, key)), CountKey(key, t, r, c)));
        } else {
          assert Step(cfg, s, p, After(s, p, h, Compare(key, true, level, t, c)));
        }
      case Compare(key, insert, level, t, c) =>
        if row.cells[c].Holds? && KeyEquals(row.cells[c].key, key) {
          assert Step(cfg, s, p, State(h, s.threads[p := Idle], s.answers + [Answer(key, t, r, c)]));
        } else {
          assert Step(cfg, s, p, After(s, p, h, AfterCell(cfg, key, insert, level, t, c)));
        }
      case AtNext(key, insert, level, t) =>
        assert Step(cfg, s, p, After(s, p, h, if row.next.To? then Follow(key, insert, level, t)
                                            else if insert then MakeTable(key, level, t) else Idle));
      case MakeTable(key, level, t) =>
        var base := h.baseIndex + Capacity(cfg);
        assert Step(cfg, s, p, After(s, p, h.(tables := h.tables + [EmptyTable(cfg, base)], baseIndex := base),
                                   CasNext(key, level, t, |h.tables|)));
      case CasNext(key, level, t, made) =>
        var h' := if row.next.Null? then h.(tables := SetNext(h.tables, t, r, made)) else h.(freed := h.freed + {made});
        assert Step(cfg, s, p, After(s, p, h', Follow(key, true, level, t)));
      case Follow(key, insert, level, t) =>
        assert Step(cfg, s, p, After(s, p, h, AtCell(key, insert, level + 1, row.next.table, 0)));
    }
  }
}
