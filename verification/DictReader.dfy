/** A lookup that starts after another lookup of the same key has returned: whether it inserts or not,
    and whatever other threads do meanwhile, it never returns the sentinel but the same cell. */
module DictReader {
  import opened DictTree
  import opened DictRace
  import opened DictMap
  import opened DictTheorems

  /** The key is stored in this cell, which its walk meets at this level. */
  ghost predicate Found(cfg: Config, tables: seq<Table>, a: Answer, level: nat)
    requires Sensible(cfg)
  {
    IsKey(a.key) && HasKey(tables, a.t, a.r, a.c, a.key) && a.c < cfg.cells
    && OnWalk(cfg, tables, a.key, level, a.t, a.r, a.c)
  }

  lemma FoundKept(cfg: Config, tables: seq<Table>, tables': seq<Table>, a: Answer, level: nat)
    requires Sensible(cfg) && Found(cfg, tables, a, level) && Extends(tables, tables')
    ensures Found(cfg, tables', a, level)
  {
    HasKeyKept(tables, tables', a.t, a.r, a.c, a.key);
    OnWalkKept(cfg, tables, tables', a.key, level, a.t, a.r, a.c);
  }

  /** A lookup of the key that, unless it inserts, has not gone past the cell. */
  predicate Ahead(pc: Pc, a: Answer, level: nat) {
    && !pc.Idle? && pc.key == a.key
    && match pc
       case AtCell(_, insert, l, _, c) => insert || l < level || (l == level && c <= a.c)
       case Compare(_, insert, l, _, c) => insert || l < level || (l == level && c <= a.c)
       case AtNext(_, insert, l, _) => insert || l < level
       case Follow(_, insert, l, _) => insert || l < level
       case _ => true
  }

  /** A reader at the cell sees that it holds the key. */
  lemma MeetsKey(cfg: Config, h: Heap, pc: Pc, a: Answer, level: nat)
    requires TreeInv(cfg, h) && ThreadInv(cfg, h.tables, pc) && Found(cfg, h.tables, a, level)
    requires pc.Compare? && pc.key == a.key && pc.level == level && pc.c == a.c
    ensures AtRow(cfg, h, pc.key, pc.level, pc.t) && pc.c < cfg.cells
    ensures RowOf(cfg, h, pc.key, pc.level, pc.t).cells[pc.c] == Holds(pc.key) && KeyEquals(pc.key, pc.key)
  {
    ReachedRow(cfg, h, pc.key, pc.insert, pc.level, pc.t, pc.c);
    KeyEqualsIsEquality(pc.key, pc.key);
    hide KeyEquals, Passed, Shaped, WalkInv, BasesInv;
  }

  /** A reader above the level of the cell finds its row linked. */
  lemma MeetsLink(cfg: Config, h: Heap, pc: Pc, a: Answer, level: nat)
    requires TreeInv(cfg, h) && ThreadInv(cfg, h.tables, pc) && Found(cfg, h.tables, a, level)
    requires pc.AtNext? && pc.key == a.key && pc.level < level
    ensures AtRow(cfg, h, pc.key, pc.level, pc.t)
    ensures RowOf(cfg, h, pc.key, pc.level, pc.t).next.To?
  {
    ReachedRow(cfg, h, pc.key, pc.insert, pc.level, pc.t, cfg.cells);
    WalkIsConnected(cfg, h.tables, pc.key, pc.level + 1, level);
    hide Passed, Shaped, WalkInv, BasesInv;
  }

  /** A step of the reader leaves it ahead or returns. */
  lemma OwnStep(cfg: Config, h: Heap, pc: Pc, h': Heap, pc': Pc, a: Answer, level: nat)
    requires TreeInv(cfg, h) && ThreadInv(cfg, h.tables, pc) && Found(cfg, h.tables, a, level)
    requires Ahead(pc, a, level) && (CellStep(cfg, h, pc, h', pc') || LevelStep(cfg, h, pc, h', pc'))
    ensures Ahead(pc', a, level)
  {
    if pc.Compare? && !pc.insert && pc.level == level && pc.c == a.c {
      MeetsKey(cfg, h, pc, a, level);
    }
    if pc.AtNext? && !pc.insert {
      MeetsLink(cfg, h, pc, a, level);
    }
    hide KeyEquals, TreeInv, ThreadInv, OnWalk, AtRow, Capacity, IsKey;
  }

  /** It returns only by an answer, and the answer is the cell. */
  lemma OwnAnswer(cfg: Config, s: State, p: nat, s': State, a: Answer, level: nat)
    requires Inv(cfg, s) && Step(cfg, s, p, s') && Found(cfg, s.heap.tables, a, level)
    requires Ahead(s.threads[p], a, level)
    ensures Ahead(s'.threads[p], a, level) || (s'.threads[p].Idle? && s'.answers == s.answers + [a])
  {
    StepKeepsInv(cfg, s, p, s');
    FoundKept(cfg, s.heap.tables, s'.heap.tables, a, level);
    assert ThreadInv(cfg, s.heap.tables, s.threads[p]);
    var pc, pc' := s.threads[p], s'.threads[p];
    if CellStep(cfg, s.heap, pc, s'.heap, pc') || LevelStep(cfg, s.heap, pc, s'.heap, pc') {
      OwnStep(cfg, s.heap, pc, s'.heap, pc', a, level);
    } else {
      var b := s'.answers[|s.answers|];
      assert AnswerHolds(s'.heap.tables, b);
      hide TreeInv, ThreadsInv, CellStep, LevelStep, KeyEquals, OnWalk, AtRow, WalkInv;
      assert b.key == a.key;
      SameCell(cfg, s'.heap, a, b);
    }
  }

  lemma SameCell(cfg: Config, h: Heap, a: Answer, b: Answer)
    requires TreeInv(cfg, h) && Sensible(cfg) && AnswerHolds(h.tables, a) && AnswerHolds(h.tables, b) && a.key == b.key
    ensures a == b
  {
    KeyStoredOnce(cfg, h.tables, a.key, a.t, a.r, a.c, b.t, b.r, b.c);
  }

  lemma RunFound(cfg: Config, run: seq<State>, i: nat, x: nat) returns (level: nat)
    requires IsRun(cfg, run) && i < |run| && x < |run[i].answers|
    ensures Sensible(cfg) && forall j :: i <= j < |run| ==> Found(cfg, run[j].heap.tables, run[i].answers[x], level)
  {
    RunInv(cfg, run, i);
    var a, tables := run[i].answers[x], run[i].heap.tables;
    assert AnswerHolds(tables, a);
    assert KeyPlaced(cfg, tables, a.key, a.t, a.r, a.c);
    level :| OnWalk(cfg, tables, a.key, level, a.t, a.r, a.c);
    assert Found(cfg, tables, a, level);
    hide Inv, OnWalk, Found;
    forall j | i <= j < |run| ensures Found(cfg, run[j].heap.tables, a, level) {
      RunExtends(cfg, run, i, j);
      FoundKept(cfg, tables, run[j].heap.tables, a, level);
    }
  }

  /** Thread `p` is in one lookup of the key from state `j` to state `k`. */
  ghost predicate Reading(run: seq<State>, j: nat, k: nat, p: nat, key: Key) {
    && j <= k < |run| && (forall m :: j <= m <= k ==> p < |run[m].threads| && !run[m].threads[p].Idle?)
    && exists insert :: run[j].threads[p] == AtCell(key, insert, 0, 0, 0)
  }

  lemma {:induction false} StaysAhead(cfg: Config, run: seq<State>, i: nat, x: nat, level: nat, j: nat, k: nat, p: nat)
    requires IsRun(cfg, run) && i <= j < |run| && x < |run[i].answers| && Sensible(cfg)
    requires Reading(run, j, k, p, run[i].answers[x].key)
    requires forall m :: i <= m < |run| ==> Found(cfg, run[m].heap.tables, run[i].answers[x], level)
    ensures Ahead(run[k].threads[p], run[i].answers[x], level)
    decreases k
  {
    hide Found, Inv, Ahead, IsRun, Next, Step;
    var a := run[i].answers[x];
    if k == j {
      AheadAtStart(run[k].threads[p], a, level);
    } else {
      StaysAhead(cfg, run, i, x, level, j, k - 1, p);
      var q := Mover(cfg, run, k - 1);
      if q == p {
        OwnAnswer(cfg, run[k - 1], p, run[k], a, level);
      } else {
        OthersStay(cfg, run[k - 1], q, run[k], p);
      }
    }
  }

  lemma AheadAtStart(pc: Pc, a: Answer, level: nat)
    requires exists insert :: pc == AtCell(a.key, insert, 0, 0, 0)
    ensures Ahead(pc, a, level)
  {
  }

  lemma Mover(cfg: Config, run: seq<State>, i: nat) returns (q: nat)
    requires IsRun(cfg, run) && i < |run| - 1
    ensures Step(cfg, run[i], q, run[i + 1]) && Inv(cfg, run[i])
  {
    RunInv(cfg, run, i);
    RunStep(cfg, run, i);
    q :| Step(cfg, run[i], q, run[i + 1]);
  }

  lemma OthersStay(cfg: Config, s: State, q: nat, s': State, p: nat)
    requires Step(cfg, s, q, s') && p != q && p < |s.threads|
    ensures p < |s'.threads| && s'.threads[p] == s.threads[p]
  {
  }

  /** In every run: once a lookup of a key has returned an id, each lookup of that key that starts later,
      inserting or not, leaves only by answering with the same cell. It never returns the sentinel. */
  lemma AnsweredKeyIsFound(cfg: Config, run: seq<State>, i: nat, x: nat, j: nat, k: nat, p: nat)
    requires IsRun(cfg, run) && i <= j <= k < |run| - 1 && x < |run[i].answers|
    requires Reading(run, j, k, p, run[i].answers[x].key)
    ensures p < |run[k + 1].threads|
    ensures run[k + 1].threads[p].Idle? ==> run[k + 1].answers == run[k].answers + [run[i].answers[x]]
  {
    var level := RunFound(cfg, run, i, x);
    StaysAhead(cfg, run, i, x, level, j, k, p);
    var q := Mover(cfg, run, k);
    if q == p {
      OwnAnswer(cfg, run[k], p, run[k + 1], run[i].answers[x], level);
      hide Inv, Found, IsRun, Next;
    } else {
      hide Inv, Found, IsRun, Next, Ahead;
      OthersStay(cfg, run[k], q, run[k + 1], p);
    }
  }

  // ---------------------------------------------------------------------------------------
  // What a lookup returns
  // ---------------------------------------------------------------------------------------

  /** Thread `p` is in one lookup of the key, inserting or not, from state `j` to state `k`. */
  ghost predicate Looking(run: seq<State>, j: nat, k: nat, p: nat, key: Key, insert: bool) {
    && j <= k < |run| && (forall m :: j <= m <= k ==> p < |run[m].threads| && !run[m].threads[p].Idle?)
    && run[j].threads[p] == AtCell(key, insert, 0, 0, 0)
  }

  /** The thread looks up this key, with this intention. */
  predicate LooksUp(pc: Pc, key: Key, insert: bool) {
    && !pc.Idle? && pc.key == key
    && match pc
       case AtCell(_, i, _, _, _) => i == insert
       case Compare(_, i, _, _, _) => i == insert
       case AtNext(_, i, _, _) => i == insert
       case Follow(_, i, _, _) => i == insert
       case _ => insert
  }

  lemma {:induction false} KeepsLooking(cfg: Config, run: seq<State>, j: nat, k: nat, p: nat, key: Key, insert: bool)
    requires IsRun(cfg, run) && Looking(run, j, k, p, key, insert)
    ensures LooksUp(run[k].threads[p], key, insert)
    decreases k
  {
    hide Inv, IsRun, Next, Step, LooksUp;
    if k == j {
      LooksAtFirst(run[k].threads[p], key, insert);
    } else {
      KeepsLooking(cfg, run, j, k - 1, p, key, insert);
      var q := Mover(cfg, run, k - 1);
      if q != p {
        OthersStay(cfg, run[k - 1], q, run[k], p);
      } else {
        StepKeepsLooking(cfg, run[k - 1], p, run[k], key, insert);
      }
    }
  }

  lemma LooksAtFirst(pc: Pc, key: Key, insert: bool)
    requires pc == AtCell(key, insert, 0, 0, 0)
    ensures LooksUp(pc, key, insert)
  {
  }

  lemma StepKeepsLooking(cfg: Config, s: State, p: nat, s': State, key: Key, insert: bool)
    requires Step(cfg, s, p, s') && LooksUp(s.threads[p], key, insert) && !s'.threads[p].Idle?
    ensures LooksUp(s'.threads[p], key, insert)
  {
    hide KeyEquals, AtRow, Capacity, IsKey;
  }

  /** An inserting lookup always returns the number of a cell that holds its key. */
  lemma InsertingAnswers(cfg: Config, run: seq<State>, j: nat, k: nat, p: nat, key: Key)
    requires IsRun(cfg, run) && Looking(run, j, k, p, key, true) && k + 1 < |run|
    requires p < |run[k + 1].threads| && run[k + 1].threads[p].Idle?
    ensures |run[k + 1].answers| == |run[k].answers| + 1
    ensures var a := run[k + 1].answers[|run[k].answers|];
            run[k + 1].answers == run[k].answers + [a] && a.key == key && AnswerHolds(run[k + 1].heap.tables, a)
  {
    hide Inv, IsRun, Next, Step, LooksUp;
    KeepsLooking(cfg, run, j, k, p, key, true);
    var q := Mover(cfg, run, k);
    RunInv(cfg, run, k + 1);
    MoverIs(cfg, run[k], q, run[k + 1], p);
    LastAnswer(cfg, run[k], p, run[k + 1], key);
  }

  lemma MoverIs(cfg: Config, s: State, q: nat, s': State, p: nat)
    requires Step(cfg, s, q, s') && p < |s.threads| && p < |s'.threads| && s'.threads[p] != s.threads[p]
    ensures q == p
  {
  }

  lemma LastAnswer(cfg: Config, s: State, p: nat, s': State, key: Key)
    requires Step(cfg, s, p, s') && LooksUp(s.threads[p], key, true) && s'.threads[p].Idle? && Inv(cfg, s')
    ensures |s'.answers| == |s.answers| + 1
    ensures var a := s'.answers[|s.answers|];
            s'.answers == s.answers + [a] && a.key == key && AnswerHolds(s'.heap.tables, a)
  {
    hide TreeInv, ThreadsInv, AtRow, Capacity;
  }

  /** A lookup that does not insert changes nothing at any step; it returns the sentinel, that is nothing,
      exactly when it is at the end of a row without a link, and else the number of a cell that holds its
      key. */
  lemma ReadingAnswers(cfg: Config, run: seq<State>, j: nat, k: nat, p: nat, key: Key)
    requires IsRun(cfg, run) && Looking(run, j, k, p, key, false) && k + 1 < |run|
    requires Step(cfg, run[k], p, run[k + 1])
    ensures run[k + 1].heap == run[k].heap
    ensures run[k + 1].threads[p].Idle? ==>
              var pc := run[k].threads[p];
              if AtLastRow(cfg, run[k].heap, pc) then run[k + 1].answers == run[k].answers
              else
                && |run[k + 1].answers| == |run[k].answers| + 1
                && var a := run[k + 1].answers[|run[k].answers|];
                   run[k + 1].answers == run[k].answers + [a] && a.key == key
                   && AnswerHolds(run[k + 1].heap.tables, a)
    ensures AtLastRow(cfg, run[k].heap, run[k].threads[p]) ==> run[k + 1].threads[p].Idle?
  {
    hide Inv, IsRun, Next, Step, LooksUp;
    KeepsLooking(cfg, run, j, k, p, key, false);
    RunInv(cfg, run, k + 1);
    ReadingStep(cfg, run[k], p, run[k + 1], key);
  }

  lemma ReadingStep(cfg: Config, s: State, p: nat, s': State, key: Key)
    requires Step(cfg, s, p, s') && LooksUp(s.threads[p], key, false) && Inv(cfg, s')
    ensures s'.heap == s.heap
    ensures s'.threads[p].Idle? ==>
              if AtLastRow(cfg, s.heap, s.threads[p]) then s'.answers == s.answers
              else
                && |s'.answers| == |s.answers| + 1
                && var a := s'.answers[|s.answers|];
                   s'.answers == s.answers + [a] && a.key == key && AnswerHolds(s'.heap.tables, a)
    ensures AtLastRow(cfg, s.heap, s.threads[p]) ==> s'.threads[p].Idle?
  {
    hide TreeInv, ThreadsInv, Capacity;
  }

  /** The thread has compared all cells of the row its key has in the table it is at, and the row has no
      link. */
  ghost predicate AtLastRow(cfg: Config, h: Heap, pc: Pc) {
    && pc.AtNext? && pc.t < |h.tables| && Sensible(cfg)
    && RowAt(cfg, pc.key, pc.level) < |h.tables[pc.t].rows|
    && h.tables[pc.t].rows[RowAt(cfg, pc.key, pc.level)].next.Null?
  }
}
