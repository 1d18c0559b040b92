/** Concurrent lookups in the dictionary of dictionary.cpp: any number of threads look keys up,
    inserting or not, one atomic load, compare-and-swap or fetch-and-add at a time. Tables are
    named by the order of their allocation. */
module DictRace {
  import opened Bits
  import opened DictTree

  /** Where a thread is inside lookup(key, length, for_insert, sentinel), for its current table
      and level. The rotated hash is determined by the key and the level. */
  datatype Pc =
    | Idle
    | AtCell(key: Key, insert: bool, level: nat, t: nat, c: nat)    // test the cell for null
    | CasCell(key: Key, level: nat, t: nat, c: nat)                 // it was null: claim it
    | Compare(key: Key, insert: bool, level: nat, t: nat, c: nat)   // compare the stored key
    | CountKey(key: Key, t: nat, r: nat, c: nat)                    // claimed: increment _size
    | AtNext(key: Key, insert: bool, level: nat, t: nat)            // test row->next for null
    | MakeTable(key: Key, level: nat, t: nat)
    | CasNext(key: Key, level: nat, t: nat, made: nat)
    | Follow(key: Key, insert: bool, level: nat, t: nat)            // table = row->next

  /** A lookup that returned the number of a cell. */
  datatype Answer = Answer(key: Key, t: nat, r: nat, c: nat)

  datatype Heap = Heap(tables: seq<Table>, baseIndex: nat, size: nat, freed: set<nat>)

  datatype State = State(heap: Heap, threads: seq<Pc>, answers: seq<Answer>)

  ghost predicate Init(cfg: Config, s: State) {
    && Sensible(cfg)
    && s.heap == Heap([EmptyTable(cfg, 1)], 1, 0, {})
    && (forall t :: 0 <= t < |s.threads| ==> s.threads[t].Idle?)
    && s.answers == []
  }

  /** The row a thread is at exists. */
  ghost predicate AtRow(cfg: Config, h: Heap, key: Key, level: nat, t: nat) {
    Sensible(cfg) && t < |h.tables| && |h.tables[t].rows| == Rows(cfg)
    && ShapedRow(cfg, h.tables[t].rows[RowAt(cfg, key, level)], |h.tables|)
  }

  ghost function RowOf(cfg: Config, h: Heap, key: Key, level: nat, t: nat): Row
    requires AtRow(cfg, h, key, level, t)
  {
    h.tables[t].rows[RowAt(cfg, key, level)]
  }

  function AfterCell(cfg: Config, key: Key, insert: bool, level: nat, t: nat, c: nat): Pc {
    if c + 1 < cfg.cells then AtCell(key, insert, level, t, c + 1) else AtNext(key, insert, level, t)
  }

  /** Instructions of a thread inside a table, except those that return an answer. */
  ghost predicate CellStep(cfg: Config, h: Heap, pc: Pc, h': Heap, pc': Pc) {
    match pc
    case AtCell(key, insert, level, t, c) =>
      && AtRow(cfg, h, key, level, t) && c < cfg.cells && h' == h
      && pc' == if insert && RowOf(cfg, h, key, level, t).cells[c].Empty? then CasCell(key, level, t, c)
                else Compare(key, insert, level, t, c)
    case CasCell(key, level, t, c) =>
      && AtRow(cfg, h, key, level, t) && c < cfg.cells
      && var r := RowAt(cfg, key, level);
         if h.tables[t].rows[r].cells[c].Empty?
         then h' == h.(tables := Claim(h.tables, t, r, c, key)) && pc' == CountKey(key, t, r, c)
         else h' == h && pc' == Compare(key, true, level, t, c)
    case Compare(key, insert, level, t, c) =>
      && AtRow(cfg, h, key, level, t) && c < cfg.cells && h' == h
      && var cell := RowOf(cfg, h, key, level, t).cells[c];
         !(cell.Holds? && KeyEquals(cell.key, key)) && pc' == AfterCell(cfg, key, insert, level, t, c)
    case _ => false
  }

  /** Instructions that move a thread to the next level. */
  ghost predicate LevelStep(cfg: Config, h: Heap, pc: Pc, h': Heap, pc': Pc) {
    match pc
    case AtNext(key, insert, level, t) =>
      && AtRow(cfg, h, key, level, t) && h' == h
      && pc' == if RowOf(cfg, h, key, level, t).next.To? then Follow(key, insert, level, t)
                else if insert then MakeTable(key, level, t)
                else Idle                                              // returns the sentinel
    case MakeTable(key, level, t) =>
      && h' == h.(tables := h.tables + [EmptyTable(cfg, h.baseIndex + Capacity(cfg))],
                  baseIndex := h.baseIndex + Capacity(cfg))
      && pc' == CasNext(key, level, t, |h.tables|)
    case CasNext(key, level, t, made) =>
      && AtRow(cfg, h, key, level, t)
      && pc' == Follow(key, true, level, t)
      && h' == if RowOf(cfg, h, key, level, t).next.Null?
               then h.(tables := SetNext(h.tables, t, RowAt(cfg, key, level), made))
               else h.(freed := h.freed + {made})
    case Follow(key, insert, level, t) =>
      && AtRow(cfg, h, key, level, t) && h' == h
      && var next := RowOf(cfg, h, key, level, t).next;
         next.To? && pc' == AtCell(key, insert, level + 1, next.table, 0)
    case _ => false
  }

  /** Instructions that return the number of a cell. */
  ghost predicate AnswerStep(cfg: Config, h: Heap, pc: Pc, h': Heap, a: Answer) {
    match pc
    case Compare(key, insert, level, t, c) =>
      && AtRow(cfg, h, key, level, t) && c < cfg.cells && h' == h
      && var cell := RowOf(cfg, h, key, level, t).cells[c];
         cell.Holds? && KeyEquals(cell.key, key) && a == Answer(key, t, RowAt(cfg, key, level), c)
    case CountKey(key, t, r, c) => h' == h.(size := h.size + 1) && a == Answer(key, t, r, c)
    case _ => false
  }

  ghost predicate StartStep(pc: Pc, pc': Pc) {
    pc.Idle? && pc'.AtCell? && pc' == AtCell(pc'.key, pc'.insert, 0, 0, 0) && IsKey(pc'.key)
  }

  ghost predicate Step(cfg: Config, s: State, t: nat, s': State) {
    && t < |s.threads| == |s'.threads| && s'.threads == s.threads[t := s'.threads[t]]
    && var pc, pc' := s.threads[t], s'.threads[t];
       || (s'.answers == s.answers && StartStep(pc, pc') && s'.heap == s.heap)
       || (s'.answers == s.answers && (CellStep(cfg, s.heap, pc, s'.heap, pc') || LevelStep(cfg, s.heap, pc, s'.heap,
           pc')))
       || (|s'.answers| == |s.answers| + 1 && s'.answers == s.answers + [s'.answers[|s.answers|]]
           && pc' == Idle && AnswerStep(cfg, s.heap, pc, s'.heap, s'.answers[|s.answers|]))
  }

  ghost predicate Next(cfg: Config, s: State, s': State) {
    exists t :: Step(cfg, s, t, s')
  }

  ghost predicate IsRun(cfg: Config, run: seq<State>) {
    && |run| > 0
    && Init(cfg, run[0])
    && forall i :: 0 <= i < |run| - 1 ==> Next(cfg, run[i], run[i + 1])
  }

  // ---------------------------------------------------------------------------------------
  // The invariant
  // ---------------------------------------------------------------------------------------

  ghost predicate TreeInv(cfg: Config, h: Heap) {
    && Shaped(cfg, h.tables) && WalkInv(cfg, h.tables) && BasesInv(cfg, h.tables)
    && h.baseIndex == 1 + Times(Capacity(cfg), |h.tables| - 1)
  }

  /** A thread has reached its table by its key's walk; an inserting thread has met only other
      keys on the way. */
  ghost predicate Reached(cfg: Config, tables: seq<Table>, key: Key, insert: bool, level: nat, t: nat, c: nat)
    requires Sensible(cfg)
  {
    && IsKey(key) && t < |tables| && TableAt(cfg, tables, key, level) == To(t)
    && (insert ==> Passed(cfg, tables, key, level, c))
  }

  ghost predicate CellFull(cfg: Config, tables: seq<Table>, key: Key, level: nat, t: nat, c: nat)
    requires Sensible(cfg)
  {
    var r := RowAt(cfg, key, level);
    t < |tables| && r < |tables[t].rows| && c < |tables[t].rows[r].cells| && tables[t].rows[r].cells[c].Holds?
  }

  ghost predicate NextSet(cfg: Config, tables: seq<Table>, key: Key, level: nat, t: nat)
    requires Sensible(cfg)
  {
    var r := RowAt(cfg, key, level);
    t < |tables| && r < |tables[t].rows| && tables[t].rows[r].next.To?
  }

  ghost predicate ThreadInv(cfg: Config, tables: seq<Table>, pc: Pc)
    requires Sensible(cfg)
  {
    match pc
    case Idle => true
    case AtCell(key, insert, level, t, c) => Reached(cfg, tables, key, insert, level, t, c) && c < cfg.cells
    case CasCell(key, level, t, c) => Reached(cfg, tables, key, true, level, t, c) && c < cfg.cells
    case Compare(key, insert, level, t, c) =>
      && Reached(cfg, tables, key, insert, level, t, c) && c < cfg.cells
      && (insert ==> CellFull(cfg, tables, key, level, t, c))
    case CountKey(key, t, r, c) => HasKey(tables, t, r, c, key)
    case AtNext(key, insert, level, t) => Reached(cfg, tables, key, insert, level, t, cfg.cells)
    case MakeTable(key, level, t) => Reached(cfg, tables, key, true, level, t, cfg.cells)
    case CasNext(key, level, t, made) => Reached(cfg, tables, key, true, level, t, cfg.cells) && made < |tables|
    case Follow(key, insert, level, t) =>
      Reached(cfg, tables, key, insert, level, t, cfg.cells) && NextSet(cfg, tables, key, level, t)
  }

  lemma ReachedRow(cfg: Config, h: Heap, key: Key, insert: bool, level: nat, t: nat, c: nat)
    requires TreeInv(cfg, h) && Reached(cfg, h.tables, key, insert, level, t, c)
    ensures AtRow(cfg, h, key, level, t)
  {
    ShapeAt(cfg, h.tables, t, RowAt(cfg, key, level));
  }

  lemma ThreadStable(cfg: Config, tables: seq<Table>, tables': seq<Table>, pc: Pc)
    requires Sensible(cfg) && ThreadInv(cfg, tables, pc) && Extends(tables, tables')
    ensures ThreadInv(cfg, tables', pc)
  {
    match pc {
      case Idle =>
      case CountKey(key, t, r, c) => HasKeyKept(tables, tables', t, r, c, key);
      case AtCell(key, insert, level, t, c) => ReachedKept(cfg, tables, tables', key, insert, level, t, c);
      case CasCell(key, level, t, c) => ReachedKept(cfg, tables, tables', key, true, level, t, c);
      case Compare(key, insert, level, t, c) =>
        ReachedKept(cfg, tables, tables', key, insert, level, t, c);
        if insert {
          ExtendsAt(tables, tables', t, RowAt(cfg, key, level));
        }
      case AtNext(key, insert, level, t) => ReachedKept(cfg, tables, tables', key, insert, level, t, cfg.cells);
      case MakeTable(key, level, t) => ReachedKept(cfg, tables, tables', key, true, level, t, cfg.cells);
      case CasNext(key, level, t, _) => ReachedKept(cfg, tables, tables', key, true, level, t, cfg.cells);
      case Follow(key, insert, level, t) =>
        ReachedKept(cfg, tables, tables', key, insert, level, t, cfg.cells);
        ExtendsAt(tables, tables', t, RowAt(cfg, key, level));
    }
  }

  lemma ReachedKept(cfg: Config, tables: seq<Table>, tables': seq<Table>, key: Key, insert: bool, level: nat, t: nat,
      c: nat)
    requires Sensible(cfg) && Reached(cfg, tables, key, insert, level, t, c) && Extends(tables, tables')
    ensures Reached(cfg, tables', key, insert, level, t, c)
  {
    TableAtKept(cfg, tables, tables', key, level);
    if insert {
      PassedKept(cfg, tables, tables', key, level, c);
    }
  }

  lemma ExtendsSame(tables: seq<Table>)
    ensures Extends(tables, tables)
  {
  }

  /** Having met another key in cell `c`, the thread has passed it. */
  lemma PassCell(cfg: Config, h: Heap, key: Key, level: nat, t: nat, c: nat)
    requires TreeInv(cfg, h) && Reached(cfg, h.tables, key, true, level, t, c) && c < cfg.cells
    requires CellFull(cfg, h.tables, key, level, t, c)
    requires h.tables[t].rows[RowAt(cfg, key, level)].cells[c].key != key
    ensures Passed(cfg, h.tables, key, level, c + 1)
  {
    assert PassedAt(cfg, h.tables, key, level, c);
    forall l: nat, d: nat | d < cfg.cells && (l < level || (l == level && d < c + 1)) ensures PassedAt(cfg, h.tables,
        key, l, d) {
      if !(l == level && d == c) {
        PassedHas(cfg, h.tables, key, level, c, l, d);
      }
    }
  }

  lemma StoredIsKey(cfg: Config, tables: seq<Table>, t: nat, r: nat, c: nat, key: Key)
    requires Sensible(cfg) && WalkInv(cfg, tables) && HasKey(tables, t, r, c, key)
    ensures IsKey(key) && c < cfg.cells
  {
  }

  lemma CellStepKeeps(cfg: Config, h: Heap, pc: Pc, h': Heap, pc': Pc)
    requires TreeInv(cfg, h) && ThreadInv(cfg, h.tables, pc) && CellStep(cfg, h, pc, h', pc')
    ensures TreeInv(cfg, h') && Extends(h.tables, h'.tables) && ThreadInv(cfg, h'.tables, pc')
  {
    ExtendsSame(h.tables);
    hide Shaped, BasesInv, Rows, Capacity;
    match pc {
      case AtCell(key, insert, level, t, c) =>
      case CasCell(key, level, t, c) =>
        var r := RowAt(cfg, key, level);
        if h.tables[t].rows[r].cells[c].Empty? {
          ClaimKeeps(cfg, h.tables, key, level, t, r, c);
          BasesKept(cfg, h.tables, h'.tables);
        }
      case Compare(key, insert, level, t, c) =>
        if insert {
          var stored := h.tables[t].rows[RowAt(cfg, key, level)].cells[c].key;
          StoredIsKey(cfg, h.tables, t, RowAt(cfg, key, level), c, stored);
          KeyEqualsIsEquality(stored, key);
          PassCell(cfg, h, key, level, t, c);
        }
    }
  }

  lemma BasesKept(cfg: Config, tables: seq<Table>, tables': seq<Table>)
    requires BasesInv(cfg, tables) && Extends(tables, tables') && |tables'| == |tables|
    ensures BasesInv(cfg, tables')
  {
    forall t | 0 <= t < |tables'| ensures tables'[t].base == tables[t].base {
      assert ExtendsTable(tables[t], tables'[t]);
    }
  }

  lemma MakeKeeps(cfg: Config, h: Heap)
    requires TreeInv(cfg, h)
    ensures var h' := h.(tables := h.tables + [EmptyTable(cfg, h.baseIndex + Capacity(cfg))],
                         baseIndex := h.baseIndex + Capacity(cfg));
            TreeInv(cfg, h') && Extends(h.tables, h'.tables)
  {
    AppendKeeps(cfg, h.tables, h.baseIndex + Capacity(cfg));
    var n := |h.tables|;
    assert Times(Capacity(cfg), n) == Times(Capacity(cfg), n - 1) + Capacity(cfg);
    hide Shaped, WalkInv, Extends, Capacity;
  }

  lemma LevelStepKeeps(cfg: Config, h: Heap, pc: Pc, h': Heap, pc': Pc)
    requires TreeInv(cfg, h) && ThreadInv(cfg, h.tables, pc) && LevelStep(cfg, h, pc, h', pc')
    ensures TreeInv(cfg, h') && Extends(h.tables, h'.tables) && ThreadInv(cfg, h'.tables, pc')
  {
    ExtendsSame(h.tables);
    match pc {
      case AtNext(key, insert, level, t) =>
      case MakeTable(key, level, t) =>
        MakeKeeps(cfg, h);
        hide TreeInv;
        ReachedKept(cfg, h.tables, h'.tables, key, true, level, t, cfg.cells);
      case CasNext(key, level, t, made) =>
        if RowOf(cfg, h, key, level, t).next.Null? {
          SetNextKeeps(cfg, h.tables, t, RowAt(cfg, key, level), made);
          BasesKept(cfg, h.tables, h'.tables);
        }
        hide Shaped, BasesInv, WalkInv, Rows, Capacity;
        ReachedKept(cfg, h.tables, h'.tables, key, true, level, t, cfg.cells);
      case Follow(key, insert, level, t) =>
        NextLevel(cfg, h, key, insert, level, t);
    }
  }

  lemma NextLevel(cfg: Config, h: Heap, key: Key, insert: bool, level: nat, t: nat)
    requires TreeInv(cfg, h) && Reached(cfg, h.tables, key, insert, level, t, cfg.cells)
    requires NextSet(cfg, h.tables, key, level, t)
    ensures var next := h.tables[t].rows[RowAt(cfg, key, level)].next.table;
            Reached(cfg, h.tables, key, insert, level + 1, next, 0)
  {
    ShapeAt(cfg, h.tables, t, RowAt(cfg, key, level));
    if insert {
      forall l: nat, d: nat | d < cfg.cells && l < level + 1 ensures PassedAt(cfg, h.tables, key, l, d) {
        PassedHas(cfg, h.tables, key, level, cfg.cells, l, d);
      }
    }
  }
}
