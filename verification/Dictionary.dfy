/** The dictionary of dictionary.cpp used by one thread at a time: it refines a plain map from
    keys to ids. */
module Dictionary {
  import opened Words
  import opened Bits
  import opened DictTree
  import opened DictRace
  import opened DictOwners
  import opened DictMap
  import opened DictClear

  const INT_MAX: nat := 0x7FFF_FFFF

  /** What a dictionary keeps between calls. */
  ghost predicate Good(cfg: Config, h: Heap) {
    TreeInv(cfg, h) && TreeOrder(h.tables) && h.size == |Filled(h.tables)|
  }

  function Claimed(h: Heap, t: nat, r: nat, c: nat, key: Key): Heap
    requires t < |h.tables| && r < |h.tables[t].rows| && c < |h.tables[t].rows[r].cells|
  {
    h.(tables := Claim(h.tables, t, r, c, key), size := h.size + 1)
  }

  /** Storing an absent key in the first empty cell of its walk extends the map by that key. */
  lemma ClaimGood(cfg: Config, h: Heap, key: Key, level: nat, t: nat, c: nat)
    requires Sensible(cfg) && Good(cfg, h) && Reached(cfg, h.tables, key, true, level, t, c) && c < cfg.cells
    requires AtRow(cfg, h, key, level, t) && RowOf(cfg, h, key, level, t).cells[c].Empty?
    ensures var h' := Claimed(h, t, RowAt(cfg, key, level), c, key);
            && Good(cfg, h') && key !in View(cfg, h.tables)
            && View(cfg, h'.tables) == View(cfg, h.tables)[key := CellId(cfg, h.tables, t, RowAt(cfg, key, level), c)]
  {
    var r := RowAt(cfg, key, level);
    var h' := Claimed(h, t, r, c, key);
    ClaimTree(cfg, h, key, level, t, c);
    AbsentAtEmpty(cfg, h.tables, key, level, t, c);
    ClaimedKeys(h.tables, t, r, c, key);
    hide TreeOrder, Filled, Shaped, Capacity, Rows, BasesInv;
    ViewGrows(cfg, h.tables, h'.tables, t, r, c, key);
  }

  lemma ClaimTree(cfg: Config, h: Heap, key: Key, level: nat, t: nat, c: nat)
    requires Sensible(cfg) && Good(cfg, h) && Reached(cfg, h.tables, key, true, level, t, c) && c < cfg.cells
    requires AtRow(cfg, h, key, level, t) && RowOf(cfg, h, key, level, t).cells[c].Empty?
    ensures var r := RowAt(cfg, key, level);
            var h' := Claimed(h, t, r, c, key);
            Good(cfg, h') && Extends(h.tables, h'.tables) && HasKey(h'.tables, t, r, c, key)
  {
    var r := RowAt(cfg, key, level);
    var h' := Claimed(h, t, r, c, key);
    hide TreeOrder, Filled, Shaped, Capacity, Rows, WalkInv, BasesInv, Extends, Passed;
    ClaimKeeps(cfg, h.tables, key, level, t, r, c);
    BasesKept(cfg, h.tables, h'.tables);
    ClaimFills(h.tables, t, r, c, key);
    ClaimOrder(h.tables, t, r, c, key);
  }

  lemma ClaimOrder(tables: seq<Table>, t: nat, r: nat, c: nat, key: Key)
    requires TreeOrder(tables) && t < |tables| && r < |tables[t].rows| && c < |tables[t].rows[r].cells|
    ensures TreeOrder(Claim(tables, t, r, c, key))
  {
    SameOrder(tables, Claim(tables, t, r, c, key));
  }

  lemma ClaimedKeys(tables: seq<Table>, t: nat, r: nat, c: nat, key: Key)
    requires t < |tables| && r < |tables[t].rows| && c < |tables[t].rows[r].cells|
    ensures forall t': nat, r': nat, c': nat, k: Key ::
              HasKey(Claim(tables, t, r, c, key), t', r', c', k) && k != key ==> HasKey(tables, t', r', c', k)
  {
  }

  lemma SameOrder(tables: seq<Table>, tables': seq<Table>)
    requires TreeOrder(tables) && |tables'| == |tables|
    requires forall u: nat, r: nat, m: nat :: LinkAt(tables', u, r, m) <==> LinkAt(tables, u, r, m)
    ensures TreeOrder(tables')
  {
    forall m: nat | 0 < m < |tables'| ensures Linked(tables', m) {
      assert Linked(tables, m);
      var u: nat, r: nat :| LinkAt(tables, u, r, m);
      assert LinkAt(tables', u, r, m);
    }
    forall u: nat, r: nat, u': nat, r': nat, m: nat | LinkAt(tables', u, r, m) && LinkAt(tables', u', r', m)
      ensures u == u' && r == r'
    {
      assert LinkAt(tables, u, r, m) && LinkAt(tables, u', r', m);
    }
  }

  /** Making the next table and linking it, as one thread does without interference. */
  function Grown(cfg: Config, h: Heap, t: nat, r: nat): Heap
    requires t < |h.tables| && r < |h.tables[t].rows|
  {
    var base := h.baseIndex + Capacity(cfg);
    h.(tables := SetNext(h.tables + [EmptyTable(cfg, base)], t, r, |h.tables|), baseIndex := base)
  }

  lemma GrowGood(cfg: Config, h: Heap, t: nat, r: nat)
    requires Sensible(cfg) && Good(cfg, h) && t < |h.tables| && r < |h.tables[t].rows| && h.tables[t].rows[r].next.Null?
    ensures var h' := Grown(cfg, h, t, r);
            && Good(cfg, h') && Extends(h.tables, h'.tables) && View(cfg, h'.tables) == View(cfg, h.tables)
            && LinkAt(h'.tables, t, r, |h.tables|)
  {
    var h' := Grown(cfg, h, t, r);
    GrowTree(cfg, h, t, r);
    GrowOrder(cfg, h, t, r);
    GrowCells(cfg, h, t, r);
    hide TreeOrder, Filled, Shaped, Capacity, Rows, BasesInv;
    ViewSame(cfg, h.tables, h'.tables);
  }

  lemma GrowTree(cfg: Config, h: Heap, t: nat, r: nat)
    requires Sensible(cfg) && TreeInv(cfg, h) && t < |h.tables| && r < |h.tables[t].rows|
        && h.tables[t].rows[r].next.Null?
    ensures TreeInv(cfg, Grown(cfg, h, t, r)) && Extends(h.tables, Grown(cfg, h, t, r).tables)
  {
    var base := h.baseIndex + Capacity(cfg);
    var mid := h.(tables := h.tables + [EmptyTable(cfg, base)], baseIndex := base);
    var h' := Grown(cfg, h, t, r);
    MakeKeeps(cfg, h);
    SetNextKeeps(cfg, mid.tables, t, r, |h.tables|);
    BasesKept(cfg, mid.tables, h'.tables);
    hide Shaped, Capacity, Rows, BasesInv, WalkInv, Extends;
    ExtendsTrans(h.tables, mid.tables, h'.tables);
  }

  /** The new table is empty, and linking it touches no cell. */
  lemma GrowCells(cfg: Config, h: Heap, t: nat, r: nat)
    requires t < |h.tables| && r < |h.tables[t].rows|
    ensures var h' := Grown(cfg, h, t, r);
            && Filled(h'.tables) == Filled(h.tables) && LinkAt(h'.tables, t, r, |h.tables|)
            && forall t: nat, r: nat, c: nat, k: Key :: HasKey(h'.tables, t, r, c, k) ==> HasKey(h.tables, t, r, c, k)
  {
    SameFilled(h.tables, Grown(cfg, h, t, r).tables);
  }

  lemma GrowOrder(cfg: Config, h: Heap, t: nat, r: nat)
    requires TreeOrder(h.tables) && t < |h.tables| && r < |h.tables[t].rows| && h.tables[t].rows[r].next.Null?
    ensures TreeOrder(Grown(cfg, h, t, r).tables)
  {
    var n, tables, tables' := |h.tables|, h.tables, Grown(cfg, h, t, r).tables;
    forall u: nat, q: nat, m: nat
      ensures LinkAt(tables', u, q, m) <==> LinkAt(tables, u, q, m) || (u == t && q == r && m == n)
    {
    }
    forall m: nat | 0 < m < |tables'| ensures Linked(tables', m) {
      if m < n {
        assert Linked(tables, m);
        var u: nat, q: nat :| LinkAt(tables, u, q, m);
        assert LinkAt(tables', u, q, m);
      } else {
        assert LinkAt(tables', t, r, m);
      }
    }
  }

  /** The cells of the table at the end of a freshly made link are empty. */
  ghost predicate Vacant(tables: seq<Table>, t: nat) {
    t < |tables| && forall r: nat, c: nat :: !FullAt(tables, t, r, c)
  }

  /** Having met something other than the key in cell `c`. */
  lemma NoMatch(cfg: Config, tables: seq<Table>, key: Key, level: nat, t: nat, c: nat)
    requires Sensible(cfg) && TableAt(cfg, tables, key, level) == To(t) && Unmatched(cfg, tables, key, level, c)
    requires !HasKey(tables, t, RowAt(cfg, key, level), c, key)
    ensures Unmatched(cfg, tables, key, level, c + 1)
  {
    forall l: nat, d: nat | d < cfg.cells && (l < level || (l == level && d < c + 1)) ensures Differs(cfg, tables,
        key, l, d) {
      if !(l == level && d == c) {
        DiffersHas(cfg, tables, key, level, c, l, d);
      }
    }
  }

  lemma NextUnmatched(cfg: Config, tables: seq<Table>, key: Key, level: nat)
    requires Sensible(cfg) && Unmatched(cfg, tables, key, level, cfg.cells)
    ensures Unmatched(cfg, tables, key, level + 1, 0)
  {
    forall l: nat, d: nat | d < cfg.cells && l < level + 1 ensures Differs(cfg, tables, key, l, d) {
      DiffersHas(cfg, tables, key, level, cfg.cells, l, d);
    }
  }

  /** An absent key matches nowhere. */
  lemma AbsentUnmatched(cfg: Config, tables: seq<Table>, key: Key, level: nat, c: nat)
    requires Sensible(cfg) && !Stored(tables, key)
    ensures Unmatched(cfg, tables, key, level, c)
  {
  }

  /** Moving past a cell that does not hold the key. */
  lemma SeenOther(cfg: Config, h: Heap, key: Key, insert: bool, level: nat, t: nat, c: nat)
    requires Sensible(cfg) && Good(cfg, h) && Reached(cfg, h.tables, key, insert, level, t, c)
    requires c < cfg.cells && AtRow(cfg, h, key, level, t) && Unmatched(cfg, h.tables, key, level, c)
    requires var cell := RowOf(cfg, h, key, level, t).cells[c];
             if cell.Holds? then !KeyEquals(cell.key, key) else !insert
    ensures Reached(cfg, h.tables, key, insert, level, t, c + 1) && Unmatched(cfg, h.tables, key, level, c + 1)
  {
    var r := RowAt(cfg, key, level);
    var cell := RowOf(cfg, h, key, level, t).cells[c];
    if cell.Holds? {
      StoredIsKey(cfg, h.tables, t, r, c, cell.key);
      KeyEqualsIsEquality(cell.key, key);
      if insert {
        PassCell(cfg, h, key, level, t, c);
      }
    }
    NoMatch(cfg, h.tables, key, level, t, c);
  }

  lemma SeenKey(cfg: Config, h: Heap, key: Key, t: nat, r: nat, c: nat)
    requires Sensible(cfg) && Good(cfg, h) && IsKey(key) && FullAt(h.tables, t, r, c)
    requires KeyEquals(h.tables[t].rows[r].cells[c].key, key)
    ensures key in View(cfg, h.tables) && View(cfg, h.tables)[key] == CellId(cfg, h.tables, t, r, c)
  {
    var stored := h.tables[t].rows[r].cells[c].key;
    StoredIsKey(cfg, h.tables, t, r, c, stored);
    KeyEqualsIsEquality(stored, key);
    ViewAt(cfg, h.tables, t, r, c, key);
  }

  lemma LookupStart(cfg: Config, h: Heap, key: Key, insert: bool)
    requires Sensible(cfg) && Good(cfg, h) && IsKey(key)
    ensures Reached(cfg, h.tables, key, insert, 0, 0, 0) && Unmatched(cfg, h.tables, key, 0, 0)
  {
  }

  lemma RowStart(cfg: Config, h: Heap, key: Key, insert: bool, level: nat, t: nat)
    requires Sensible(cfg) && Good(cfg, h) && Reached(cfg, h.tables, key, insert, level, t, 0)
    ensures AtRow(cfg, h, key, level, t) && |RowOf(cfg, h, key, level, t).cells| == cfg.cells
    ensures Vacant(h.tables, t) ==> RowOf(cfg, h, key, level, t).cells[0].Empty?
  {
    ReachedRow(cfg, h, key, insert, level, t, 0);
    assert Vacant(h.tables, t) ==> !FullAt(h.tables, t, RowAt(cfg, key, level), 0);
  }

  /** Behind the last cell of a row there is a later table, or the key is absent. */
  lemma AtRowEnd(cfg: Config, h: Heap, key: Key, insert: bool, level: nat, t: nat)
    requires Sensible(cfg) && Good(cfg, h) && Reached(cfg, h.tables, key, insert, level, t, cfg.cells)
    requires Unmatched(cfg, h.tables, key, level, cfg.cells)
    ensures AtRow(cfg, h, key, level, t)
    ensures var next := RowOf(cfg, h, key, level, t).next;
            if next.Null? then key !in View(cfg, h.tables)
            else
              && t < next.table < |h.tables|
              && Reached(cfg, h.tables, key, insert, level + 1, next.table, 0)
              && Unmatched(cfg, h.tables, key, level + 1, 0)
  {
    ReachedRow(cfg, h, key, insert, level, t, cfg.cells);
    var r := RowAt(cfg, key, level);
    if h.tables[t].rows[r].next.Null? {
      AbsentAtEnd(cfg, h.tables, key, level);
    } else {
      NextLevel(cfg, h, key, insert, level, t);
      NextUnmatched(cfg, h.tables, key, level);
      assert LinkAt(h.tables, t, r, h.tables[t].rows[r].next.table);
    }
  }

  /** The walk of an absent key goes on in the new table. */
  lemma GrowWalk(cfg: Config, h: Heap, key: Key, level: nat, t: nat)
    requires Sensible(cfg) && Good(cfg, h) && Reached(cfg, h.tables, key, true, level, t, cfg.cells)
    requires var r := RowAt(cfg, key, level); r < |h.tables[t].rows| && h.tables[t].rows[r].next.Null?
    requires key !in View(cfg, h.tables)
    ensures var h' := Grown(cfg, h, t, RowAt(cfg, key, level));
            && Good(cfg, h') && View(cfg, h'.tables) == View(cfg, h.tables)
            && Reached(cfg, h'.tables, key, true, level + 1, |h.tables|, 0)
            && Unmatched(cfg, h'.tables, key, level + 1, 0) && Vacant(h'.tables, |h.tables|)
  {
    var r := RowAt(cfg, key, level);
    var h' := Grown(cfg, h, t, r);
    GrowGood(cfg, h, t, r);
    GrowVacant(cfg, h, t, r);
    hide TreeOrder, Filled, Extends, Shaped, View, Vacant, Capacity, Rows;
    assert TreeInv(cfg, h') && NextSet(cfg, h'.tables, key, level, t) && h'.tables[t].rows[r].next.table == |h.tables|;
    ReachedKept(cfg, h.tables, h'.tables, key, true, level, t, cfg.cells);
    NextLevel(cfg, h', key, true, level, t);
    AbsentUnmatched(cfg, h'.tables, key, level + 1, 0);
  }

  lemma GrowVacant(cfg: Config, h: Heap, t: nat, r: nat)
    requires t < |h.tables| && r < |h.tables[t].rows|
    ensures Vacant(Grown(cfg, h, t, r).tables, |h.tables|)
  {
  }

  class Dictionary {
    const cfg: Config
    var tables: seq<Table>
    var baseIndex: nat
    var size: nat

    ghost function H(): Heap
      reads this
    {
      Heap(tables, baseIndex, size, {})
    }

    ghost predicate Valid()
      reads this
    {
      Sensible(cfg) && Good(cfg, H())
    }

    /** The map this dictionary stands for. */
    ghost function Map(): map<Key, nat>
      reads this
    {
      View(cfg, tables)
    }

    constructor (cfg: Config)
      requires Sensible(cfg)
      ensures Valid() && Map() == map[] && size == 0 && baseIndex == 1 && this.cfg == cfg
    {
      this.cfg := cfg;
      tables := [EmptyTable(cfg, 1)];
      baseIndex := 1;
      size := 0;
      new;
      EmptyIsGood(cfg);
    }

    /** clear(): back to one empty table; ids start again at 1. */
    method Clear() returns (keys: seq<Place>, freed: seq<nat>)
      requires Valid()
      modifies this
      ensures Valid() && Map() == map[] && size == 0 && baseIndex == 1
      ensures Distinct(keys) && forall x :: x in keys <==> x in Filled(old(tables))
      ensures Distinct(freed) && forall u :: u in freed <==> 0 < u < |old(tables)|
    {
      keys, freed := ClearTable(0);
      RootFreesAll(tables, freed, keys);
      tables := [EmptyTable(cfg, 1)];
      baseIndex := 1;
      size := 0;
      EmptyIsGood(cfg);
    }

    /** clear(table): the keys and tables given back, in order. */
    method ClearTable(t: nat) returns (keys: seq<Place>, freed: seq<nat>)
      requires Valid() && t < |tables|
      ensures KeysFreed(tables, t, keys) && TablesFreed(tables, t, freed)
      decreases |tables| - t
    {
      hide TreeInv, Below, BelowFirst, KeysUpTo, TablesUpTo, KeysFreed, TablesFreed, RowFreed;
      keys, freed := [], [];
      var i := 0;
      NothingYet(tables, t);
      while i < |tables[t].rows|
        invariant i <= |tables[t].rows| && KeysUpTo(tables, t, i, keys) && TablesUpTo(tables, t, i, freed)
      {
        var row := ClearRow(t, i);
        var next := tables[t].rows[i].next;
        if next.To? {
          assert LinkAt(tables, t, i, next.table);
          var more, below := ClearTable(next.table);
          NextRowKeys(tables, t, i, keys, row, next.table, more);
          NextRowTables(tables, t, i, freed, next.table, below);
          keys, freed := keys + row + more, freed + (below + [next.table]);
        } else {
          LastRow(tables, t, i, freed, keys, row);
          keys := keys + row;
        }
        i := i + 1;
      }
      AllRowsFreed(tables, t, freed, keys);
    }

    /** The cells of one row. */
    method ClearRow(t: nat, i: nat) returns (keys: seq<Place>)
      requires t < |tables| && i < |tables[t].rows|
      ensures RowFreed(tables, t, i, |tables[t].rows[i].cells|, keys)
    {
      keys := [];
      var j := 0;
      while j < |tables[t].rows[i].cells|
        invariant j <= |tables[t].rows[i].cells| && RowFreed(tables, t, i, j, keys)
      {
        if tables[t].rows[i].cells[j].Holds? {
          DistinctConcat(keys, [(t, i, j)]);
          keys := keys + [(t, i, j)];
        }
        j := j + 1;
      }
    }

    /** The inner loop of lookup: the first cell of the row that is empty (when inserting) or
        holds the key. */
    method FindCell(key: Key, insert: bool, ghost level: nat, t: nat, r: nat) returns (c: nat)
      requires Valid() && IsKey(key) && r == RowAt(cfg, key, level) && AtRow(cfg, H(), key, level, t)
      requires Reached(cfg, tables, key, insert, level, t, 0) && Unmatched(cfg, tables, key, level, 0)
      ensures c <= cfg.cells && Reached(cfg, tables, key, insert, level, t, c) && Unmatched(cfg, tables, key, level, c)
      ensures c < cfg.cells ==>
                var cell := tables[t].rows[r].cells[c];
                (insert && cell.Empty?) || (cell.Holds? && KeyEquals(cell.key, key))
      ensures insert && tables[t].rows[r].cells[0].Empty? ==> c == 0
    {
      hide Good, Reached, Unmatched, KeyEquals, Rows, RowAt;
      var row := tables[t].rows[r];
      c := 0;
      while c < cfg.cells
        invariant c <= cfg.cells
        invariant Reached(cfg, tables, key, insert, level, t, c) && Unmatched(cfg, tables, key, level, c)
        invariant insert && row.cells[0].Empty? ==> c == 0
      {
        if insert && row.cells[c].Empty? {
          return;
        }
        if row.cells[c].Holds? && KeyEquals(row.cells[c].key, key) {
          return;
        }
        SeenOther(cfg, H(), key, insert, level, t, c);
        c := c + 1;
      }
    }

    /** One row of lookup: take the id of the found cell, claiming it if it is empty. */
    method TryCells(key: Key, insert: bool, ghost level: nat, t: nat, r: nat) returns (found: bool, id: nat)
      requires Valid() && IsKey(key) && Reached(cfg, tables, key, insert, level, t, 0) && r == RowAt(cfg, key, level)
      requires Unmatched(cfg, tables, key, level, 0)
      modifies this
      ensures Valid() && baseIndex == old(baseIndex) && |tables| == |old(tables)|
      ensures insert && Vacant(old(tables), t) ==> found
      ensures !found ==> H() == old(H())
                         && Reached(cfg, tables, key, insert, level, t, cfg.cells)
                         && Unmatched(cfg, tables, key, level, cfg.cells)
      ensures found && key in old(Map()) ==> H() == old(H()) && id == old(Map())[key]
      ensures found && key !in old(Map()) ==> insert && Map() == old(Map())[key := id] && size == old(size) + 1
    {
      hide Good, Reached, Unmatched, View, KeyEquals, Rows, Vacant, RowAt, CellId, ShapedRow;
      RowStart(cfg, H(), key, insert, level, t);
      var c := FindCell(key, insert, level, t, r);
      if c == cfg.cells {
        return false, 0;
      }
      found, id := true, CellId(cfg, tables, t, r, c);
      if tables[t].rows[r].cells[c].Empty? {
        ClaimGood(cfg, H(), key, level, t, c);
        ghost var h' := Claimed(H(), t, r, c, key);
        tables := Claim(tables, t, r, c, key);
        size := size + 1;
        assert H() == h' && |h'.tables| == |old(tables)|;
        hide Claimed, Claim;
      } else {
        SeenKey(cfg, H(), key, t, r, c);
      }
    }

    /** lookup(key, length, for_insert, sentinel). A present key yields its id and changes
        nothing; an absent one yields the sentinel and changes nothing, or is added to the map
        under a new id. */
    method Lookup(key: Key, insert: bool, sentinel: nat) returns (id: nat)
      requires Valid() && IsKey(key)
      modifies this
      ensures Valid()
      ensures key in old(Map()) ==> H() == old(H()) && id == old(Map())[key]
      ensures key !in old(Map()) && !insert ==> H() == old(H()) && id == sentinel
      ensures key !in old(Map()) && insert ==> Map() == old(Map())[key := id] && size == old(size) + 1
      ensures |tables| <= |old(tables)| + 1
    {
      hide Good, Reached, Unmatched, View, Vacant, Rotate, Rows;
      var t: nat, h := 0, cfg.hash(key);
      LookupStart(cfg, H(), key, insert);
      ghost var level: nat, appended := 0, false;
      while true
        invariant Valid() && Map() == old(Map()) && size == old(size)
        invariant h == HashAt(cfg, key, level)
        invariant Reached(cfg, tables, key, insert, level, t, 0) && Unmatched(cfg, tables, key, level, 0)
        invariant !appended ==> H() == old(H())
        invariant appended ==> insert && Vacant(tables, t) && key !in old(Map()) && |tables| == |old(tables)| + 1
        decreases !appended, |tables| - t
      {
        var r := Rem(h, Rows(cfg));
        var found, found_id := TryCells(key, insert, level, t, r);
        if found {
          return found_id;
        }
        AtRowEnd(cfg, H(), key, insert, level, t);
        if tables[t].rows[r].next.Null? {
          if !insert {
            return sentinel;
          }
          t, level := GrowAt(key, level, t, r);
          appended := true;
        } else {
          t := tables[t].rows[r].next.table;
          level := level + 1;
        }
        h := Rotate(cfg, h);
      }
    }

    /** Making and linking the next table, and moving to it. */
    method GrowAt(key: Key, ghost level: nat, t: nat, r: nat) returns (next: nat, ghost below: nat)
      requires Valid() && IsKey(key) && Reached(cfg, tables, key, true, level, t, cfg.cells) && r == RowAt(cfg, key,
          level)
      requires key !in Map() && r < |tables[t].rows| && tables[t].rows[r].next.Null?
      modifies this
      ensures Valid() && Map() == old(Map()) && size == old(size) && |tables| == |old(tables)| + 1
      ensures below == level + 1 && Reached(cfg, tables, key, true, below, next, 0)
      ensures Unmatched(cfg, tables, key, below, 0) && Vacant(tables, next)
    {
      assert t < |tables|;
      hide Good, Reached, Unmatched, View, Vacant, EmptyTable, Capacity, Rows;
      GrowWalk(cfg, H(), key, level, t);
      ghost var h' := Grown(cfg, H(), t, r);
      next, below := |tables|, level + 1;
      baseIndex := baseIndex + Capacity(cfg);
      tables := SetNext(tables + [EmptyTable(cfg, baseIndex)], t, r, |tables|);
      assert H() == h';
    }

    /** bounded_lookup: the sentinel INT_MAX comes back exactly when the key is absent and the
        limit is reached (as long as ids stay below INT_MAX), and the dictionary never grows past
        the limit. */
    method BoundedLookup(key: Key, limit: int) returns (id: nat)
      requires Valid() && IsKey(key)
      modifies this
      ensures Valid()
      ensures key in old(Map()) ==> H() == old(H()) && id == old(Map())[key]
      ensures key !in old(Map()) && old(size) >= limit ==> H() == old(H()) && id == INT_MAX
      ensures key !in old(Map()) && old(size) < limit ==> Map() == old(Map())[key := id] && size == old(size) + 1
      ensures old(size) <= limit ==> size <= limit
      ensures baseIndex + Capacity(cfg) <= INT_MAX ==> (id == INT_MAX <==> key !in old(Map()) && old(size) >= limit)
    {
      id := Lookup(key, size < limit, INT_MAX);
      if key in Map() && baseIndex + Capacity(cfg) <= INT_MAX {
        ViewInjective(cfg, H(), key, key);
      }
    }

    /** collect(map): the exact inverse of the dictionary's map, with `_size` entries, as long
        as ids fit in 32 bits. */
    method Collect() returns (m: map<nat, Key>)
      requires Valid()
      ensures baseIndex + Capacity(cfg) <= U32 ==> Inverse(Map(), m) && |m| == size
    {
      m := CollectTable(0, map[]);
      if baseIndex + Capacity(cfg) <= U32 {
        CollectedIsInverse(cfg, H(), m);
      }
    }

    /** collect(map, table). */
    method CollectTable(t: nat, m0: map<nat, Key>) returns (m: map<nat, Key>)
      requires Valid() && t < |tables| && Sound(cfg, tables, m0)
      ensures m0.Keys <= m.Keys && Sound(cfg, tables, m) && CoversTree(cfg, tables, m, t)
      decreases |tables| - t
    {
      m := m0;
      var i := 0;
      while i < |tables[t].rows|
        invariant i <= |tables[t].rows| && m0.Keys <= m.Keys && Sound(cfg, tables, m)
        invariant CoversRows(cfg, tables, m, t, i) && CoversBelow(cfg, tables, m, t, i)
      {
        ghost var m1 := m;
        var row := tables[t].rows[i];
        m := CollectRow(t, i, m);
        if row.next.To? {
          assert LinkAt(tables, t, i, row.next.table);
          ghost var m2 := m;
          m := CollectTable(row.next.table, m);
          assert CoversCells(cfg, tables, m, t, i, |row.cells|);
        }
        CoversMore(cfg, tables, m1, m, t, i);
        CoversNextRow(cfg, tables, m, t, i);
        i := i + 1;
      }
      CoversAll(cfg, tables, m, t);
    }

    /** The cells of one row. */
    method CollectRow(t: nat, i: nat, m0: map<nat, Key>) returns (m: map<nat, Key>)
      requires t < |tables| && i < |tables[t].rows| && Sound(cfg, tables, m0)
      ensures m0.Keys <= m.Keys && Sound(cfg, tables, m)
      ensures CoversCells(cfg, tables, m, t, i, |tables[t].rows[i].cells|)
    {
      var row := tables[t].rows[i];
      m := m0;
      var j := 0;
      while j < |row.cells|
        invariant j <= |row.cells| && m0.Keys <= m.Keys && Sound(cfg, tables, m)
        invariant CoversCells(cfg, tables, m, t, i, j)
      {
        if row.cells[j].Holds? {
          var id := CellId(cfg, tables, t, i, j);
          assert SoundAt(cfg, tables, t, i, j, id, row.cells[j].key);
          m := m[id := row.cells[j].key];
        }
        j := j + 1;
      }
    }
  }

  // ---------------------------------------------------------------------------------------
  // Collecting
  // ---------------------------------------------------------------------------------------

  /** Every entry of `m` is a stored key under the number of its cell. */
  ghost predicate Sound(cfg: Config, tables: seq<Table>, m: map<nat, Key>) {
    forall id :: id in m ==> exists t: nat, r: nat, c: nat :: SoundAt(cfg, tables, t, r, c, id, m[id])
  }

  ghost predicate SoundAt(cfg: Config, tables: seq<Table>, t: nat, r: nat, c: nat, id: nat, key: Key) {
    HasKey(tables, t, r, c, key) && CellId(cfg, tables, t, r, c) == id
  }

  /** All keys of a table are in `m`. */
  ghost predicate Covers(cfg: Config, tables: seq<Table>, m: map<nat, Key>, t: nat) {
    forall r: nat, c: nat :: FullAt(tables, t, r, c) ==> CellId(cfg, tables, t, r, c) in m
  }

  ghost predicate CoversRows(cfg: Config, tables: seq<Table>, m: map<nat, Key>, t: nat, i: nat) {
    forall r: nat, c: nat :: r < i && FullAt(tables, t, r, c) ==> CellId(cfg, tables, t, r, c) in m
  }

  ghost predicate CoversCells(cfg: Config, tables: seq<Table>, m: map<nat, Key>, t: nat, i: nat, j: nat) {
    forall c: nat :: c < j && FullAt(tables, t, i, c) ==> CellId(cfg, tables, t, i, c) in m
  }

  /** All keys in tables that hang in the first `i` rows of `t` are in `m`. */
  ghost predicate CoversBelow(cfg: Config, tables: seq<Table>, m: map<nat, Key>, t: nat, i: nat) {
    forall r: nat, v: nat, u: nat :: r < i && BelowRow(tables, t, r, v, u) ==> Covers(cfg, tables, m, u)
  }

  ghost predicate CoversTree(cfg: Config, tables: seq<Table>, m: map<nat, Key>, t: nat) {
    forall u: nat :: Below(tables, t, u) ==> Covers(cfg, tables, m, u)
  }

  lemma CoversMore(cfg: Config, tables: seq<Table>, m: map<nat, Key>, m': map<nat, Key>, t: nat, i: nat)
    requires m.Keys <= m'.Keys && CoversRows(cfg, tables, m, t, i) && CoversBelow(cfg, tables, m, t, i)
    ensures CoversRows(cfg, tables, m', t, i) && CoversBelow(cfg, tables, m', t, i)
  {
    forall r: nat, v: nat, u: nat | r < i && BelowRow(tables, t, r, v, u) ensures Covers(cfg, tables, m', u) {
      assert Covers(cfg, tables, m, u);
    }
  }

  lemma CoversNextRow(cfg: Config, tables: seq<Table>, m: map<nat, Key>, t: nat, i: nat)
    requires t < |tables| && i < |tables[t].rows|
    requires CoversRows(cfg, tables, m, t, i) && CoversBelow(cfg, tables, m, t, i)
    requires CoversCells(cfg, tables, m, t, i, |tables[t].rows[i].cells|)
    requires var next := tables[t].rows[i].next; next.To? ==> CoversTree(cfg, tables, m, next.table)
    ensures CoversRows(cfg, tables, m, t, i + 1) && CoversBelow(cfg, tables, m, t, i + 1)
  {
    forall r: nat, v: nat, u: nat | r < i + 1 && BelowRow(tables, t, r, v, u) ensures Covers(cfg, tables, m, u) {
      if r == i {
        assert tables[t].rows[i].next == To(v) && Below(tables, v, u);
      }
    }
  }

  lemma CoversAll(cfg: Config, tables: seq<Table>, m: map<nat, Key>, t: nat)
    requires t < |tables| && CoversRows(cfg, tables, m, t, |tables[t].rows|) && CoversBelow(cfg, tables, m, t,
        |tables[t].rows|)
    ensures CoversTree(cfg, tables, m, t)
  {
    forall u: nat | Below(tables, t, u) ensures Covers(cfg, tables, m, u) {
      BelowByRow(tables, t, u);
      if u != t {
        var r: nat, v: nat :| BelowRow(tables, t, r, v, u);
      }
    }
  }

  /** Everything of the tree and nothing else: the collected map is the inverse of the map, and
      has as many entries as `_size` says. */
  lemma CollectedIsInverse(cfg: Config, h: Heap, m: map<nat, Key>)
    requires Sensible(cfg) && Good(cfg, h) && h.baseIndex + Capacity(cfg) <= U32
    requires Sound(cfg, h.tables, m) && CoversTree(cfg, h.tables, m, 0)
    ensures Inverse(View(cfg, h.tables), m) && |m| == h.size
  {
    hide Good, View, Sound, CoversTree, Capacity, Filled, KeysDecode, IdsDecode;
    var view := View(cfg, h.tables);
    CollectedIds(cfg, h, m);
    CollectedKeys(cfg, h, m);
    GoodSize(cfg, h);
    InverseSize(view, m);
  }

  lemma GoodSize(cfg: Config, h: Heap)
    requires Sensible(cfg) && Good(cfg, h)
    ensures |View(cfg, h.tables)| == h.size
  {
    ViewSize(cfg, h.tables);
  }

  lemma CollectedIds(cfg: Config, h: Heap, m: map<nat, Key>)
    requires Sensible(cfg) && Good(cfg, h) && Sound(cfg, h.tables, m)
    ensures IdsDecode(View(cfg, h.tables), m)
  {
    hide Good, View, Sound;
    forall id | id in m ensures m[id] in View(cfg, h.tables) && View(cfg, h.tables)[m[id]] == id {
      CollectedIsStored(cfg, h, m, id);
    }
  }

  lemma CollectedKeys(cfg: Config, h: Heap, m: map<nat, Key>)
    requires Sensible(cfg) && Good(cfg, h) && h.baseIndex + Capacity(cfg) <= U32
    requires Sound(cfg, h.tables, m) && CoversTree(cfg, h.tables, m, 0)
    ensures KeysDecode(View(cfg, h.tables), m)
  {
    hide Good, View, Sound, CoversTree, Capacity;
    var view := View(cfg, h.tables);
    forall key | key in view ensures view[key] in m && m[view[key]] == key {
      CollectedHas(cfg, h, m, key);
    }
  }

  lemma CollectedIsStored(cfg: Config, h: Heap, m: map<nat, Key>, id: nat)
    requires Sensible(cfg) && Good(cfg, h) && Sound(cfg, h.tables, m) && id in m
    ensures m[id] in View(cfg, h.tables) && View(cfg, h.tables)[m[id]] == id
  {
    var t: nat, r: nat, c: nat :| SoundAt(cfg, h.tables, t, r, c, id, m[id]);
    ViewAt(cfg, h.tables, t, r, c, m[id]);
  }

  lemma CollectedHas(cfg: Config, h: Heap, m: map<nat, Key>, key: Key)
    requires Sensible(cfg) && Good(cfg, h) && h.baseIndex + Capacity(cfg) <= U32
    requires Sound(cfg, h.tables, m) && CoversTree(cfg, h.tables, m, 0) && key in View(cfg, h.tables)
    ensures View(cfg, h.tables)[key] in m && m[View(cfg, h.tables)[key]] == key
  {
    var t: nat, r: nat, c: nat :| HasKey(h.tables, t, r, c, key);
    ViewAt(cfg, h.tables, t, r, c, key);
    AllBelowRoot(h.tables, t);
    assert Covers(cfg, h.tables, m, t) && FullAt(h.tables, t, r, c);
    hide CoversTree, View, Capacity, Rows, TreeOrder, Below, WalkInv, BasesInv, Shaped;
    var id := CellId(cfg, h.tables, t, r, c);
    var t': nat, r': nat, c': nat :| SoundAt(cfg, h.tables, t', r', c', id, m[id]);
    CellIdsDiffer(cfg, h, t, r, c, t', r', c');
  }

  lemma EmptyIsGood(cfg: Config)
    requires Sensible(cfg)
    ensures Good(cfg, Heap([EmptyTable(cfg, 1)], 1, 0, {})) && View(cfg, [EmptyTable(cfg, 1)]) == map[]
  {
    var tables := [EmptyTable(cfg, 1)];
    RootKeeps(cfg);
    assert Times(Capacity(cfg), 0) == 0;
    assert Filled(tables) == {};
    assert forall u: nat, r: nat, m: nat :: !LinkAt(tables, u, r, m);
    assert forall t: nat, r: nat, c: nat, key: Key :: !HasKey(tables, t, r, c, key);
    assert View(cfg, tables).Keys == {};
  }
}
