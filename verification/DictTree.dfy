/** The multi-level table of dictionary.h: tables of rows, each row with a few cells and a link to
    a table of the next level. This module has the layout, the way a key walks down the levels,
    and the two facts everything else rests on: cells are found in walking order, and cell numbers
    do not collide. The number of rows (a power of two) and of cells per row are parameters, and
    the hash is an arbitrary function. */
module DictTree {
  import opened Bits

  type Key = seq<nat>

  datatype Link = Null | To(table: nat)

  datatype Cell = Empty | Holds(key: Key)

  datatype Row = Row(cells: seq<Cell>, next: Link)

  datatype Table = Table(base: nat, rows: seq<Row>)

  datatype Config = Config(rowBits: nat, cells: nat, hash: Key -> nat)

  ghost predicate Sensible(cfg: Config) {
    1 <= cfg.cells && cfg.rowBits <= 32
  }

  function Rows(cfg: Config): (n: nat)
    ensures n > 0
  {
    Pow2(cfg.rowBits)
  }

  /** TABLE_CAPACITY */
  function Capacity(cfg: Config): nat {
    Rows(cfg) * cfg.cells
  }

  // ---------------------------------------------------------------------------------------
  // Key comparison
  // ---------------------------------------------------------------------------------------

  /** Dictionary keys are byte strings without NUL. */
  ghost predicate IsKey(k: Key) {
    forall i :: 0 <= i < |k| ==> k[i] != 0
  }

  /** strncmp(stored, key, |key|) == 0 from position `i` on, where `stored` ends with a NUL. */
  predicate PrefixEquals(stored: seq<nat>, key: Key, i: nat)
    requires i <= |key|
    decreases |key| - i
  {
    if i == |key| then true
    else if i >= |stored| || stored[i] != key[i] then false
    else if stored[i] == 0 then true
    else PrefixEquals(stored, key, i + 1)
  }

  /** keyEquals: the stored copy is the key followed by a NUL. */
  predicate KeyEquals(stored: Key, key: Key) {
    var copy := stored + [0];
    PrefixEquals(copy, key, 0) && |key| < |copy| && copy[|key|] == 0
  }

  lemma {:induction false} PrefixMeaning(stored: seq<nat>, key: Key, i: nat)
    requires i <= |key| <= |stored| && forall j :: 0 <= j < |key| ==> stored[j] != 0
    ensures PrefixEquals(stored, key, i) <==> key[i..] == stored[i..|key|]
    decreases |key| - i
  {
    if i < |key| && stored[i] == key[i] {
      PrefixMeaning(stored, key, i + 1);
      assert key[i..] == [key[i]] + key[i + 1..];
      assert stored[i..|key|] == [stored[i]] + stored[i + 1..|key|];
    } else if i < |key| {
      assert key[i..][0] == key[i] && stored[i..|key|][0] == stored[i];
    }
  }

  /** The comparison with a stored key is equality if and only if the stored key has no NUL; the
      key that is looked up may have one. */
  lemma KeyEqualsExact(stored: Key)
    ensures (forall key: Key :: KeyEquals(stored, key) <==> stored == key) <==> IsKey(stored)
  {
    if IsKey(stored) {
      forall key: Key ensures KeyEquals(stored, key) <==> stored == key {
        KeyEqualsIsEquality(stored, key);
      }
    } else {
      var at: nat :| at < |stored| && stored[at] == 0;
      var i := FirstNul(stored, at);
      var copy, short := stored + [0], stored[..i];
      PrefixMeaning(copy, short, 0);
      assert short[0..] == copy[0..|short|];
      assert KeyEquals(stored, short) && |short| != |stored|;
    }
  }

  lemma FirstNul(stored: Key, at: nat) returns (i: nat)
    requires at < |stored| && stored[at] == 0
    ensures i < |stored| && stored[i] == 0 && forall j :: 0 <= j < i ==> stored[j] != 0
  {
    i := at;
    if j: nat :| j < at && stored[j] == 0 {
      i := FirstNul(stored, j);
    }
  }

  lemma KeyEqualsIsEquality(stored: Key, key: Key)
    requires IsKey(stored)
    ensures KeyEquals(stored, key) <==> stored == key
  {
    var copy := stored + [0];
    if |key| <= |stored| {
      PrefixMeaning(copy, key, 0);
      assert key[0..] == key && copy[0..|key|] == stored[..|key|];
    }
    if stored == key {
      assert stored[..|key|] == key;
    }
  }

  // ---------------------------------------------------------------------------------------
  // Walking down the levels
  // ---------------------------------------------------------------------------------------

  /** Rotating the 32-bit hash right by the row bits. */
  function Rotate(cfg: Config, h: nat): nat
    requires cfg.rowBits <= 32
  {
    Quot(h, Rows(cfg)) + Times(Rem(h, Rows(cfg)), Pow2(32 - cfg.rowBits))
  }

  function HashAt(cfg: Config, key: Key, level: nat): nat
    requires cfg.rowBits <= 32
  {
    if level == 0 then cfg.hash(key) else Rotate(cfg, HashAt(cfg, key, level - 1))
  }

  /** The row a key uses at a level. */
  function RowAt(cfg: Config, key: Key, level: nat): (r: nat)
    requires cfg.rowBits <= 32
    ensures r < Rows(cfg)
  {
    Rem(HashAt(cfg, key, level), Rows(cfg))
  }

  ghost predicate Shaped(cfg: Config, tables: seq<Table>) {
    && Sensible(cfg) && |tables| > 0
    && forall t :: 0 <= t < |tables| ==> ShapedTable(cfg, tables[t], |tables|)
  }

  ghost predicate ShapedTable(cfg: Config, t: Table, n: nat) {
    |t.rows| == Rows(cfg) && forall r :: 0 <= r < |t.rows| ==> ShapedRow(cfg, t.rows[r], n)
  }

  ghost predicate ShapedRow(cfg: Config, row: Row, n: nat) {
    |row.cells| == cfg.cells && (row.next.To? ==> row.next.table < n)
  }

  lemma ShapeAt(cfg: Config, tables: seq<Table>, t: nat, r: nat)
    requires Shaped(cfg, tables) && t < |tables| && r < Rows(cfg)
    ensures |tables[t].rows| == Rows(cfg) && ShapedRow(cfg, tables[t].rows[r], |tables|)
  {
    assert ShapedTable(cfg, tables[t], |tables|);
  }

  /** The table that a key meets at a level, following the links of its rows from table 0. */
  ghost function TableAt(cfg: Config, tables: seq<Table>, key: Key, level: nat): Link
    requires Sensible(cfg)
  {
    if level == 0 then To(0)
    else
      var up := TableAt(cfg, tables, key, level - 1);
      var r := RowAt(cfg, key, level - 1);
      if up.To? && up.table < |tables| && r < |tables[up.table].rows| then tables[up.table].rows[r].next else Null
  }

  /** The cell a key meets at a level holds another key. */
  ghost predicate PassedAt(cfg: Config, tables: seq<Table>, key: Key, level: nat, c: nat)
    requires Sensible(cfg)
  {
    var at, r := TableAt(cfg, tables, key, level), RowAt(cfg, key, level);
    && at.To? && at.table < |tables| && r < |tables[at.table].rows| && c < |tables[at.table].rows[r].cells|
    && var cell := tables[at.table].rows[r].cells[c];
       cell.Holds? && cell.key != key
  }

  /** All cells that come before cell `c` of level `level` on the key's walk hold other keys. */
  ghost predicate Passed(cfg: Config, tables: seq<Table>, key: Key, level: nat, c: nat)
    requires Sensible(cfg)
  {
    forall l: nat, d: nat :: d < cfg.cells && (l < level || (l == level && d < c)) ==> PassedAt(cfg, tables, key, l, d)
  }

  lemma PassedHas(cfg: Config, tables: seq<Table>, key: Key, level: nat, c: nat, l: nat, d: nat)
    requires Sensible(cfg) && Passed(cfg, tables, key, level, c)
    requires d < cfg.cells && (l < level || (l == level && d < c))
    ensures PassedAt(cfg, tables, key, l, d)
  {
  }

  /** Cell (t, r, c) is on its key's walk, at this level, behind cells that hold other keys. */
  ghost predicate OnWalk(cfg: Config, tables: seq<Table>, key: Key, level: nat, t: nat, r: nat, c: nat)
    requires Sensible(cfg)
  {
    TableAt(cfg, tables, key, level) == To(t) && RowAt(cfg, key, level) == r && Passed(cfg, tables, key, level, c)
  }

  predicate HasKey(tables: seq<Table>, t: nat, r: nat, c: nat, key: Key) {
    t < |tables| && r < |tables[t].rows| && c < |tables[t].rows[r].cells| && tables[t].rows[r].cells[c] == Holds(key)
  }

  ghost predicate KeyPlaced(cfg: Config, tables: seq<Table>, key: Key, t: nat, r: nat, c: nat)
    requires Sensible(cfg)
  {
    exists level: nat :: OnWalk(cfg, tables, key, level, t, r, c)
  }

  /** Every stored key is a key, and is where its walk finds it. */
  ghost predicate WalkInv(cfg: Config, tables: seq<Table>)
    requires Sensible(cfg)
  {
    forall t: nat, r: nat, c: nat, key: Key :: HasKey(tables, t, r, c, key) ==>
      IsKey(key) && c < cfg.cells && KeyPlaced(cfg, tables, key, t, r, c)
  }

  /** A key is stored in at most one cell. */
  lemma KeyStoredOnce(cfg: Config, tables: seq<Table>, key: Key, t: nat, r: nat, c: nat, t': nat, r': nat, c': nat)
    requires Sensible(cfg) && WalkInv(cfg, tables)
    requires HasKey(tables, t, r, c, key) && HasKey(tables, t', r', c', key)
    ensures t == t' && r == r' && c == c'
  {
    assert KeyPlaced(cfg, tables, key, t, r, c) && KeyPlaced(cfg, tables, key, t', r', c');
    var l: nat :| OnWalk(cfg, tables, key, l, t, r, c);
    var l': nat :| OnWalk(cfg, tables, key, l', t', r', c');
    if l < l' || (l == l' && c < c') {
      PassedHas(cfg, tables, key, l', c', l, c);
    } else if l' < l || (l == l' && c' < c) {
      PassedHas(cfg, tables, key, l, c, l', c');
    }
  }

  // ---------------------------------------------------------------------------------------
  // The tables only grow
  // ---------------------------------------------------------------------------------------

  /** Tables are added, empty cells filled and missing links set; nothing else changes. */
  ghost predicate Extends(tables: seq<Table>, tables': seq<Table>) {
    && |tables| <= |tables'|
    && forall t :: 0 <= t < |tables| ==> ExtendsTable(tables[t], tables'[t])
  }

  ghost predicate ExtendsTable(a: Table, b: Table) {
    && b.base == a.base && |b.rows| == |a.rows|
    && forall r :: 0 <= r < |a.rows| ==> ExtendsRow(a.rows[r], b.rows[r])
  }

  ghost predicate ExtendsRow(a: Row, b: Row) {
    && |b.cells| == |a.cells|
    && (forall c :: 0 <= c < |a.cells| && a.cells[c].Holds? ==> b.cells[c] == a.cells[c])
    && (a.next.To? ==> b.next == a.next)
  }

  lemma ExtendsTrans(a: seq<Table>, b: seq<Table>, c: seq<Table>)
    requires Extends(a, b) && Extends(b, c)
    ensures Extends(a, c)
  {
    forall t | 0 <= t < |a| ensures ExtendsTable(a[t], c[t]) {
      assert ExtendsTable(a[t], b[t]) && ExtendsTable(b[t], c[t]);
      forall r | 0 <= r < |a[t].rows| ensures ExtendsRow(a[t].rows[r], c[t].rows[r]) {
        assert ExtendsRow(a[t].rows[r], b[t].rows[r]) && ExtendsRow(b[t].rows[r], c[t].rows[r]);
      }
    }
  }

  lemma ExtendsAt(tables: seq<Table>, tables': seq<Table>, t: nat, r: nat)
    requires Extends(tables, tables') && t < |tables| && r < |tables[t].rows|
    ensures t < |tables'| && r < |tables'[t].rows| && ExtendsRow(tables[t].rows[r], tables'[t].rows[r])
    ensures tables'[t].base == tables[t].base
  {
    assert ExtendsTable(tables[t], tables'[t]);
  }

  lemma {:induction false} TableAtKept(cfg: Config, tables: seq<Table>, tables': seq<Table>, key: Key, level: nat)
    requires Sensible(cfg) && Extends(tables, tables') && TableAt(cfg, tables, key, level).To?
    ensures TableAt(cfg, tables', key, level) == TableAt(cfg, tables, key, level)
  {
    if level > 0 {
      TableAtKept(cfg, tables, tables', key, level - 1);
      ExtendsAt(tables, tables', TableAt(cfg, tables, key, level - 1).table, RowAt(cfg, key, level - 1));
    }
  }

  lemma PassedKept(cfg: Config, tables: seq<Table>, tables': seq<Table>, key: Key, level: nat, c: nat)
    requires Sensible(cfg) && Extends(tables, tables') && Passed(cfg, tables, key, level, c)
    ensures Passed(cfg, tables', key, level, c)
  {
    forall l: nat, d: nat | d < cfg.cells && (l < level || (l == level && d < c)) ensures PassedAt(cfg, tables', key,
        l, d) {
      PassedHas(cfg, tables, key, level, c, l, d);
      TableAtKept(cfg, tables, tables', key, l);
      ExtendsAt(tables, tables', TableAt(cfg, tables, key, l).table, RowAt(cfg, key, l));
    }
  }

  lemma OnWalkKept(cfg: Config, tables: seq<Table>, tables': seq<Table>, key: Key, level: nat, t: nat, r: nat, c: nat)
    requires Sensible(cfg) && Extends(tables, tables') && OnWalk(cfg, tables, key, level, t, r, c)
    ensures OnWalk(cfg, tables', key, level, t, r, c)
  {
    TableAtKept(cfg, tables, tables', key, level);
    PassedKept(cfg, tables, tables', key, level, c);
  }

  lemma HasKeyKept(tables: seq<Table>, tables': seq<Table>, t: nat, r: nat, c: nat, key: Key)
    requires Extends(tables, tables') && HasKey(tables, t, r, c, key)
    ensures HasKey(tables', t, r, c, key)
  {
    ExtendsAt(tables, tables', t, r);
  }

  /** The stored keys after an extension are the old ones, except where a new one is placed. */
  lemma WalkInvKept(cfg: Config, tables: seq<Table>, tables': seq<Table>)
    requires Sensible(cfg) && WalkInv(cfg, tables) && Extends(tables, tables')
    requires forall t: nat, r: nat, c: nat, key: Key ::
               HasKey(tables', t, r, c, key) && !HasKey(tables, t, r, c, key) ==>
               IsKey(key) && c < cfg.cells && KeyPlaced(cfg, tables', key, t, r, c)
    ensures WalkInv(cfg, tables')
  {
    forall t: nat, r: nat, c: nat, key: Key | HasKey(tables', t, r, c, key)
      ensures IsKey(key) && c < cfg.cells && KeyPlaced(cfg, tables', key, t, r, c)
    {
      if HasKey(tables, t, r, c, key) {
        assert KeyPlaced(cfg, tables, key, t, r, c);
        var level: nat :| OnWalk(cfg, tables, key, level, t, r, c);
        OnWalkKept(cfg, tables, tables', key, level, t, r, c);
      }
    }
  }

  // ---------------------------------------------------------------------------------------
  // The three updates
  // ---------------------------------------------------------------------------------------

  function WithRow(tables: seq<Table>, t: nat, r: nat, row: Row): seq<Table>
    requires t < |tables| && r < |tables[t].rows|
  {
    tables[t := tables[t].(rows := tables[t].rows[r := row])]
  }

  lemma RowChange(cfg: Config, tables: seq<Table>, t: nat, r: nat, row: Row)
    requires Shaped(cfg, tables) && t < |tables| && r < |tables[t].rows|
    requires ShapedRow(cfg, row, |tables|) && ExtendsRow(tables[t].rows[r], row)
    ensures Shaped(cfg, WithRow(tables, t, r, row)) && Extends(tables, WithRow(tables, t, r, row))
  {
    var tables' := WithRow(tables, t, r, row);
    forall i | 0 <= i < |tables| ensures ExtendsTable(tables[i], tables'[i]) && ShapedTable(cfg, tables'[i], |tables|) {
      assert ShapedTable(cfg, tables[i], |tables|);
    }
  }

  /** Storing a key in an empty cell. */
  function Claim(tables: seq<Table>, t: nat, r: nat, c: nat, key: Key): seq<Table>
    requires t < |tables| && r < |tables[t].rows| && c < |tables[t].rows[r].cells|
  {
    var row := tables[t].rows[r];
    WithRow(tables, t, r, row.(cells := row.cells[c := Holds(key)]))
  }

  /** Linking a table of the next level. */
  function SetNext(tables: seq<Table>, t: nat, r: nat, next: nat): seq<Table>
    requires t < |tables| && r < |tables[t].rows|
  {
    WithRow(tables, t, r, tables[t].rows[r].(next := To(next)))
  }

  function EmptyTable(cfg: Config, base: nat): Table {
    Table(base, seq(Rows(cfg), i => Row(seq(cfg.cells, j => Empty), Null)))
  }

  /** Claiming the first empty cell on a key's walk keeps the walking order. */
  lemma ClaimKeeps(cfg: Config, tables: seq<Table>, key: Key, level: nat, t: nat, r: nat, c: nat)
    requires Shaped(cfg, tables) && WalkInv(cfg, tables) && IsKey(key)
    requires t < |tables| && r < |tables[t].rows| && c < cfg.cells && c < |tables[t].rows[r].cells|
    requires OnWalk(cfg, tables, key, level, t, r, c) && tables[t].rows[r].cells[c].Empty?
    ensures var tables' := Claim(tables, t, r, c, key);
            Shaped(cfg, tables') && WalkInv(cfg, tables') && Extends(tables, tables') && HasKey(tables', t, r, c, key)
  {
    var tables' := Claim(tables, t, r, c, key);
    ShapeAt(cfg, tables, t, r);
    RowChange(cfg, tables, t, r, tables'[t].rows[r]);
    OnWalkKept(cfg, tables, tables', key, level, t, r, c);
    assert KeyPlaced(cfg, tables', key, t, r, c);
    WalkInvKept(cfg, tables, tables');
  }

  lemma SetNextKeeps(cfg: Config, tables: seq<Table>, t: nat, r: nat, next: nat)
    requires Shaped(cfg, tables) && WalkInv(cfg, tables)
    requires t < |tables| && r < |tables[t].rows| && next < |tables| && tables[t].rows[r].next.Null?
    ensures var tables' := SetNext(tables, t, r, next);
            Shaped(cfg, tables') && WalkInv(cfg, tables') && Extends(tables, tables')
  {
    var tables' := SetNext(tables, t, r, next);
    ShapeAt(cfg, tables, t, r);
    RowChange(cfg, tables, t, r, tables'[t].rows[r]);
    WalkInvKept(cfg, tables, tables');
  }

  lemma AppendKeeps(cfg: Config, tables: seq<Table>, base: nat)
    requires Shaped(cfg, tables) && WalkInv(cfg, tables)
    ensures var tables' := tables + [EmptyTable(cfg, base)];
            Shaped(cfg, tables') && WalkInv(cfg, tables') && Extends(tables, tables')
  {
    var tables' := tables + [EmptyTable(cfg, base)];
    forall i | 0 <= i < |tables'| ensures ShapedTable(cfg, tables'[i], |tables'|) {
      if i < |tables| {
        assert ShapedTable(cfg, tables[i], |tables|);
      }
    }
    WalkInvKept(cfg, tables, tables');
  }

  lemma RootKeeps(cfg: Config)
    requires Sensible(cfg)
    ensures Shaped(cfg, [EmptyTable(cfg, 1)]) && WalkInv(cfg, [EmptyTable(cfg, 1)]) && BasesInv(cfg, [EmptyTable(cfg,
        1)])
  {
    assert ShapedTable(cfg, EmptyTable(cfg, 1), 1);
    assert Times(Capacity(cfg), 0) == 0;
  }

  // ---------------------------------------------------------------------------------------
  // Cell numbers
  // ---------------------------------------------------------------------------------------

  /** DictTable::index, before truncation to 32 bits. */
  function Index(cfg: Config, base: nat, r: nat, c: nat): nat {
    base + Times(c, Rows(cfg)) + r
  }

  /** Cell and row are read back from a number: the row is in the low bits, under the cell. */
  lemma IndexDecodes(cfg: Config, base: nat, r: nat, c: nat)
    requires r < Rows(cfg)
    ensures Rem(Index(cfg, base, r, c) - base, Rows(cfg)) == r && Quot(Index(cfg, base, r, c) - base, Rows(cfg)) == c
  {
    RemainderUnique(Times(c, Rows(cfg)) + r, Rows(cfg), c, r);
  }

  /** Bases are handed out in steps of the table capacity, starting at 1, also to tables that
      are later discarded. */
  ghost predicate BasesInv(cfg: Config, tables: seq<Table>) {
    forall t :: 0 <= t < |tables| ==> tables[t].base == 1 + Times(Capacity(cfg), t)
  }

  /** Inside a table the cells are numbered 0, 1, ... without collision. */
  lemma OffsetRange(cfg: Config, r: nat, c: nat)
    requires r < Rows(cfg) && c < cfg.cells
    ensures Times(c, Rows(cfg)) + r < Capacity(cfg)
  {
    RangeOf(Rows(cfg), cfg.cells, r, c);
  }

  lemma RangeOf(rows: nat, cells: nat, r: nat, c: nat)
    requires r < rows && c < cells
    ensures c * rows + r < rows * cells
  {
    assert rows * cells == (cells - c) * rows + c * rows;
    MulAtLeast(cells - c, rows);
  }

  lemma OffsetsDiffer(cfg: Config, r: nat, c: nat, r': nat, c': nat)
    requires r < Rows(cfg) && r' < Rows(cfg) && Times(c, Rows(cfg)) + r == Times(c', Rows(cfg)) + r'
    ensures r == r' && c == c'
  {
    var x := c * Rows(cfg) + r;
    RemainderUnique(x, Rows(cfg), c, r);
    RemainderUnique(x, Rows(cfg), c', r');
  }

  /** Different cells, in whatever tables, have different numbers, none of them 0. */
  lemma IndicesDiffer(cfg: Config, tables: seq<Table>, t: nat, r: nat, c: nat, t': nat, r': nat, c': nat)
    requires BasesInv(cfg, tables) && t < |tables| && t' < |tables|
    requires r < Rows(cfg) && r' < Rows(cfg) && c < cfg.cells && c' < cfg.cells
    ensures Index(cfg, tables[t].base, r, c) == Index(cfg, tables[t'].base, r', c') ==> t == t' && r == r' && c == c'
    ensures 1 <= Index(cfg, tables[t].base, r, c) < 1 + Times(Capacity(cfg), t) + Capacity(cfg)
  {
    hide Rows;
    OffsetRange(cfg, r, c);
    OffsetRange(cfg, r', c');
    if Index(cfg, tables[t].base, r, c) == Index(cfg, tables[t'].base, r', c') {
      var o, o', n := Times(c, Rows(cfg)) + r, Times(c', Rows(cfg)) + r', Capacity(cfg);
      hide Capacity;
      assert n * t + o == n * t' + o';
      assert t * n == n * t && t' * n == n * t';
      RemainderUnique(n * t + o, n, t, o);
      RemainderUnique(n * t + o, n, t', o');
      OffsetsDiffer(cfg, r, c, r', c');
    }
  }
}
