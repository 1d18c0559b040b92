/** The plain map that a dictionary stands for, and its inverse. */
module DictMap {
  import opened Words
  import opened Bits
  import opened DictTree
  import opened DictRace
  import opened DictOwners

  /** The 32-bit number of a cell. */
  function CellId(cfg: Config, tables: seq<Table>, t: nat, r: nat, c: nat): nat
    requires t < |tables|
  {
    Rem(Index(cfg, tables[t].base, r, c), U32)
  }

  ghost predicate Stored(tables: seq<Table>, key: Key) {
    exists t: nat, r: nat, c: nat :: HasKey(tables, t, r, c, key)
  }

  ghost function KeySet(tables: seq<Table>): (keys: set<Key>)
    ensures forall key :: key in keys <==> Stored(tables, key)
  {
    var keys := KeysOf(tables, Filled(tables));
    assert forall key :: key in keys <==> Stored(tables, key) by {
      forall key ensures key in keys <==> Stored(tables, key) {
        if Stored(tables, key) {
          var t: nat, r: nat, c: nat :| HasKey(tables, t, r, c, key);
          assert (t, r, c) in Filled(tables);
        }
        if key in keys {
          var x: (nat, nat, nat) :| x in Filled(tables) && tables[x.0].rows[x.1].cells[x.2].key == key;
          assert HasKey(tables, x.0, x.1, x.2, key);
        }
      }
    }
    keys
  }

  ghost function IdOf(cfg: Config, tables: seq<Table>, key: Key): nat
    requires Stored(tables, key)
  {
    var t: nat, r: nat, c: nat :| HasKey(tables, t, r, c, key);
    CellId(cfg, tables, t, r, c)
  }

  /** The map from keys to ids. */
  ghost function View(cfg: Config, tables: seq<Table>): (view: map<Key, nat>)
    ensures forall key :: key in view <==> Stored(tables, key)
  {
    map key | key in KeySet(tables) :: IdOf(cfg, tables, key)
  }

  lemma ViewAt(cfg: Config, tables: seq<Table>, t: nat, r: nat, c: nat, key: Key)
    requires Sensible(cfg) && WalkInv(cfg, tables) && HasKey(tables, t, r, c, key)
    ensures key in View(cfg, tables) && View(cfg, tables)[key] == CellId(cfg, tables, t, r, c)
  {
    assert Stored(tables, key);
    var t': nat, r': nat, c': nat :| HasKey(tables, t', r', c', key) && IdOf(cfg, tables, key) == CellId(cfg, tables,
        t', r', c');
    KeyStoredOnce(cfg, tables, key, t, r, c, t', r', c');
  }

  /** Two tables with the same keys in the same cells stand for the same map, one new key aside. */
  lemma ViewGrows(cfg: Config, tables: seq<Table>, tables': seq<Table>, t: nat, r: nat, c: nat, key: Key)
    requires Sensible(cfg) && WalkInv(cfg, tables) && WalkInv(cfg, tables') && Extends(tables, tables')
    requires HasKey(tables', t, r, c, key) && !Stored(tables, key)
    requires forall t': nat, r': nat, c': nat, k: Key :: HasKey(tables', t', r', c', k) && k != key ==> HasKey(tables,
        t', r', c', k)
    ensures View(cfg, tables') == View(cfg, tables)[key := CellId(cfg, tables', t, r, c)]
  {
    ViewAt(cfg, tables', t, r, c, key);
    forall k | k != key ensures Stored(tables', k) <==> Stored(tables, k)
      ensures Stored(tables, k) ==> View(cfg, tables')[k] == View(cfg, tables)[k]
    {
      if Stored(tables', k) {
        var t': nat, r': nat, c': nat :| HasKey(tables', t', r', c', k);
        ViewEntryKept(cfg, tables, tables', t', r', c', k);
      } else if Stored(tables, k) {
        var t': nat, r': nat, c': nat :| HasKey(tables, t', r', c', k);
        HasKeyKept(tables, tables', t', r', c', k);
      }
    }
  }

  lemma ViewEntryKept(cfg: Config, tables: seq<Table>, tables': seq<Table>, t: nat, r: nat, c: nat, key: Key)
    requires Sensible(cfg) && WalkInv(cfg, tables) && WalkInv(cfg, tables') && Extends(tables, tables')
    requires HasKey(tables, t, r, c, key)
    ensures Stored(tables, key) && Stored(tables', key) && View(cfg, tables')[key] == View(cfg, tables)[key]
  {
    HasKeyKept(tables, tables', t, r, c, key);
    ExtendsAt(tables, tables', t, r);
    ViewAt(cfg, tables, t, r, c, key);
    ViewAt(cfg, tables', t, r, c, key);
  }

  lemma ViewSame(cfg: Config, tables: seq<Table>, tables': seq<Table>)
    requires Sensible(cfg) && WalkInv(cfg, tables) && WalkInv(cfg, tables') && Extends(tables, tables')
    requires forall t: nat, r: nat, c: nat, k: Key :: HasKey(tables', t, r, c, k) ==> HasKey(tables, t, r, c, k)
    ensures View(cfg, tables') == View(cfg, tables)
  {
    forall k ensures Stored(tables', k) <==> Stored(tables, k)
      ensures Stored(tables, k) ==> View(cfg, tables')[k] == View(cfg, tables)[k]
    {
      if Stored(tables', k) {
        var t: nat, r: nat, c: nat :| HasKey(tables', t, r, c, k);
        ViewEntryKept(cfg, tables, tables', t, r, c, k);
      } else if Stored(tables, k) {
        var t: nat, r: nat, c: nat :| HasKey(tables, t, r, c, k);
        HasKeyKept(tables, tables', t, r, c, k);
      }
    }
  }

  // ---------------------------------------------------------------------------------------
  // Ids are unique
  // ---------------------------------------------------------------------------------------

  lemma CellIdsDiffer(cfg: Config, h: Heap, t: nat, r: nat, c: nat, t': nat, r': nat, c': nat)
    requires TreeInv(cfg, h) && h.baseIndex + Capacity(cfg) <= U32
    requires FullAt(h.tables, t, r, c) && FullAt(h.tables, t', r', c')
    ensures CellId(cfg, h.tables, t, r, c) == CellId(cfg, h.tables, t', r', c') ==> t == t' && r == r' && c == c'
    ensures 0 < CellId(cfg, h.tables, t, r, c) < h.baseIndex + Capacity(cfg)
  {
    CellIdExact(cfg, h, t, r, c);
    CellIdExact(cfg, h, t', r', c');
    IndicesDiffer(cfg, h.tables, t, r, c, t', r', c');
  }

  lemma CellIdExact(cfg: Config, h: Heap, t: nat, r: nat, c: nat)
    requires TreeInv(cfg, h) && h.baseIndex + Capacity(cfg) <= U32 && FullAt(h.tables, t, r, c)
    ensures r < Rows(cfg) && c < cfg.cells
    ensures CellId(cfg, h.tables, t, r, c) == Index(cfg, h.tables[t].base, r, c)
    ensures 0 < Index(cfg, h.tables[t].base, r, c) < h.baseIndex + Capacity(cfg)
  {
    assert ShapedTable(cfg, h.tables[t], |h.tables|);
    assert ShapedRow(cfg, h.tables[t].rows[r], |h.tables|);
    IndicesDiffer(cfg, h.tables, t, r, c, t, r, c);
    TimesMonotone(Capacity(cfg), t, |h.tables| - 1);
    hide Capacity, Rows, Times, Shaped, WalkInv;
    RemSmall(Index(cfg, h.tables[t].base, r, c), U32);
  }

  /** Different keys have different, nonzero ids. */
  lemma ViewInjective(cfg: Config, h: Heap, k: Key, k': Key)
    requires TreeInv(cfg, h) && h.baseIndex + Capacity(cfg) <= U32
    requires k in View(cfg, h.tables) && k' in View(cfg, h.tables)
    ensures View(cfg, h.tables)[k] == View(cfg, h.tables)[k'] <==> k == k'
    ensures 0 < View(cfg, h.tables)[k] < h.baseIndex + Capacity(cfg)
  {
    var t: nat, r: nat, c: nat :| HasKey(h.tables, t, r, c, k);
    var t': nat, r': nat, c': nat :| HasKey(h.tables, t', r', c', k');
    ViewAt(cfg, h.tables, t, r, c, k);
    ViewAt(cfg, h.tables, t', r', c', k');
    CellIdsDiffer(cfg, h, t, r, c, t', r', c');
  }

  /** `m` is the inverse of `view`. */
  ghost predicate Inverse(view: map<Key, nat>, m: map<nat, Key>) {
    KeysDecode(view, m) && IdsDecode(view, m)
  }

  ghost predicate KeysDecode(view: map<Key, nat>, m: map<nat, Key>) {
    forall key :: key in view ==> view[key] in m && m[view[key]] == key
  }

  ghost predicate IdsDecode(view: map<Key, nat>, m: map<nat, Key>) {
    forall id :: id in m ==> m[id] in view && view[m[id]] == id
  }

  lemma {:induction false} InverseSize(view: map<Key, nat>, m: map<nat, Key>)
    requires Inverse(view, m)
    ensures |m| == |view|
    decreases |view|
  {
    if view.Keys == {} {
      assert m.Keys == {};
    } else {
      var key :| key in view;
      var id := view[key];
      assert id in m;
      var view', m' := view - {key}, m - {id};
      assert view'.Keys == view.Keys - {key} && m'.Keys == m.Keys - {id};
      assert |view'| == |view| - 1 && |m'| == |m| - 1;
      InverseSize(view', m');
    }
  }

  lemma ViewSize(cfg: Config, tables: seq<Table>)
    requires Sensible(cfg) && WalkInv(cfg, tables)
    ensures |View(cfg, tables)| == |Filled(tables)|
  {
    KeysCount(cfg, tables, Filled(tables));
    assert View(cfg, tables).Keys == KeySet(tables);
    assert KeySet(tables) == KeysOf(tables, Filled(tables)) by {
      KeySetIsKeysOf(tables);
    }
  }

  lemma KeySetIsKeysOf(tables: seq<Table>)
    ensures KeySet(tables) == KeysOf(tables, Filled(tables))
  {
  }

  // ---------------------------------------------------------------------------------------
  // The shape of a tree built by one thread at a time
  // ---------------------------------------------------------------------------------------

  /** Links lead to tables made later, and every table but the first is linked from one row. */
  ghost predicate TreeOrder(tables: seq<Table>) {
    && (forall u: nat, r: nat, m: nat :: LinkAt(tables, u, r, m) ==> u < m < |tables|)
    && (forall m: nat :: 0 < m < |tables| ==> Linked(tables, m))
    && (forall u: nat, r: nat, u': nat, r': nat, m: nat ::
          LinkAt(tables, u, r, m) && LinkAt(tables, u', r', m) ==> u == u' && r == r')
  }

  /** Table `u` is `t` or hangs below it. */
  ghost predicate Below(tables: seq<Table>, t: nat, u: nat)
    decreases |tables| - t
  {
    t == u || exists r: nat, v: nat :: LinkAt(tables, t, r, v) && t < v < |tables| && Below(tables, v, u)
  }

  ghost predicate BelowRow(tables: seq<Table>, t: nat, r: nat, v: nat, u: nat) {
    LinkAt(tables, t, r, v) && t < v < |tables| && Below(tables, v, u)
  }

  lemma BelowByRow(tables: seq<Table>, t: nat, u: nat)
    requires Below(tables, t, u)
    ensures t == u || exists r: nat, v: nat :: BelowRow(tables, t, r, v, u)
  {
    if t != u {
      var r: nat, v: nat :| LinkAt(tables, t, r, v) && t < v < |tables| && Below(tables, v, u);
      assert BelowRow(tables, t, r, v, u);
    }
  }

  lemma {:induction false} BelowStep(tables: seq<Table>, t: nat, u: nat, r: nat, v: nat)
    requires TreeOrder(tables) && Below(tables, t, u) && LinkAt(tables, u, r, v)
    ensures Below(tables, t, v)
    decreases |tables| - t
  {
    if t == u {
      assert Below(tables, v, v);
    } else {
      BelowByRow(tables, t, u);
      var q: nat, w: nat :| BelowRow(tables, t, q, w, u);
      BelowStep(tables, w, u, r, v);
    }
  }

  lemma {:induction false} AllBelowRoot(tables: seq<Table>, u: nat)
    requires TreeOrder(tables) && u < |tables|
    ensures Below(tables, 0, u)
  {
    if u > 0 {
      assert Linked(tables, u);
      var p: nat, r: nat :| LinkAt(tables, p, r, u);
      AllBelowRoot(tables, p);
      BelowStep(tables, 0, p, r, u);
    }
  }

  /** A key whose walk has met only other keys (or empty cells) up to a missing link is absent. */
  ghost predicate Unmatched(cfg: Config, tables: seq<Table>, key: Key, level: nat, c: nat)
    requires Sensible(cfg)
  {
    forall l: nat, d: nat :: d < cfg.cells && (l < level || (l == level && d < c)) ==> Differs(cfg, tables, key, l, d)
  }

  ghost predicate Differs(cfg: Config, tables: seq<Table>, key: Key, l: nat, d: nat)
    requires Sensible(cfg)
  {
    var at := TableAt(cfg, tables, key, l);
    at.To? ==> !HasKey(tables, at.table, RowAt(cfg, key, l), d, key)
  }

  lemma DiffersHas(cfg: Config, tables: seq<Table>, key: Key, level: nat, c: nat, l: nat, d: nat)
    requires Sensible(cfg) && Unmatched(cfg, tables, key, level, c)
    requires d < cfg.cells && (l < level || (l == level && d < c))
    ensures Differs(cfg, tables, key, l, d)
  {
  }

  lemma {:induction false} WalkIsConnected(cfg: Config, tables: seq<Table>, key: Key, l: nat, level: nat)
    requires Sensible(cfg) && l <= level && TableAt(cfg, tables, key, level).To?
    ensures TableAt(cfg, tables, key, l).To?
    decreases level
  {
    if l < level {
      WalkIsConnected(cfg, tables, key, l, level - 1);
    }
  }

  lemma AbsentAtEnd(cfg: Config, tables: seq<Table>, key: Key, level: nat)
    requires Sensible(cfg) && WalkInv(cfg, tables) && Unmatched(cfg, tables, key, level, cfg.cells)
    requires TableAt(cfg, tables, key, level + 1).Null?
    ensures !Stored(tables, key)
  {
    if Stored(tables, key) {
      var t: nat, r: nat, c: nat :| HasKey(tables, t, r, c, key);
      assert KeyPlaced(cfg, tables, key, t, r, c);
      var l: nat :| OnWalk(cfg, tables, key, l, t, r, c);
      if l <= level {
        DiffersHas(cfg, tables, key, level, cfg.cells, l, c);
      } else {
        WalkIsConnected(cfg, tables, key, level + 1, l);
      }
    }
  }

  /** At an empty cell behind cells with other keys, the key is absent. */
  lemma AbsentAtEmpty(cfg: Config, tables: seq<Table>, key: Key, level: nat, t: nat, c: nat)
    requires Sensible(cfg) && WalkInv(cfg, tables) && OnWalk(cfg, tables, key, level, t, RowAt(cfg, key, level), c)
    requires c < cfg.cells && t < |tables| && RowAt(cfg, key, level) < |tables[t].rows|
    requires c < |tables[t].rows[RowAt(cfg, key, level)].cells|
    requires tables[t].rows[RowAt(cfg, key, level)].cells[c].Empty?
    ensures !Stored(tables, key)
  {
    if Stored(tables, key) {
      var t': nat, r': nat, c': nat :| HasKey(tables, t', r', c', key);
      assert KeyPlaced(cfg, tables, key, t', r', c');
      var l: nat :| OnWalk(cfg, tables, key, l, t', r', c');
      if l < level || (l == level && c' < c) {
        PassedHas(cfg, tables, key, level, c, l, c');
      } else if level < l || c < c' {
        PassedHas(cfg, tables, key, l, c', level, c);
      }
    }
  }
}
