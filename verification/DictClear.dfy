/** What clearing a dictionary gives back: the keys and tables below a table, each once. */
module DictClear {
  import opened DictTree
  import opened DictOwners
  import opened DictMap

  ghost predicate Distinct<T>(s: seq<T>) {
    forall i, j :: 0 <= i < j < |s| ==> s[i] != s[j]
  }

  lemma DistinctConcat<T>(a: seq<T>, b: seq<T>)
    requires Distinct(a) && Distinct(b) && forall x :: x in a ==> x !in b
    ensures Distinct(a + b)
  {
    forall i, j | 0 <= i < j < |a + b| ensures (a + b)[i] != (a + b)[j] {
      if i < |a| <= j {
        assert a[i] in a && b[j - |a|] in b;
      }
    }
  }

  /** Where a key is: table, row and cell. */
  type Place = (nat, nat, nat)

  /** Table `u` hangs below one of the first `i` rows of `t`. */
  ghost predicate BelowFirst(tables: seq<Table>, t: nat, i: nat, u: nat) {
    exists r: nat, v: nat :: r < i && BelowRow(tables, t, r, v, u)
  }

  /** The tables below `t`, each once. */
  ghost predicate TablesFreed(tables: seq<Table>, t: nat, freed: seq<nat>) {
    Distinct(freed) && forall u :: u in freed <==> u != t && Below(tables, t, u)
  }

  /** The places of all keys in `t` and below, each once. */
  ghost predicate KeysFreed(tables: seq<Table>, t: nat, freed: seq<Place>) {
    Distinct(freed) && forall u: nat, r: nat, c: nat ::
      (u, r, c) in freed <==> FullAt(tables, u, r, c) && Below(tables, t, u)
  }

  ghost predicate TablesUpTo(tables: seq<Table>, t: nat, i: nat, freed: seq<nat>) {
    Distinct(freed) && forall u :: u in freed <==> BelowFirst(tables, t, i, u)
  }

  ghost predicate KeysUpTo(tables: seq<Table>, t: nat, i: nat, freed: seq<Place>) {
    Distinct(freed) && forall u: nat, r: nat, c: nat ::
      (u, r, c) in freed <==> FullAt(tables, u, r, c) && ((u == t && r < i) || BelowFirst(tables, t, i, u))
  }

  /** The places of the keys in the first `j` cells of a row. */
  ghost predicate RowFreed(tables: seq<Table>, t: nat, i: nat, j: nat, freed: seq<Place>) {
    Distinct(freed) && forall u: nat, r: nat, c: nat ::
      (u, r, c) in freed <==> FullAt(tables, u, r, c) && u == t && r == i && c < j
  }

  lemma {:induction false} BelowIsLater(tables: seq<Table>, t: nat, u: nat)
    requires Below(tables, t, u)
    ensures t <= u
    decreases |tables| - t
  {
    BelowByRow(tables, t, u);
    if t != u {
      var r: nat, v: nat :| BelowRow(tables, t, r, v, u);
      BelowIsLater(tables, v, u);
    }
  }

  /** A table below another hangs on a table below it. */
  lemma {:induction false} BelowHangs(tables: seq<Table>, t: nat, u: nat) returns (p: nat, r: nat)
    requires Below(tables, t, u) && t != u
    ensures Below(tables, t, p) && LinkAt(tables, p, r, u) && p < u
    decreases |tables| - t
  {
    BelowByRow(tables, t, u);
    var q: nat, v: nat :| BelowRow(tables, t, q, v, u);
    if v == u {
      p, r := t, q;
    } else {
      p, r := BelowHangs(tables, v, u);
      assert Below(tables, t, p);
    }
  }

  /** Of two tables that one hangs below, one hangs below the other. */
  lemma {:induction false} OneAboveOther(tables: seq<Table>, a: nat, b: nat, u: nat)
    requires TreeOrder(tables) && Below(tables, a, u) && Below(tables, b, u)
    ensures Below(tables, a, b) || Below(tables, b, a)
    decreases u
  {
    if u != a && u != b {
      var p, r := BelowHangs(tables, a, u);
      var p', r' := BelowHangs(tables, b, u);
      assert p == p';
      hide TreeOrder, Below;
      OneAboveOther(tables, a, b, p);
    }
  }

  /** A table hangs below one row of `t` only. */
  lemma RowsApart(tables: seq<Table>, t: nat, r: nat, v: nat, r': nat, v': nat, u: nat)
    requires TreeOrder(tables) && BelowRow(tables, t, r, v, u) && BelowRow(tables, t, r', v', u)
    ensures r == r' && v == v'
  {
    OneAboveOther(tables, v, v', u);
    if v != v' {
      if Below(tables, v, v') {
        ChildNotBelow(tables, t, r', v', v);
      } else {
        ChildNotBelow(tables, t, r, v, v');
      }
    }
  }

  lemma ChildNotBelow(tables: seq<Table>, t: nat, r: nat, v: nat, w: nat)
    requires TreeOrder(tables) && LinkAt(tables, t, r, v) && t < w && w != v
    ensures !Below(tables, w, v)
  {
    if Below(tables, w, v) {
      var p, q := BelowHangs(tables, w, v);
      BelowIsLater(tables, w, p);
    }
  }

  lemma NothingYet(tables: seq<Table>, t: nat)
    ensures TablesUpTo(tables, t, 0, []) && KeysUpTo(tables, t, 0, [])
  {
  }

  /** Another row and what hangs on it. */
  lemma NextRowTables(tables: seq<Table>, t: nat, i: nat, freed: seq<nat>, next: nat, more: seq<nat>)
    requires TreeOrder(tables) && TablesUpTo(tables, t, i, freed) && LinkAt(tables, t, i, next)
    requires TablesFreed(tables, next, more)
    ensures TablesUpTo(tables, t, i + 1, freed + (more + [next]))
  {
    assert t < next < |tables|;
    assert Below(tables, next, next);
    forall u | u in more + [next] ensures u !in freed && BelowRow(tables, t, i, next, u) {
      RowOnce(tables, t, i, next, u);
    }
    hide TreeOrder, Below;
    DistinctConcat(more, [next]);
    DistinctConcat(freed, more + [next]);
    forall u ensures u in freed + (more + [next]) <==> BelowFirst(tables, t, i + 1, u) {
      FirstGrows(tables, t, i, u);
      NextOnly(tables, t, i, next, u);
    }
  }

  lemma RowOnce(tables: seq<Table>, t: nat, i: nat, next: nat, u: nat)
    requires TreeOrder(tables) && LinkAt(tables, t, i, next) && t < next < |tables| && Below(tables, next, u)
    ensures BelowRow(tables, t, i, next, u) && !BelowFirst(tables, t, i, u) && u != t
  {
    BelowIsLater(tables, next, u);
    if BelowFirst(tables, t, i, u) {
      var r: nat, v: nat :| r < i && BelowRow(tables, t, r, v, u);
      RowsApart(tables, t, r, v, i, next, u);
    }
  }

  lemma FirstGrows(tables: seq<Table>, t: nat, i: nat, u: nat)
    ensures BelowFirst(tables, t, i + 1, u)
        <==> BelowFirst(tables, t, i, u) || exists v: nat :: BelowRow(tables, t, i, v, u)
  {
    hide BelowRow;
    if BelowFirst(tables, t, i + 1, u) {
      var r: nat, v: nat :| r < i + 1 && BelowRow(tables, t, r, v, u);
      assert r < i || BelowRow(tables, t, i, v, u);
    }
  }

  lemma NextOnly(tables: seq<Table>, t: nat, i: nat, next: nat, u: nat)
    requires LinkAt(tables, t, i, next) && t < next < |tables|
    ensures (exists v: nat :: BelowRow(tables, t, i, v, u)) <==> Below(tables, next, u)
  {
    if Below(tables, next, u) {
      assert BelowRow(tables, t, i, next, u);
    }
  }

  lemma NextRowKeys(tables: seq<Table>, t: nat, i: nat, freed: seq<Place>, row: seq<Place>, next: nat, more: seq<Place>)
    requires TreeOrder(tables) && t < |tables| && i < |tables[t].rows| && KeysUpTo(tables, t, i, freed)
    requires RowFreed(tables, t, i, |tables[t].rows[i].cells|, row)
    requires LinkAt(tables, t, i, next) && KeysFreed(tables, next, more)
    ensures KeysUpTo(tables, t, i + 1, freed + row + more)
  {
    assert t < next < |tables|;
    NothingAbove(tables, t, i);
    forall x | x in freed ensures x !in row {
      assert x == (x.0, x.1, x.2);
    }
    DistinctConcat(freed, row);
    forall x | x in freed + row ensures x !in more {
      if x in more {
        RowOnce(tables, t, i, next, x.0);
      }
    }
    hide TreeOrder, Below;
    DistinctConcat(freed + row, more);
    forall u: nat, r: nat, c: nat
      ensures (u, r, c) in freed + row + more
          <==> FullAt(tables, u, r, c) && ((u == t && r < i + 1) || BelowFirst(tables, t, i + 1, u))
    {
      FirstGrows(tables, t, i, u);
      NextOnly(tables, t, i, next, u);
    }
  }

  lemma NothingAbove(tables: seq<Table>, t: nat, i: nat)
    ensures !BelowFirst(tables, t, i, t)
  {
    if BelowFirst(tables, t, i, t) {
      var r: nat, v: nat :| r < i && BelowRow(tables, t, r, v, t);
      BelowIsLater(tables, v, t);
    }
  }

  /** A row on which nothing hangs. */
  lemma LastRow(tables: seq<Table>, t: nat, i: nat, tabs: seq<nat>, freed: seq<Place>, row: seq<Place>)
    requires t < |tables| && i < |tables[t].rows| && tables[t].rows[i].next.Null?
    requires TablesUpTo(tables, t, i, tabs) && KeysUpTo(tables, t, i, freed)
    requires RowFreed(tables, t, i, |tables[t].rows[i].cells|, row)
    ensures TablesUpTo(tables, t, i + 1, tabs) && KeysUpTo(tables, t, i + 1, freed + row)
  {
    NothingAbove(tables, t, i);
    forall u: nat ensures BelowFirst(tables, t, i + 1, u) <==> BelowFirst(tables, t, i, u) {
      FirstGrows(tables, t, i, u);
    }
    hide BelowFirst;
    forall x | x in freed ensures x !in row {
      assert x == (x.0, x.1, x.2);
    }
    DistinctConcat(freed, row);
  }

  lemma AllRowsFreed(tables: seq<Table>, t: nat, tabs: seq<nat>, freed: seq<Place>)
    requires t < |tables| && TablesUpTo(tables, t, |tables[t].rows|, tabs)
    requires KeysUpTo(tables, t, |tables[t].rows|, freed)
    ensures TablesFreed(tables, t, tabs) && KeysFreed(tables, t, freed)
  {
    NothingAbove(tables, t, |tables[t].rows|);
    forall u: nat ensures u != t && Below(tables, t, u) <==> BelowFirst(tables, t, |tables[t].rows|, u) {
      if Below(tables, t, u) {
        BelowByRow(tables, t, u);
        if u != t {
          var r: nat, v: nat :| BelowRow(tables, t, r, v, u);
          assert r < |tables[t].rows|;
        }
      }
    }
    assert Below(tables, t, t);
    hide Below, BelowFirst;
  }

  /** Below the root is everything: every key and every other table is freed, once. */
  lemma RootFreesAll(tables: seq<Table>, tabs: seq<nat>, freed: seq<Place>)
    requires TreeOrder(tables) && |tables| > 0 && TablesFreed(tables, 0, tabs) && KeysFreed(tables, 0, freed)
    ensures Distinct(tabs) && forall u :: u in tabs <==> 0 < u < |tables|
    ensures Distinct(freed) && forall x :: x in freed <==> x in Filled(tables)
  {
    forall u: nat | u < |tables| ensures Below(tables, 0, u) {
      AllBelowRoot(tables, u);
    }
    forall u: nat | 0 != u && Below(tables, 0, u) ensures u < |tables| {
      var p, r := BelowHangs(tables, 0, u);
    }
    forall x: Place ensures x in freed <==> x in Filled(tables) {
      assert x == (x.0, x.1, x.2);
    }
    hide Below, TreeOrder;
  }
}
