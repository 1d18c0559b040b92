/** What becomes of every table that racing lookups allocate: it is linked into the tree exactly
    once, or discarded by the thread that lost the race, or still in the hands of the one thread
    that made it. Also the count of filled cells behind `_size`. */
module DictOwners {
  import opened Sums
  import opened DictTree
  import opened DictRace

  ghost predicate LinkAt(tables: seq<Table>, u: nat, r: nat, m: nat) {
    u < |tables| && r < |tables[u].rows| && tables[u].rows[r].next == To(m)
  }

  ghost predicate Linked(tables: seq<Table>, m: nat) {
    exists u: nat, r: nat :: LinkAt(tables, u, r, m)
  }

  /** Thread `i` has made table `m` and not yet tried to link it. */
  predicate Owns(threads: seq<Pc>, i: nat, m: nat) {
    i < |threads| && threads[i].CasNext? && threads[i].made == m
  }

  /** A linked table hangs in one row only, is not table 0 and has not been freed. */
  ghost predicate LinksInv(h: Heap) {
    && (forall u: nat, r: nat, m: nat :: LinkAt(h.tables, u, r, m) ==> 0 < m < |h.tables| && m !in h.freed)
    && (forall u: nat, r: nat, u': nat, r': nat, m: nat ::
          LinkAt(h.tables, u, r, m) && LinkAt(h.tables, u', r', m) ==> u == u' && r == r')
    && (forall m :: m in h.freed ==> 0 < m < |h.tables|)
  }

  /** A table in the hands of a thread is nobody else's, not linked and not freed. */
  ghost predicate OwnersInv(h: Heap, threads: seq<Pc>) {
    && (forall i: nat, m: nat :: Owns(threads, i, m) ==>
          0 < m < |h.tables| && m !in h.freed && !Linked(h.tables, m))
    && (forall i: nat, j: nat, m: nat :: Owns(threads, i, m) && Owns(threads, j, m) ==> i == j)
  }

  ghost predicate Owned(threads: seq<Pc>, m: nat) {
    exists i: nat :: Owns(threads, i, m)
  }

  ghost predicate FateKnown(h: Heap, threads: seq<Pc>, m: nat) {
    Linked(h.tables, m) || m in h.freed || Owned(threads, m)
  }

  /** No table is lost. */
  ghost predicate FatesInv(h: Heap, threads: seq<Pc>) {
    forall m: nat :: 0 < m < |h.tables| ==> FateKnown(h, threads, m)
  }

  ghost predicate FateInv(h: Heap, threads: seq<Pc>) {
    LinksInv(h) && OwnersInv(h, threads) && FatesInv(h, threads)
  }

  /** A step that neither makes, links nor frees a table. */
  lemma FatesUntouched(h: Heap, threads: seq<Pc>, h': Heap, threads': seq<Pc>, i: nat)
    requires FateInv(h, threads) && i < |threads| == |threads'| && threads' == threads[i := threads'[i]]
    requires !threads[i].CasNext? && !threads'[i].CasNext?
    requires |h'.tables| == |h.tables| && h'.freed == h.freed
    requires forall u: nat, r: nat, m: nat :: LinkAt(h'.tables, u, r, m) <==> LinkAt(h.tables, u, r, m)
    ensures FateInv(h', threads')
  {
    assert LinksInv(h') by {
      forall u: nat, r: nat, m: nat | LinkAt(h'.tables, u, r, m) ensures 0 < m < |h'.tables| && m !in h'.freed {
        assert LinkAt(h.tables, u, r, m);
      }
      forall u: nat, r: nat, u': nat, r': nat, m: nat | LinkAt(h'.tables, u, r, m) && LinkAt(h'.tables, u', r', m)
        ensures u == u' && r == r'
      {
        assert LinkAt(h.tables, u, r, m) && LinkAt(h.tables, u', r', m);
      }
    }
    forall m: nat ensures Linked(h'.tables, m) <==> Linked(h.tables, m) {
      if Linked(h.tables, m) {
        var u: nat, r: nat :| LinkAt(h.tables, u, r, m);
        assert LinkAt(h'.tables, u, r, m);
      }
      if Linked(h'.tables, m) {
        var u: nat, r: nat :| LinkAt(h'.tables, u, r, m);
        assert LinkAt(h.tables, u, r, m);
      }
    }
    OwnersShrink(h, threads, h', threads', i);
    forall m: nat | 0 < m < |h'.tables| ensures FateKnown(h', threads', m) {
      assert FateKnown(h, threads, m);
      OwnedKept(threads, threads', i, m);
    }
  }

  lemma OwnersShrink(h: Heap, threads: seq<Pc>, h': Heap, threads': seq<Pc>, i: nat)
    requires OwnersInv(h, threads) && i < |threads| == |threads'| && threads' == threads[i := threads'[i]]
    requires !threads'[i].CasNext? && |h'.tables| == |h.tables|
    requires forall m: nat ::
               m in h'.freed || Linked(h'.tables, m) ==> m in h.freed || Linked(h.tables, m) || Owns(threads, i, m)
    ensures OwnersInv(h', threads')
  {
    forall j: nat, m: nat | Owns(threads', j, m)
      ensures Owns(threads, j, m) && 0 < m < |h'.tables| && m !in h'.freed && !Linked(h'.tables, m)
    {
      assert threads'[j] == threads[j];
      assert Owns(threads, j, m);
    }
  }

  lemma OwnedKept(threads: seq<Pc>, threads': seq<Pc>, i: nat, m: nat)
    requires i < |threads| == |threads'| && threads' == threads[i := threads'[i]] && !Owns(threads, i, m)
    ensures Owned(threads, m) ==> Owned(threads', m)
  {
    if Owned(threads, m) {
      var j: nat :| Owns(threads, j, m);
      assert Owns(threads', j, m);
    }
  }

  /** Making a table gives it to its maker. */
  lemma MakeFate(cfg: Config, h: Heap, threads: seq<Pc>, h': Heap, threads': seq<Pc>, i: nat)
    requires TreeInv(cfg, h) && FateInv(h, threads) && i < |threads| == |threads'| && threads'
        == threads[i := threads'[i]]
    requires threads[i].MakeTable? && LevelStep(cfg, h, threads[i], h', threads'[i])
    ensures FateInv(h', threads')
  {
    var n := |h.tables|;
    forall u: nat, r: nat, m: nat ensures LinkAt(h'.tables, u, r, m) <==> LinkAt(h.tables, u, r, m) {
      NewTableLinksNothing(cfg, h, h', u, r, m);
    }
    hide TreeInv, LevelStep;
    assert Owns(threads', i, n);
    forall m: nat ensures Linked(h'.tables, m) <==> Linked(h.tables, m) {
      if Linked(h.tables, m) {
        var u: nat, r: nat :| LinkAt(h.tables, u, r, m);
        assert LinkAt(h'.tables, u, r, m);
      }
    }
    assert !Linked(h.tables, n);
    forall j: nat, m: nat ensures Owns(threads', j, m) <==> Owns(threads, j, m) || (j == i && m == n) {
    }
    assert LinksInv(h');
    assert OwnersInv(h', threads');
    forall m: nat | 0 < m < |h'.tables| ensures FateKnown(h', threads', m) {
      if m < n {
        assert FateKnown(h, threads, m);
        OwnedKept(threads, threads', i, m);
      } else {
        assert Owned(threads', m);
      }
    }
  }

  lemma NewTableLinksNothing(cfg: Config, h: Heap, h': Heap, u: nat, r: nat, m: nat)
    requires h'.tables == h.tables + [EmptyTable(cfg, h.baseIndex + Capacity(cfg))]
    ensures LinkAt(h'.tables, u, r, m) <==> LinkAt(h.tables, u, r, m)
  {
  }

  /** The race for a row's link: the winner's table becomes part of the tree, the loser's is
      freed, once. */
  lemma CasFate(cfg: Config, h: Heap, threads: seq<Pc>, h': Heap, threads': seq<Pc>, i: nat)
    requires FateInv(h, threads) && i < |threads| == |threads'| && threads' == threads[i := threads'[i]]
    requires threads[i].CasNext? && LevelStep(cfg, h, threads[i], h', threads'[i])
    ensures FateInv(h', threads') && threads[i].made !in h.freed
    ensures Linked(h'.tables, threads[i].made) || threads[i].made in h'.freed
  {
    var made := threads[i].made;
    var t, r := threads[i].t, RowAt(cfg, threads[i].key, threads[i].level);
    assert Owns(threads, i, made);
    var won := h.tables[t].rows[r].next.Null?;
    forall u: nat, q: nat, m: nat
      ensures LinkAt(h'.tables, u, q, m) <==> LinkAt(h.tables, u, q, m) || (won && u == t && q == r && m == made)
    {
    }
    hide LevelStep;
    forall m: nat ensures Linked(h'.tables, m) <==> Linked(h.tables, m) || (won && m == made) {
      if Linked(h.tables, m) {
        var u: nat, q: nat :| LinkAt(h.tables, u, q, m);
        assert LinkAt(h'.tables, u, q, m);
      }
      if won && m == made {
        assert LinkAt(h'.tables, t, r, m);
      }
    }
    CasLinks(h, threads, h', threads', i, won, t, r);
    forall m: nat | 0 < m < |h'.tables| ensures FateKnown(h', threads', m) {
      assert FateKnown(h, threads, m);
      if m != made {
        OwnedKept(threads, threads', i, m);
      }
    }
  }

  lemma CasLinks(h: Heap, threads: seq<Pc>, h': Heap, threads': seq<Pc>, i: nat, won: bool, t: nat, r: nat)
    requires FateInv(h, threads) && i < |threads| == |threads'| && threads' == threads[i := threads'[i]]
    requires threads[i].CasNext? && !threads'[i].CasNext? && Owns(threads, i, threads[i].made)
    requires |h'.tables| == |h.tables| && h'.freed == if won then h.freed else h.freed + {threads[i].made}
    requires forall u: nat, q: nat, m: nat ::
               LinkAt(h'.tables, u, q, m) <==>
               LinkAt(h.tables, u, q, m) || (won && u == t && q == r && m == threads[i].made)
    requires forall m: nat :: Linked(h'.tables, m) <==> Linked(h.tables, m) || (won && m == threads[i].made)
    ensures LinksInv(h') && OwnersInv(h', threads')
  {
    var made := threads[i].made;
    assert !Linked(h.tables, made);
    forall u: nat, q: nat | LinkAt(h.tables, u, q, made) ensures false {
      assert Linked(h.tables, made);
    }
    OwnersShrink(h, threads, h', threads', i);
  }

  // ---------------------------------------------------------------------------------------
  // Tables in use
  // ---------------------------------------------------------------------------------------

  /** Whatever a walk reaches is table 0 or linked, so it has not been freed. */
  lemma ReachedIsAlive(cfg: Config, h: Heap, key: Key, level: nat)
    requires Sensible(cfg) && LinksInv(h) && TableAt(cfg, h.tables, key, level).To?
    ensures TableAt(cfg, h.tables, key, level).table !in h.freed
  {
    if level > 0 {
      var up := TableAt(cfg, h.tables, key, level - 1);
      assert LinkAt(h.tables, up.table, RowAt(cfg, key, level - 1), TableAt(cfg, h.tables, key, level).table);
    }
  }

  /** A discarded table never holds a key. */
  lemma FreedHoldsNothing(cfg: Config, h: Heap, t: nat, r: nat, c: nat, key: Key)
    requires TreeInv(cfg, h) && LinksInv(h) && HasKey(h.tables, t, r, c, key)
    ensures t !in h.freed
  {
    assert KeyPlaced(cfg, h.tables, key, t, r, c);
    var level: nat :| OnWalk(cfg, h.tables, key, level, t, r, c);
    ReachedIsAlive(cfg, h, key, level);
  }

  // ---------------------------------------------------------------------------------------
  // Counting filled cells
  // ---------------------------------------------------------------------------------------

  predicate FullAt(tables: seq<Table>, t: nat, r: nat, c: nat) {
    t < |tables| && r < |tables[t].rows| && c < |tables[t].rows[r].cells| && tables[t].rows[r].cells[c].Holds?
  }

  ghost function Filled(tables: seq<Table>): (f: set<(nat, nat, nat)>)
    ensures forall t: nat, r: nat, c: nat :: (t, r, c) in f <==> FullAt(tables, t, r, c)
  {
    set t: nat, r: nat, c: nat
      | t < |tables| && r < |tables[t].rows| && c < |tables[t].rows[r].cells| && FullAt(tables, t, r, c) :: (t, r, c)
  }

  lemma SameFilled(tables: seq<Table>, tables': seq<Table>)
    requires forall t: nat, r: nat, c: nat :: FullAt(tables', t, r, c) <==> FullAt(tables, t, r, c)
    ensures Filled(tables') == Filled(tables)
  {
  }

  lemma ClaimFills(tables: seq<Table>, t: nat, r: nat, c: nat, key: Key)
    requires t < |tables| && r < |tables[t].rows| && c < |tables[t].rows[r].cells| && tables[t].rows[r].cells[c].Empty?
    ensures |Filled(Claim(tables, t, r, c, key))| == |Filled(tables)| + 1
  {
    var tables' := Claim(tables, t, r, c, key);
    forall u: nat, s: nat, d: nat
      ensures FullAt(tables', u, s, d) <==> FullAt(tables, u, s, d) || (u, s, d) == (t, r, c)
    {
      ClaimedFull(tables, t, r, c, key, u, s, d);
    }
    assert !FullAt(tables, t, r, c);
    hide Claim, FullAt;
    assert Filled(tables') == Filled(tables) + {(t, r, c)};
  }

  lemma ClaimedFull(tables: seq<Table>, t: nat, r: nat, c: nat, key: Key, u: nat, s: nat, d: nat)
    requires t < |tables| && r < |tables[t].rows| && c < |tables[t].rows[r].cells|
    ensures FullAt(Claim(tables, t, r, c, key), u, s, d) <==> FullAt(tables, u, s, d) || (u, s, d) == (t, r, c)
  {
  }

  function Counting(pc: Pc): int {
    if pc.CountKey? then 1 else 0
  }

  /** `_size` lags behind the filled cells by the threads that are about to increment it. */
  ghost predicate SizeInv(h: Heap, threads: seq<Pc>) {
    |Filled(h.tables)| == h.size + Total(Counting, threads)
  }

  /** The keys in the dictionary. */
  ghost function KeysOf(tables: seq<Table>, cells: set<(nat, nat, nat)>): set<Key>
    requires forall x: (nat, nat, nat) :: x in cells ==> FullAt(tables, x.0, x.1, x.2)
  {
    set x: (nat, nat, nat) | x in cells && FullAt(tables, x.0, x.1, x.2) :: tables[x.0].rows[x.1].cells[x.2].key
  }

  /** No key is stored twice, so there are as many keys as filled cells. */
  lemma {:induction false} KeysCount(cfg: Config, tables: seq<Table>, cells: set<(nat, nat, nat)>)
    requires Sensible(cfg) && WalkInv(cfg, tables)
    requires forall x: (nat, nat, nat) :: x in cells ==> FullAt(tables, x.0, x.1, x.2)
    ensures |KeysOf(tables, cells)| == |cells|
    decreases |cells|
  {
    if cells != {} {
      var x :| x in cells;
      var rest := cells - {x};
      KeysCount(cfg, tables, rest);
      var key := tables[x.0].rows[x.1].cells[x.2].key;
      if key in KeysOf(tables, rest) {
        var y :| y in rest && tables[y.0].rows[y.1].cells[y.2].key == key;
        KeyStoredOnce(cfg, tables, key, x.0, x.1, x.2, y.0, y.1, y.2);
      }
      assert KeysOf(tables, cells) == KeysOf(tables, rest) + {key};
    }
  }
}
