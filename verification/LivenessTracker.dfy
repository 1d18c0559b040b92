/** The table of tracked objects of livenessTracker.cpp, used by one thread at a time. Which
    references still lead to an object is asked of the Java virtual machine: the answers are a
    parameter of each cleanup. References are numbered as they are made; 0 is null. */
module LivenessTracker {
  import opened Words

  /** `info` stands for the fields that are only carried along. */
  datatype Entry = Entry(ref: nat, callTraceId: u32, age: int, info: nat)

  // ---------------------------------------------------------------------------------------
  // Keeping some entries of a list
  // ---------------------------------------------------------------------------------------

  function Keep<T>(xs: seq<T>, flags: seq<bool>): (r: seq<T>)
    requires |flags| == |xs|
    ensures |r| <= |xs|
  {
    if xs == [] then []
    else
      var n := |xs| - 1;
      Keep(xs[..n], flags[..n]) + if flags[n] then [xs[n]] else []
  }

  /** The places of the flags, from the front. */
  function Positions(flags: seq<bool>): (idx: seq<nat>)
    ensures |idx| <= |flags|
  {
    if flags == [] then []
    else
      var n := |flags| - 1;
      Positions(flags[..n]) + if flags[n] then [n] else []
  }

  /** They ascend, and they are exactly the places with a flag. */
  lemma {:induction false} PositionsAscend(flags: seq<bool>)
    ensures forall k, l :: 0 <= k < l < |Positions(flags)| ==> Positions(flags)[k] < Positions(flags)[l]
    ensures forall k :: 0 <= k < |Positions(flags)| ==> Positions(flags)[k] < |flags|
    ensures forall i :: 0 <= i < |flags| ==> (flags[i] <==> i in Positions(flags))
  {
    if flags != [] {
      var n := |flags| - 1;
      var front, f := flags[..n], flags[n];
      PositionsAscend(front);
      var idx, idx0 := Positions(flags), Positions(front);
      assert idx == idx0 + if f then [n] else [];
      hide Positions;
      forall i | 0 <= i < |flags| ensures flags[i] <==> i in idx {
        if i < n {
          assert flags[i] == front[i];
          assert i in idx <==> i in idx0;
        } else {
          assert i !in idx0;
        }
      }
    }
  }

  /** The kept entries are those at the flagged places, in the same order. */
  lemma {:induction false} KeepAtPositions<T>(xs: seq<T>, flags: seq<bool>)
    requires |flags| == |xs|
    ensures |Keep(xs, flags)| == |Positions(flags)|
    ensures forall k :: 0 <= k < |Positions(flags)| ==>
              Positions(flags)[k] < |xs| && Keep(xs, flags)[k] == xs[Positions(flags)[k]]
  {
    if xs != [] {
      var n := |xs| - 1;
      var xs0, flags0, x, f := xs[..n], flags[..n], xs[n], flags[n];
      KeepAtPositions(xs0, flags0);
      var idx, idx0 := Positions(flags), Positions(flags0);
      assert idx == idx0 + if f then [n] else [];
      assert Keep(xs, flags) == Keep(xs0, flags0) + if f then [x] else [];
      hide Positions, Keep;
      forall k | 0 <= k < |idx| ensures idx[k] < |xs| && Keep(xs, flags)[k] == xs[idx[k]] {
        if k < |idx0| {
          assert idx[k] == idx0[k];
        }
      }
    }
  }

  lemma KeepPush<T>(xs: seq<T>, flags: seq<bool>, x: T, f: bool)
    requires |flags| == |xs|
    ensures Keep(xs + [x], flags + [f]) == Keep(xs, flags) + if f then [x] else []
  {
    assert (xs + [x])[..|xs|] == xs && (flags + [f])[..|xs|] == flags;
  }

  function Aged(es: seq<Entry>, d: int): (r: seq<Entry>)
    ensures |r| == |es|
    ensures forall i :: 0 <= i < |es| ==> r[i] == es[i].(age := es[i].age + d)
  {
    seq(|es|, i requires 0 <= i < |es| => es[i].(age := es[i].age + d))
  }

  function Refs(es: seq<Entry>): (r: seq<nat>)
    ensures |r| == |es|
    ensures forall i :: 0 <= i < |es| ==> r[i] == es[i].ref
  {
    seq(|es|, i requires 0 <= i < |es| => es[i].ref)
  }

  /** Which entries are kept: those whose reference still leads to an object. */
  function LiveFlags(es: seq<Entry>, live: set<nat>): (flags: seq<bool>)
    ensures |flags| == |es|
    ensures forall i :: 0 <= i < |es| ==> flags[i] == (es[i].ref != 0 && es[i].ref in live)
  {
    seq(|es|, i requires 0 <= i < |es| => es[i].ref != 0 && es[i].ref in live)
  }

  function DeadFlags(es: seq<Entry>, live: set<nat>): (flags: seq<bool>)
    ensures |flags| == |es|
    ensures forall i :: 0 <= i < |es| ==> flags[i] == !(es[i].ref != 0 && es[i].ref in live)
  {
    seq(|es|, i requires 0 <= i < |es| => !(es[i].ref != 0 && es[i].ref in live))
  }

  /** What is left of the entries, and the references given back, both in order. */
  function Survivors(es: seq<Entry>, live: set<nat>): seq<Entry> {
    Keep(es, LiveFlags(es, live))
  }

  function Dead(es: seq<Entry>, live: set<nat>): seq<nat> {
    Refs(Keep(es, DeadFlags(es, live)))
  }

  lemma SurvivorsPush(es: seq<Entry>, live: set<nat>, e: Entry)
    ensures Survivors(es + [e], live) == Survivors(es, live) + if e.ref != 0 && e.ref in live then [e] else []
    ensures Dead(es + [e], live) == Dead(es, live) + if e.ref != 0 && e.ref in live then [] else [e.ref]
  {
    assert LiveFlags(es + [e], live) == LiveFlags(es, live) + [e.ref != 0 && e.ref in live];
    assert DeadFlags(es + [e], live) == DeadFlags(es, live) + [!(e.ref != 0 && e.ref in live)];
    KeepPush(es, LiveFlags(es, live), e, e.ref != 0 && e.ref in live);
    KeepPush(es, DeadFlags(es, live), e, !(e.ref != 0 && e.ref in live));
  }

  // ---------------------------------------------------------------------------------------
  // References and ages
  // ---------------------------------------------------------------------------------------

  /** How often a reference occurs in a list. */
  function Count(r: nat, xs: seq<nat>): nat {
    if xs == [] then 0 else Count(r, xs[..|xs| - 1]) + if xs[|xs| - 1] == r then 1 else 0
  }

  lemma CountPush(r: nat, xs: seq<nat>, x: nat)
    ensures Count(r, xs + [x]) == Count(r, xs) + if x == r then 1 else 0
  {
    assert (xs + [x])[..|xs|] == xs;
  }

  lemma {:induction false} CountConcat(r: nat, xs: seq<nat>, ys: seq<nat>)
    ensures Count(r, xs + ys) == Count(r, xs) + Count(r, ys)
    decreases |ys|
  {
    if ys == [] {
      assert xs + ys == xs;
    } else {
      var front, y := ys[..|ys| - 1], ys[|ys| - 1];
      CountConcat(r, xs, front);
      assert xs + ys == xs + front + [y];
      CountPush(r, xs + front, y);
    }
  }

  /** A cleanup splits the references into those kept and those given back. */
  lemma {:induction false} CleanupSplitsRefs(r: nat, es: seq<Entry>, live: set<nat>)
    ensures Count(r, Refs(Survivors(es, live))) + Count(r, Dead(es, live)) == Count(r, Refs(es))
    ensures r != 0 && r in live ==> Count(r, Dead(es, live)) == 0
    ensures r !in live || r == 0 ==> Count(r, Refs(Survivors(es, live))) == 0
    decreases |es|
  {
    if es != [] {
      hide Survivors, Dead, Refs, Count;
      var front, e := es[..|es| - 1], es[|es| - 1];
      CleanupSplitsRefs(r, front, live);
      CleanupSplitsPush(r, front, e, live);
      assert es == front + [e];
    }
  }

  lemma CleanupSplitsPush(r: nat, es: seq<Entry>, e: Entry, live: set<nat>)
    ensures var keeps := e.ref != 0 && e.ref in live;
            var one := if e.ref == r then 1 else 0;
            && Count(r, Refs(Survivors(es + [e], live))) == Count(r, Refs(Survivors(es, live))) +
                (if keeps then one else 0)
            && Count(r, Dead(es + [e], live)) == Count(r, Dead(es, live)) + (if keeps then 0 else one)
            && Count(r, Refs(es + [e])) == Count(r, Refs(es)) + one
  {
    hide Survivors, Dead, Refs, Count;
    SurvivorsPush(es, live, e);
    RefsPush(es, e);
    RefsPush(Survivors(es, live), e);
    CountPush(r, Refs(es), e.ref);
    CountPush(r, Refs(Survivors(es, live)), e.ref);
    CountPush(r, Dead(es, live), e.ref);
    assert Survivors(es, live) + [] == Survivors(es, live) && Dead(es, live) + [] == Dead(es, live);
  }

  lemma RefsPush(es: seq<Entry>, e: Entry)
    ensures Refs(es + [e]) == Refs(es) + [e.ref]
  {
  }

  lemma RefsAged(es: seq<Entry>, d: int)
    ensures Refs(Aged(es, d)) == Refs(es)
  {
  }

  /** Every reference made so far is in the table once, or has been given back once, or was lost. */
  ghost predicate RefsInv(es: seq<Entry>, released: seq<nat>, lost: set<nat>, next: nat) {
    forall r: nat :: Count(r, Refs(es)) + Count(r, released) + (if r in lost then 1 else 0)
                     == if 0 < r < next then 1 else 0
  }

  lemma RefsInvAt(es: seq<Entry>, released: seq<nat>, lost: set<nat>, next: nat, r: nat)
    requires RefsInv(es, released, lost, next)
    ensures Count(r, Refs(es)) + Count(r, released) + (if r in lost then 1 else 0) == if 0 < r < next then 1 else 0
  {
  }

  lemma CleanupKeepsRefs(es: seq<Entry>, live: set<nat>, d: int, released: seq<nat>, lost: set<nat>, next: nat)
    requires RefsInv(es, released, lost, next)
    ensures RefsInv(Aged(Survivors(es, live), d), released + Dead(es, live), lost, next)
  {
    RefsAged(Survivors(es, live), d);
    hide Survivors, Dead, Refs, Count, Aged;
    forall r: nat
      ensures Count(r, Refs(Aged(Survivors(es, live), d))) + Count(r, released + Dead(es, live))
              + (if r in lost then 1 else 0) == if 0 < r < next then 1 else 0
    {
      RefsInvAt(es, released, lost, next, r);
      CountConcat(r, released, Dead(es, live));
      CleanupSplitsRefs(r, es, live);
    }
  }

  /** The age of an entry is the epoch reached minus the epoch at which it was tracked. */
  ghost predicate AgesInv(es: seq<Entry>, born: seq<nat>, epoch: nat) {
    |born| == |es| && forall i :: 0 <= i < |es| ==> es[i].age == epoch - born[i]
  }

  /** Ages are advanced by a difference of epochs cut to 32 bits. They stay right exactly if
      nothing is cut off, or nothing is kept. */
  lemma AgingExact(es: seq<Entry>, born: seq<nat>, epoch: nat, next: nat, live: set<nat>)
    requires AgesInv(es, born, epoch) && epoch <= next
    ensures AgesInv(Aged(Survivors(es, live), Int32(next - epoch)), Keep(born, LiveFlags(es, live)), next)
            <==> next - epoch < 0x8000_0000 || Survivors(es, live) == []
  {
    var flags := LiveFlags(es, live);
    KeepAtPositions(es, flags);
    KeepAtPositions(born, flags);
    hide Keep, Positions;
    var kept, left := Survivors(es, live), Keep(born, flags);
    assert forall k :: 0 <= k < |kept| ==> kept[k].age == epoch - left[k];
    if kept != [] {
      var aged := Aged(kept, Int32(next - epoch));
      assert aged[0].age == epoch - left[0] + Int32(next - epoch);
    }
  }

  lemma KeepSameNumber(es: seq<Entry>, born: seq<nat>, live: set<nat>)
    requires |es| == |born|
    ensures |Keep(born, LiveFlags(es, live))| == |Survivors(es, live)|
  {
    KeepAtPositions(es, LiveFlags(es, live));
    KeepAtPositions(born, LiveFlags(es, live));
  }

  lemma AgesPush(es: seq<Entry>, born: seq<nat>, epoch: nat, e: Entry)
    requires AgesInv(es, born, epoch) && e.age == 0
    ensures AgesInv(es + [e], born + [epoch], epoch)
  {
  }

  // ---------------------------------------------------------------------------------------
  // The tracker
  // ---------------------------------------------------------------------------------------

  class LivenessTracker {
    var table: array<Entry>
    var size: nat
    const maxCapacity: nat
    var gcEpoch: nat
    var lastGcEpoch: nat
    /** Weak references made and given back. */
    var nextRef: nat
    var released: seq<nat>
    ghost var lost: set<nat>
    ghost var born: seq<nat>

    ghost predicate Valid()
      reads this, table
    {
      && 0 < table.Length <= maxCapacity && size <= table.Length
      && lastGcEpoch <= gcEpoch && 0 < nextRef
      && |born| == size
      && RefsInv(Entries(), released, lost, nextRef)
    }

    ghost function Entries(): (es: seq<Entry>)
      reads this, table
      requires size <= table.Length
    {
      table[..size]
    }

    ghost predicate AgesRight()
      reads this, table
      requires size <= table.Length
    {
      AgesInv(Entries(), born, lastGcEpoch)
    }

    constructor (initialCapacity: nat, maxCapacity: nat)
      requires maxCapacity > 0 && initialCapacity > 0
      ensures Valid() && AgesRight() && Entries() == [] && fresh(table) && released == [] && lost == {}
      ensures this.maxCapacity == maxCapacity && gcEpoch == lastGcEpoch == 0
      ensures table.Length == if initialCapacity < maxCapacity then initialCapacity else maxCapacity
    {
      var n := if initialCapacity < maxCapacity then initialCapacity else maxCapacity;
      table := new Entry[n](i => Entry(0, 0, 0, 0));
      this.maxCapacity := maxCapacity;
      size, gcEpoch, lastGcEpoch, nextRef := 0, 0, 0, 1;
      released, lost, born := [], {}, [];
    }

    /** onGC */
    method OnGC()
      requires Valid()
      modifies this`gcEpoch
      ensures Valid() && gcEpoch == old(gcEpoch) + 1 && (old(AgesRight()) ==> AgesRight())
    {
      gcEpoch := gcEpoch + 1;
    }

    /** cleanup_table: nothing to do when no collection has happened since the last cleanup,
        unless it is forced. Otherwise the live entries move to the front, in order and older by
        the collections since, and the references of the others are given back. */
    method CleanupTable(forced: bool, live: set<nat>)
      requires Valid()
      modifies this`size, this`lastGcEpoch, this`released, this`born, table
      ensures Valid() && gcEpoch == old(gcEpoch) && lost == old(lost)
      ensures old(gcEpoch == lastGcEpoch) && !forced ==>
                Entries() == old(Entries()) && released == old(released) && lastGcEpoch == old(lastGcEpoch)
                && born == old(born)
      ensures old(gcEpoch != lastGcEpoch) || forced ==>
                && lastGcEpoch == gcEpoch
                && Entries() == Aged(Survivors(old(Entries()), live), Int32(gcEpoch - old(lastGcEpoch)))
                && released == old(released) + Dead(old(Entries()), live)
                && born == Keep(old(born), LiveFlags(old(Entries()), live))
      ensures old(AgesRight()) && gcEpoch - old(lastGcEpoch) < 0x8000_0000 ==> AgesRight()
    {
      var current, target := lastGcEpoch, gcEpoch;
      if target == lastGcEpoch && !forced {
        return;
      }
      hide Survivors, Dead, Aged, Keep, RefsInv, AgesInv, Int32;
      lastGcEpoch := target;
      var diff := Int32(target - current);
      ghost var es := Entries();
      if old(AgesRight()) {
        AgingExact(es, born, current, target, live);
      }
      CleanupKeepsRefs(es, live, diff, released, lost, nextRef);
      KeepSameNumber(es, born, live);
      Compact(diff, live);
      born := Keep(born, LiveFlags(es, live));
    }

    /** The loop of cleanup_table: in place, one pass. */
    method Compact(diff: int, live: set<nat>)
      requires size <= table.Length
      modifies this`size, this`released, table
      ensures size <= table.Length
      ensures Entries() == Aged(Survivors(old(Entries()), live), diff)
      ensures released == old(released) + Dead(old(Entries()), live)
      ensures forall k :: size <= k < old(size) ==> table[k].ref == 0 && table[k].callTraceId == 0
    {
      hide Survivors, Dead, Aged;
      ghost var es := table[..size];
      var sz, newsz, i := size, 0, 0;
      NothingYet(live, diff);
      while i < sz
        invariant 0 <= newsz <= i <= sz == old(size) <= table.Length && size == sz
        invariant table[..newsz] == Aged(Survivors(es[..i], live), diff)
        invariant forall k :: i <= k < sz ==> table[k] == es[k]
        invariant forall k :: newsz <= k < i ==> table[k].ref == 0 && table[k].callTraceId == 0
        invariant released == old(released) + Dead(es[..i], live)
      {
        SurvivorsPush(es[..i], live, es[i]);
        assert es[..i + 1] == es[..i] + [es[i]];
        ghost var before := table[..newsz];
        if table[i].ref != 0 && table[i].ref in live {
          var target := newsz;
          newsz := newsz + 1;
          if target != i {
            table[target] := table[i];
            table[i] := table[i].(ref := 0);
            table[i] := table[i].(callTraceId := 0);
          }
          table[target] := table[target].(age := table[target].age + diff);
          AgedPush(Survivors(es[..i], live), es[i], diff);
          assert table[..newsz] == before + [table[target]];
        } else {
          var tmp := table[i].ref;
          table[i] := table[i].(ref := 0);
          released := released + [tmp];
          table[i] := table[i].(callTraceId := 0);
          assert table[..newsz] == before;
        }
        i := i + 1;
      }
      assert es[..i] == es;
      size := newsz;
    }

    /** track, for an object that is sampled. A full table is cleaned up and then enlarged; when it
        cannot be enlarged the new reference is lost: neither stored nor given back. */
    method Track(callTraceId: u32, info: nat, live: set<nat>)
      requires Valid()
      modifies this, table
      ensures Valid() && (table == old(table) || fresh(table)) && nextRef == old(nextRef) + 1
      ensures gcEpoch == old(gcEpoch)
      ensures old(AgesRight()) && gcEpoch - old(lastGcEpoch) < 0x8000_0000 ==> AgesRight()
      ensures var e := Entry(old(nextRef), callTraceId, 0, info);
              if old(size < table.Length) then Entries() == old(Entries()) + [e] && lost == old(lost)
              else
                var kept := Aged(Survivors(old(Entries()), live), Int32(gcEpoch - old(lastGcEpoch)));
                if old(table.Length) < maxCapacity then Entries() == kept + [e] && lost == old(lost)
                else Entries() == kept && lost == old(lost) + {old(nextRef)}
      ensures if old(size < table.Length) then
                && table == old(table) && lastGcEpoch == old(lastGcEpoch) && released == old(released)
                && born == old(born) + [old(lastGcEpoch)]
              else
                && lastGcEpoch == gcEpoch && released == old(released) + Dead(old(Entries()), live)
                && var kept := Keep(old(born), LiveFlags(old(Entries()), live));
                   if old(table.Length) < maxCapacity then
                     && born == kept + [gcEpoch]
                     && table.Length
                         == (if 2 * old(table.Length) < maxCapacity then 2 * old(table.Length) else maxCapacity)
                   else born == kept && table == old(table)
    {
      hide AgesInv, RefsInv, Survivors, Dead, Aged, Keep, LiveFlags;
      var e := Entry(nextRef, callTraceId, 0, info);
      if size < table.Length {
        Store(e);
        return;
      }
      CleanupTable(true, live);
      if table.Length < maxCapacity {
        Enlarge();
        Store(e);
      } else {
        LoseRef(Entries(), released, lost, nextRef);
        lost := lost + {nextRef};
        nextRef := nextRef + 1;
      }
    }

    /** Reserving the next slot and filling it with a new reference. */
    method Store(e: Entry)
      requires Valid() && size < table.Length && e.ref == nextRef && e.age == 0
      modifies this`size, this`born, this`nextRef, table
      ensures Valid() && nextRef == old(nextRef) + 1 && Entries() == old(Entries()) + [e]
      ensures born == old(born) + [lastGcEpoch]
      ensures old(AgesRight()) ==> AgesRight()
    {
      hide AgesInv, RefsInv;
      StoreRef(Entries(), released, lost, nextRef, e);
      if AgesRight() {
        AgesPush(Entries(), born, lastGcEpoch, e);
      }
      ghost var es := Entries();
      var idx := size;
      size := size + 1;
      table[idx] := e;
      assert Entries() == es + [e];
      born := born + [lastGcEpoch];
      nextRef := nextRef + 1;
    }

    /** Twice the capacity, up to the maximum; the memory is always there. */
    method Enlarge()
      requires Valid() && table.Length < maxCapacity
      modifies this`table
      ensures Valid() && fresh(table) && Entries() == old(Entries()) && size < table.Length
      ensures table.Length == (if 2 * old(table.Length) < maxCapacity then 2 * old(table.Length) else maxCapacity)
      ensures old(AgesRight()) ==> AgesRight()
    {
      hide RefsInv, AgesInv;
      var n := if table.Length * 2 < maxCapacity then table.Length * 2 else maxCapacity;
      var larger := new Entry[n](i => Entry(0, 0, 0, 0));
      var i := 0;
      while i < size
        invariant i <= size <= table.Length < larger.Length && fresh(larger) && table == old(table)
        invariant table[..] == old(table[..])
        invariant larger[..i] == table[..i]
      {
        larger[i] := table[i];
        i := i + 1;
      }
      table := larger;
    }
  }

  lemma NothingYet(live: set<nat>, diff: int)
    ensures Aged(Survivors([], live), diff) == [] && Dead([], live) == []
  {
  }

  lemma AgedPush(es: seq<Entry>, e: Entry, d: int)
    ensures Aged(es + [e], d) == Aged(es, d) + [e.(age := e.age + d)]
  {
  }

  lemma StoreRef(es: seq<Entry>, released: seq<nat>, lost: set<nat>, next: nat, e: Entry)
    requires RefsInv(es, released, lost, next) && e.ref == next > 0
    ensures RefsInv(es + [e], released, lost, next + 1)
  {
    RefsPush(es, e);
    forall r: nat
      ensures Count(r, Refs(es + [e])) + Count(r, released) + (if r in lost then 1 else 0) == if 0 < r < next +
          1 then 1 else 0
    {
      RefsInvAt(es, released, lost, next, r);
      CountPush(r, Refs(es), e.ref);
    }
  }

  lemma LoseRef(es: seq<Entry>, released: seq<nat>, lost: set<nat>, next: nat)
    requires RefsInv(es, released, lost, next) && next > 0
    ensures RefsInv(es, released, lost + {next}, next + 1)
  {
    forall r: nat
      ensures Count(r, Refs(es)) + Count(r, released) + (if r in lost + {next} then 1 else 0)
              == if 0 < r < next + 1 then 1 else 0
    {
      RefsInvAt(es, released, lost, next, r);
    }
  }
}
