/** The probe sequence of the call trace table: slot' = (slot + step) & (capacity - 1) for
    step 1, 2, 3, ... in a table whose capacity is a power of two. */
module Probe {
  import opened Bits

  /** The slot examined after `step` moves, as `put` and `findCallTrace` compute it. */
  function Slot(hash: nat, bits: nat, step: nat): nat {
    And(if step == 0 then hash else Slot(hash, bits, step - 1) + step, Pow2(bits) - 1)
  }

  /** The triangular numbers 0, 1, 3, 6, ... */
  function Tri(i: nat): nat {
    if i == 0 then 0 else Tri(i - 1) + i
  }

  lemma {:induction false} TriClosed(i: nat)
    ensures 2 * Tri(i) == i * (i + 1)
  {
    if i > 0 {
      TriClosed(i - 1);
    }
  }

  lemma SlotStep(hash: nat, bits: nat, step: nat)
    ensures Slot(hash, bits, step) == Rem(if step == 0 then hash else Slot(hash, bits, step - 1) + step, Pow2(bits))
  {
    MaskIsRemainder(if step == 0 then hash else Slot(hash, bits, step - 1) + step, bits);
  }

  /** The slot is the hash plus a triangular number, modulo the capacity. */
  lemma {:induction false} SlotClosed(hash: nat, bits: nat, step: nat)
    ensures Slot(hash, bits, step) == Rem(hash + Tri(step), Pow2(bits))
    ensures Slot(hash, bits, step) < Pow2(bits)
  {
    SlotStep(hash, bits, step);
    hide Slot, Pow2, Rem;
    if step > 0 {
      SlotClosed(hash, bits, step - 1);
      RemainderAdd(hash + Tri(step - 1), step, Pow2(bits));
      assert hash + Tri(step) == hash + Tri(step - 1) + step;
    }
  }

  /** An odd factor does not contribute to divisibility by a power of two. */
  lemma {:induction false} OddFactorCancels(a: int, b: int, m: nat, q: int) returns (r: int)
    requires a % 2 == 1 && a * b == q * Pow2(m)
    ensures b == r * Pow2(m)
    decreases m
  {
    if m == 0 {
      r := b;
    } else {
      var p, h := Pow2(m - 1), a / 2;
      assert a * b == 2 * (h * b) + b by {
        assert a == 2 * h + 1;
      }
      assert q * Pow2(m) == 2 * (q * p);
      var c := q * p - h * b;
      assert b == 2 * c;
      assert a * b == 2 * (a * c);
      r := OddFactorCancels(a, c, m - 1, q);
      assert r * Pow2(m) == 2 * (r * p);
    }
  }

  /** Twice the difference of two triangular numbers factors. */
  lemma TriangularDifference(i: nat, j: nat)
    ensures 2 * (Tri(i) - Tri(j)) == (i - j) * (i + j + 1)
  {
    TriClosed(i);
    TriClosed(j);
    assert (i - j) * (i + j + 1) == i * (i + 1) - j * (j + 1);
  }

  lemma NotAMultiple(x: int, p: nat, r: int)
    requires 0 < x < p
    ensures x != r * p
  {
    if r >= 1 {
      MulAtLeast(r, p);
    } else {
      assert (-r) * p >= 0;
      assert r * p == -((-r) * p);
    }
  }

  /** The product of two positive numbers below 2^m of different parity is not a multiple of
      2^m: the even one would have to be. */
  lemma OppositeParity(a: int, b: int, m: nat, q: int)
    requires 0 < a < Pow2(m) && 0 < b < Pow2(m) && (a + b) % 2 == 1
    ensures a * b != q * Pow2(m)
  {
    hide Pow2;
    if a * b == q * Pow2(m) {
      if a % 2 == 1 {
        var r := OddFactorCancels(a, b, m, q);
        NotAMultiple(b, Pow2(m), r);
      } else {
        assert b * a == a * b;
        var r := OddFactorCancels(b, a, m, q);
        NotAMultiple(a, Pow2(m), r);
      }
    }
  }

  lemma TwiceMultiple(q: int, p: int)
    ensures q * (2 * p) == 2 * (q * p)
  {
  }

  /** Triangular numbers below index 2^bits are pairwise different modulo 2^bits. */
  lemma TriangularDistinct(bits: nat, i: nat, j: nat, q: int)
    requires j < i < Pow2(bits)
    ensures Tri(i) - Tri(j) != q * Pow2(bits)
  {
    assert Pow2(bits + 1) == 2 * Pow2(bits);
    hide Pow2, Tri;
    TriangularDifference(i, j);
    TwiceMultiple(q, Pow2(bits));
    OppositeParity(i - j, i + j + 1, bits + 1, q);
  }

  /** Within `capacity` probes no slot is visited twice. */
  lemma ProbesDiffer(hash: nat, bits: nat, i: nat, j: nat)
    requires j < i < Pow2(bits)
    ensures Slot(hash, bits, i) != Slot(hash, bits, j)
  {
    hide Slot;
    SlotClosed(hash, bits, i);
    SlotClosed(hash, bits, j);
    var p, x, y := Pow2(bits), hash + Tri(i), hash + Tri(j);
    DivMod(x, p);
    DivMod(y, p);
    assert (x / p - y / p) * p == (x / p) * p - (y / p) * p;
    TriangularDistinct(bits, i, j, x / p - y / p);
  }

  /** The slots visited by the first `n` probes. */
  ghost function Visited(hash: nat, bits: nat, n: nat): set<nat> {
    if n == 0 then {} else Visited(hash, bits, n - 1) + {Slot(hash, bits, n - 1)}
  }

  lemma {:induction false} VisitedIndex(hash: nat, bits: nat, n: nat, slot: nat) returns (i: nat)
    requires slot in Visited(hash, bits, n)
    ensures i < n && Slot(hash, bits, i) == slot
  {
    if slot in Visited(hash, bits, n - 1) {
      i := VisitedIndex(hash, bits, n - 1, slot);
    } else {
      i := n - 1;
    }
  }

  lemma {:induction false} VisitedCount(hash: nat, bits: nat, n: nat)
    requires n <= Pow2(bits)
    ensures |Visited(hash, bits, n)| == n
    ensures forall slot :: slot in Visited(hash, bits, n) ==> slot < Pow2(bits)
  {
    if n > 0 {
      VisitedCount(hash, bits, n - 1);
      SlotClosed(hash, bits, n - 1);
      if Slot(hash, bits, n - 1) in Visited(hash, bits, n - 1) {
        var i := VisitedIndex(hash, bits, n - 1, Slot(hash, bits, n - 1));
        ProbesDiffer(hash, bits, n - 1, i);
      }
    }
  }

  ghost function Below(n: nat): (s: set<nat>)
    ensures forall x: nat :: x in s <==> x < n
    ensures |s| == n
  {
    if n == 0 then {} else Below(n - 1) + {n - 1}
  }

  lemma SubsetOfSameSize(a: set<nat>, b: set<nat>)
    requires a <= b && |a| == |b|
    ensures a == b
  {
    assert b == a + (b - a);
    assert |b - a| == 0;
  }

  /** Every slot is visited exactly once in `capacity` probes: `step` is the only index that
      reaches `slot`. */
  lemma ProbeReachesEverySlot(hash: nat, bits: nat, slot: nat) returns (step: nat)
    requires slot < Pow2(bits)
    ensures step < Pow2(bits) && Slot(hash, bits, step) == slot
    ensures forall i: nat :: i < Pow2(bits) && i != step ==> Slot(hash, bits, i) != slot
  {
    var n := Pow2(bits);
    VisitedCount(hash, bits, n);
    SubsetOfSameSize(Visited(hash, bits, n), Below(n));
    step := VisitedIndex(hash, bits, n, slot);
    forall i: nat | i < n && i != step ensures Slot(hash, bits, i) != slot {
      if i < step {
        ProbesDiffer(hash, bits, step, i);
      } else {
        ProbesDiffer(hash, bits, i, step);
      }
    }
  }

  // ---------------------------------------------------------------------------------------
  // Looking up a hash
  // ---------------------------------------------------------------------------------------

  datatype Position = Absent | At(slot: nat)

  predicate IsTable(keys: seq<nat>, bits: nat) {
    |keys| == Pow2(bits)
  }

  /** The first `n` slots on the hash's path hold other hashes. */
  ghost predicate Passed(keys: seq<nat>, bits: nat, hash: nat, n: nat) {
    forall i: nat :: i < n ==> PassedAt(keys, bits, hash, i)
  }

  ghost predicate PassedAt(keys: seq<nat>, bits: nat, hash: nat, i: nat) {
    var slot := Slot(hash, bits, i);
    slot < |keys| && keys[slot] != 0 && keys[slot] != hash
  }

  lemma PassedNext(keys: seq<nat>, bits: nat, hash: nat, n: nat)
    requires Passed(keys, bits, hash, n) && PassedAt(keys, bits, hash, n)
    ensures Passed(keys, bits, hash, n + 1)
  {
  }

  lemma PassedHas(keys: seq<nat>, bits: nat, hash: nat, n: nat, i: nat)
    requires Passed(keys, bits, hash, n) && i < n
    ensures PassedAt(keys, bits, hash, i)
  {
  }

  /** Slot `slot` is on the path of its own hash, and the slots before it on that path hold
      other hashes. */
  ghost predicate InPathOrder(keys: seq<nat>, bits: nat, slot: nat)
    requires slot < |keys|
  {
    exists i: nat :: i < Pow2(bits) && Slot(keys[slot], bits, i) == slot && Passed(keys, bits, keys[slot], i)
  }

  /** Every key is where its probe finds it. */
  ghost predicate PathInv(keys: seq<nat>, bits: nat) {
    && IsTable(keys, bits)
    && forall slot: nat :: slot < |keys| && keys[slot] != 0 ==> InPathOrder(keys, bits, slot)
  }

  /** A nonzero hash sits in at most one slot. */
  lemma HashOccursOnce(keys: seq<nat>, bits: nat, a: nat, b: nat)
    requires PathInv(keys, bits) && a < |keys| && b < |keys|
    requires keys[a] != 0 && keys[a] == keys[b]
    ensures a == b
  {
    assert InPathOrder(keys, bits, a) && InPathOrder(keys, bits, b);
    var i: nat :| i < Pow2(bits) && Slot(keys[a], bits, i) == a && Passed(keys, bits, keys[a], i);
    var j: nat :| j < Pow2(bits) && Slot(keys[b], bits, j) == b && Passed(keys, bits, keys[b], j);
    if i < j {
      PassedHas(keys, bits, keys[b], j, i);
    } else if j < i {
      PassedHas(keys, bits, keys[a], i, j);
    }
  }

  /** Claiming the first empty slot on a hash's path keeps the order. */
  lemma ClaimKeepsPathInv(keys: seq<nat>, bits: nat, hash: nat, step: nat)
    requires PathInv(keys, bits) && hash != 0 && step < Pow2(bits)
    requires Slot(hash, bits, step) < |keys| && keys[Slot(hash, bits, step)] == 0
    requires Passed(keys, bits, hash, step)
    ensures PathInv(keys[Slot(hash, bits, step) := hash], bits)
  {
    var slot := Slot(hash, bits, step);
    var keys' := keys[slot := hash];
    forall s: nat | s < |keys'| && keys'[s] != 0 ensures InPathOrder(keys', bits, s) {
      if s == slot {
        PassedKept(keys, keys', bits, hash, step);
      } else {
        assert InPathOrder(keys, bits, s);
        var i: nat :| i < Pow2(bits) && Slot(keys[s], bits, i) == s && Passed(keys, bits, keys[s], i);
        PassedKept(keys, keys', bits, keys[s], i);
      }
    }
  }

  /** Filling an empty slot does not disturb what a probe has passed. */
  lemma PassedKept(keys: seq<nat>, keys': seq<nat>, bits: nat, hash: nat, n: nat)
    requires Passed(keys, bits, hash, n) && |keys'| == |keys|
    requires forall s: nat :: s < |keys| && keys[s] != 0 ==> keys'[s] == keys[s]
    ensures Passed(keys', bits, hash, n)
  {
    forall i: nat | i < n ensures PassedAt(keys', bits, hash, i) {
      assert PassedAt(keys, bits, hash, i);
    }
  }

  /** A probe that has passed all slots has met every slot of the table, so the table is full
      of other hashes. */
  lemma OverflowMeansFull(keys: seq<nat>, bits: nat, hash: nat)
    requires IsTable(keys, bits) && Passed(keys, bits, hash, Pow2(bits))
    ensures forall slot: nat :: slot < |keys| ==> keys[slot] != 0 && keys[slot] != hash
  {
    forall slot: nat | slot < |keys| ensures keys[slot] != 0 && keys[slot] != hash {
      var step := ProbeReachesEverySlot(hash, bits, slot);
      assert PassedAt(keys, bits, hash, step);
    }
  }

  /** The search loop of findCallTrace, on any table: it ends at the first slot of the path that
      holds the hash or is empty, and finds the hash exactly if that slot holds it; without such a
      slot it ends unsuccessfully after all slots. In a table in path order it finds the hash
      exactly when some slot holds it. */
  method FindSlot(keys: seq<nat>, bits: nat, hash: nat) returns (r: Position, ghost met: nat)
    requires IsTable(keys, bits) && hash != 0
    ensures met <= Pow2(bits) && Passed(keys, bits, hash, met)
    ensures met < Pow2(bits) ==>
              var slot := Slot(hash, bits, met);
              slot < |keys| && (keys[slot] == hash || keys[slot] == 0)
              && r == if keys[slot] == hash then At(slot) else Absent
    ensures met == Pow2(bits) ==> r == Absent && hash !in keys
    ensures PathInv(keys, bits) ==> (r.At? <==> hash in keys)
  {
    var slot := And(hash, Pow2(bits) - 1);
    var step := 0;
    NextSlot(hash, bits, 0);
    hide Slot, Passed, PathInv, And, Pow2;
    NonePassed(keys, bits, hash);
    while keys[slot] != hash
      invariant step < Pow2(bits) && slot == Slot(hash, bits, step) && slot < |keys|
      invariant Passed(keys, bits, hash, step)
      decreases Pow2(bits) - step
    {
      if keys[slot] == 0 {
        AbsentIfEmptyReached(keys, bits, hash, step);
        return Absent, step;
      }
      PassedNext(keys, bits, hash, step);
      step := step + 1;
      if step >= Pow2(bits) {
        OverflowMeansFull(keys, bits, hash);
        return Absent, step;
      }
      slot := And(slot + step, Pow2(bits) - 1);
      NextSlot(hash, bits, step);
    }
    return At(slot), step;
  }

  lemma NextSlot(hash: nat, bits: nat, step: nat)
    ensures Slot(hash, bits, step) < Pow2(bits)
    ensures step == 0 ==> Slot(hash, bits, step) == And(hash, Pow2(bits) - 1)
    ensures step > 0 ==> Slot(hash, bits, step) == And(Slot(hash, bits, step - 1) + step, Pow2(bits) - 1)
  {
    SlotClosed(hash, bits, step);
  }

  lemma NonePassed(keys: seq<nat>, bits: nat, hash: nat)
    ensures Passed(keys, bits, hash, 0)
  {
  }


  lemma AbsentIfEmptyReached(keys: seq<nat>, bits: nat, hash: nat, step: nat)
    requires IsTable(keys, bits) && hash != 0 && Passed(keys, bits, hash, step)
    requires step < Pow2(bits) && Slot(hash, bits, step) < |keys| && keys[Slot(hash, bits, step)] == 0
    ensures PathInv(keys, bits) ==> hash !in keys
  {
    if PathInv(keys, bits) && hash in keys {
      var s: nat :| s < |keys| && keys[s] == hash;
      assert InPathOrder(keys, bits, s);
      var i: nat :| i < Pow2(bits) && Slot(keys[s], bits, i) == s && Passed(keys, bits, keys[s], i);
      if step < i {
        PassedHas(keys, bits, hash, i, step);
      } else if i < step {
        PassedHas(keys, bits, hash, step, i);
      }
    }
  }
}
