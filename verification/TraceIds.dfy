/** The ids that `put` returns and `collectTraces` writes: capacity - (INITIAL_CAPACITY - 1) + slot,
    a 32-bit number. Table `g` of the chain has capacity INITIAL_CAPACITY * 2^g; the initial
    capacity is 2^initialBits. */
module TraceIds {
  import opened Words
  import opened Bits

  const OVERFLOW_TRACE_ID: nat := 0x7fff_ffff

  function Id(initialBits: nat, g: nat, slot: nat): nat {
    (Pow2(initialBits + g) - (Pow2(initialBits) - 1) + slot) % U32
  }

  /** The first id of table `g`, before truncation to 32 bits. */
  function BandStart(initialBits: nat, g: nat): int {
    Pow2(initialBits + g) - (Pow2(initialBits) - 1)
  }

  /** The bands follow one another without gap or overlap, starting at 1. */
  lemma BandsTile(initialBits: nat, g: nat)
    ensures BandStart(initialBits, 0) == 1
    ensures BandStart(initialBits, g + 1) == BandStart(initialBits, g) + Pow2(initialBits + g)
    ensures BandStart(initialBits, g) >= 1
  {
    Pow2Monotone(initialBits, initialBits + g);
    assert initialBits + (g + 1) == (initialBits + g) + 1;
  }

  lemma {:induction false} BandsIncrease(initialBits: nat, g: nat, h: nat)
    requires g < h
    ensures BandStart(initialBits, g) + Pow2(initialBits + g) <= BandStart(initialBits, h)
    decreases h
  {
    BandsTile(initialBits, h - 1);
    if g < h - 1 {
      BandsIncrease(initialBits, g, h - 1);
    }
  }

  /** Every positive number is in the band of some table. */
  lemma {:induction false} EveryIdHasASlot(initialBits: nat, id: nat, g: nat) returns (h: nat, slot: nat)
    requires BandStart(initialBits, g) <= id
    ensures BandStart(initialBits, h) + slot == id && slot < Pow2(initialBits + h)
    decreases id - BandStart(initialBits, g)
  {
    BandsTile(initialBits, g);
    if id < BandStart(initialBits, g + 1) {
      h, slot := g, id - BandStart(initialBits, g);
    } else {
      h, slot := EveryIdHasASlot(initialBits, id, g + 1);
    }
  }

  /** Different slots, in the same or in different tables, have different ids. */
  lemma IdsDiffer(initialBits: nat, g: nat, a: nat, h: nat, b: nat)
    requires a < Pow2(initialBits + g) && b < Pow2(initialBits + h) && (g, a) != (h, b)
    requires initialBits >= 1 && initialBits + g <= 30 && initialBits + h <= 30
    ensures Id(initialBits, g, a) != Id(initialBits, h, b)
  {
    IdIsExact(initialBits, g, a);
    IdIsExact(initialBits, h, b);
    if g < h {
      BandsIncrease(initialBits, g, h);
    } else if h < g {
      BandsIncrease(initialBits, h, g);
    }
  }

  lemma Pow2Of30()
    ensures Pow2(30) == 0x4000_0000 && Pow2(31) == 0x8000_0000
  {
    assert Pow2(5) == 32;
    assert Pow2(10) == 1024 by { Pow2Sum(5, 5); }
    assert Pow2(20) == 0x10_0000 by { Pow2Sum(10, 10); }
    Pow2Sum(20, 10);
  }

  /** Up to a capacity of 2^30 nothing is truncated, so the id is the place in the tiling, is
      not 0, and is not the overflow id. */
  lemma IdIsExact(initialBits: nat, g: nat, slot: nat)
    requires initialBits >= 1 && initialBits + g <= 30 && slot < Pow2(initialBits + g)
    ensures Id(initialBits, g, slot) == BandStart(initialBits, g) + slot
    ensures 0 < Id(initialBits, g, slot) < OVERFLOW_TRACE_ID
  {
    Pow2Of30();
    Pow2Monotone(initialBits + g, 30);
    Pow2Monotone(1, initialBits);
    BandsTile(initialBits, g);
  }

  /** The bound is sharp: with the real initial capacity of 2^16, the ids of a table avoid the
      overflow id exactly up to a capacity of 2^30; the table of capacity 2^31 contains it. */
  lemma OverflowIdAvoided(g: nat)
    requires 16 + g <= 31
    ensures (forall slot: nat :: slot < Pow2(16 + g) ==> Id(16, g, slot) != OVERFLOW_TRACE_ID) <==> 16 + g <= 30
  {
    Pow2Of30();
    assert Pow2(16) == 0x1_0000 by {
      assert Pow2(4) == 16;
      assert Pow2(8) == 256 by { Pow2Sum(4, 4); }
      Pow2Sum(8, 8);
    }
    if 16 + g <= 30 {
      forall slot: nat | slot < Pow2(16 + g) ensures Id(16, g, slot) != OVERFLOW_TRACE_ID {
        IdIsExact(16, g, slot);
      }
    } else {
      assert g == 15;
      assert Id(16, g, 65534) == OVERFLOW_TRACE_ID;
    }
  }
}
