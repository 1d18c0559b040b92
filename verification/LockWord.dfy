/** What the word of the reader/writer spin lock means: 0 when free, 1 when held exclusively, -n
    when held by n readers. For a given assignment of modes to threads, each acquiring or
    releasing instruction keeps that meaning. The lock itself, the lock stripes and the trace
    storage all rest on these lemmas. */
module LockWord {
  import opened Words
  import opened Sums

  datatype Mode = Free | Shared | Exclusive

  const THREAD_LIMIT: nat := 0x8000_0000

  function SharedUnit(m: Mode): int { if m.Shared? then 1 else 0 }

  function ExclusiveUnit(m: Mode): int { if m.Exclusive? then 1 else 0 }

  function Readers(modes: seq<Mode>): int { Total(SharedUnit, modes) }

  function Writers(modes: seq<Mode>): int { Total(ExclusiveUnit, modes) }

  /** The word counts the holders: n readers make it -n, one writer makes it 1. */
  ghost predicate LockInv(word: int, modes: seq<Mode>) {
    || (Writers(modes) == 0 && word == -Readers(modes))
    || (Writers(modes) == 1 && Readers(modes) == 0 && word == 1)
  }

  lemma ModeCounts(modes: seq<Mode>, t: nat, m: Mode)
    requires t < |modes|
    ensures Readers(modes[t := m]) == Readers(modes) - SharedUnit(modes[t]) + SharedUnit(m)
    ensures Writers(modes[t := m]) == Writers(modes) - ExclusiveUnit(modes[t]) + ExclusiveUnit(m)
    ensures 0 <= Readers(modes) <= |modes| && 0 <= Readers(modes[t := m]) <= |modes|
    ensures SharedUnit(modes[t]) <= Readers(modes)
    ensures ExclusiveUnit(modes[t]) <= Writers(modes)
  {
    TotalUpdate(SharedUnit, modes, t, m);
    TotalUpdate(ExclusiveUnit, modes, t, m);
    TotalUnitRange(SharedUnit, modes);
    TotalUnitRange(SharedUnit, modes[t := m]);
    TotalAtLeastOne(SharedUnit, modes, t);
    TotalAtLeastOne(ExclusiveUnit, modes, t);
  }

  /** A successful compare-and-swap from 0 to 1 gives the thread the lock alone. */
  lemma AcquireExclusive(word: int, modes: seq<Mode>, t: nat)
    requires LockInv(word, modes) && t < |modes| && modes[t].Free? && word == 0
    ensures LockInv(1, modes[t := Exclusive])
  {
    ModeCounts(modes, t, Exclusive);
  }

  /** A successful compare-and-swap from a value v <= 0 to v - 1 adds one reader; with at most
      2^31 threads the word does not wrap. */
  lemma AcquireShared(word: int, modes: seq<Mode>, t: nat)
    requires LockInv(word, modes) && t < |modes| <= THREAD_LIMIT && modes[t].Free? && word <= 0
    ensures LockInv(Int32(word - 1), modes[t := Shared])
  {
    ModeCounts(modes, t, Shared);
    ModeCounts(modes, t, Exclusive);
  }

  lemma ReleaseExclusive(word: int, modes: seq<Mode>, t: nat)
    requires LockInv(word, modes) && t < |modes| && modes[t].Exclusive?
    ensures LockInv(Int32(word - 1), modes[t := Free])
  {
    ModeCounts(modes, t, Free);
  }

  lemma ReleaseShared(word: int, modes: seq<Mode>, t: nat)
    requires LockInv(word, modes) && t < |modes| <= THREAD_LIMIT && modes[t].Shared?
    ensures LockInv(Int32(word + 1), modes[t := Free])
  {
    ModeCounts(modes, t, Free);
  }

  /** A thread that holds the lock exclusively is the only holder. */
  lemma ExclusiveIsAlone(word: int, modes: seq<Mode>, t: nat, u: nat)
    requires LockInv(word, modes) && t < |modes| && u < |modes| && t != u
    requires modes[t].Exclusive?
    ensures modes[u].Free?
  {
    TotalAtLeastOne(ExclusiveUnit, modes, t);
    TotalAtLeastOne(SharedUnit, modes, u);
    TotalAtLeastTwo(ExclusiveUnit, modes, if t < u then t else u, if t < u then u else t);
  }

  lemma WordMeaning(word: int, modes: seq<Mode>)
    requires LockInv(word, modes)
    ensures Writers(modes) == (if word > 0 then 1 else 0)
    ensures Readers(modes) == (if word > 0 then 0 else -word)
    ensures word <= 1
  {
    TotalUnitRange(SharedUnit, modes);
  }

  lemma AllFree(modes: seq<Mode>)
    requires forall i :: 0 <= i < |modes| ==> modes[i].Free?
    ensures LockInv(0, modes)
  {
    TotalZero(SharedUnit, modes);
    TotalZero(ExclusiveUnit, modes);
  }

  /** The sign of the word tells whether there is a writer, and whether there are readers. */
  lemma WordTells(word: int, modes: seq<Mode>)
    requires LockInv(word, modes)
    ensures word > 0 <==> exists t :: 0 <= t < |modes| && modes[t].Exclusive?
    ensures word < 0 <==> exists t :: 0 <= t < |modes| && modes[t].Shared?
  {
    WordMeaning(word, modes);
    if t :| 0 <= t < |modes| && modes[t].Exclusive? {
      ModeCounts(modes, t, Free);
    } else {
      TotalZero(ExclusiveUnit, modes);
    }
    if t :| 0 <= t < |modes| && modes[t].Shared? {
      ModeCounts(modes, t, Free);
    } else {
      TotalZero(SharedUnit, modes);
    }
  }
}
