/** The lock stripes of profiler.cpp. A sample is recorded under one of CONCURRENCY_LEVEL locks:
    recordSample tries three of them and drops the sample if all are taken; lockAll takes every
    lock in turn while the recording is dumped or switched. Modelled as a state machine over the
    atomic lock operations of any number of threads, for any number of stripes. */
module LockStripes {
  import opened Words
  import opened LockWord

  const CONCURRENCY_LEVEL: nat := 16

  // ---------------------------------------------------------------------------------------
  // getLockIndex
  // ---------------------------------------------------------------------------------------

  function GetLockIndex(tid: bv32): bv32 {
    var x := tid ^ (tid >> 8);
    var y := x ^ (x >> 4);
    y % 16
  }

  lemma FoldNibbles(tid: bv32)
    ensures (tid ^ (tid >> 8)) ^ ((tid ^ (tid >> 8)) >> 4) == tid ^ (tid >> 4) ^ (tid >> 8) ^ (tid >> 12)
  {
  }

  lemma RemainderIsMask(y: bv32)
    ensures y % 16 == y & 0xf && y & 0xf < 16
  {
  }

  /** The index is the exclusive or of the four low nibbles of the thread id. */
  lemma IndexFoldsNibbles(tid: bv32)
    ensures GetLockIndex(tid) == (tid ^ (tid >> 4) ^ (tid >> 8) ^ (tid >> 12)) & 0xf
    ensures GetLockIndex(tid) < 16
  {
    FoldNibbles(tid);
    RemainderIsMask((tid ^ (tid >> 8)) ^ ((tid ^ (tid >> 8)) >> 4));
  }

  lemma LowNibblesDiffer(a: bv32, b: bv32)
    requires a >> 4 == b >> 4 && a != b
    ensures (a ^ (a >> 4) ^ (a >> 8) ^ (a >> 12)) & 0xf != (b ^ (b >> 4) ^ (b >> 8) ^ (b >> 12)) & 0xf
  {
  }

  /** Thread ids that differ only in the low nibble start at different stripes, so sixteen
      consecutive ids of an aligned group spread over all sixteen stripes. */
  lemma NeighboursSpread(a: bv32, b: bv32)
    requires a >> 4 == b >> 4 && a != b
    ensures GetLockIndex(a) != GetLockIndex(b)
  {
    hide GetLockIndex;
    IndexFoldsNibbles(a);
    IndexFoldsNibbles(b);
    LowNibblesDiffer(a, b);
  }

  // ---------------------------------------------------------------------------------------
  // The stripes as a state machine
  // ---------------------------------------------------------------------------------------

  datatype Pc =
    | Outside
    | Trying(attempt: nat, index: nat)     // recordSample, about to call tryLock
    | Recording(index: nat)                // recordSample, holding the stripe
    | Locking(upTo: nat)                   // lockAll, holding the stripes below upTo
    | AllLocked
    | Unlocking(from: nat)                 // unlockAll, holding the stripes from `from` on

  datatype State = State(words: seq<int>, threads: seq<Pc>)

  /** The stripe after a failed attempt: one further, then two further. */
  function NextStripe(stripes: nat, attempt: nat, index: nat): nat
    requires stripes > 0
  {
    (index + attempt + 1) % stripes
  }

  function ModeAt(pc: Pc, stripe: nat): Mode {
    match pc
    case Recording(i) => if i == stripe then Exclusive else Free
    case Locking(k) => if stripe < k then Exclusive else Free
    case AllLocked => Exclusive
    case Unlocking(k) => if k <= stripe then Exclusive else Free
    case _ => Free
  }

  function ModesAt(threads: seq<Pc>, stripe: nat): (modes: seq<Mode>)
    ensures |modes| == |threads|
    ensures forall t :: 0 <= t < |threads| ==> modes[t] == ModeAt(threads[t], stripe)
  {
    seq(|threads|, t requires 0 <= t < |threads| => ModeAt(threads[t], stripe))
  }

  ghost predicate Init(s: State) {
    && |s.words| > 0 && (forall i :: 0 <= i < |s.words| ==> s.words[i] == 0)
    && |s.threads| <= THREAD_LIMIT && (forall t :: 0 <= t < |s.threads| ==> s.threads[t].Outside?)
  }

  /** tryLock on stripe `i`. */
  ghost predicate TryLock(s: State, t: nat, i: nat, hit: Pc, miss: Pc, s': State)
    requires t < |s.threads|
  {
    && i < |s.words|
    && s' == if s.words[i] == 0 then State(s.words[i := 1], s.threads[t := hit])
             else s.(threads := s.threads[t := miss])
  }

  /** unlock of stripe `i`. */
  ghost predicate Unlock(s: State, t: nat, i: nat, pc: Pc, s': State)
    requires t < |s.threads|
  {
    i < |s.words| && s' == State(s.words[i := Int32(s.words[i] - 1)], s.threads[t := pc])
  }

  ghost predicate Step(s: State, t: nat, s': State) {
    && t < |s.threads| && |s.words| > 0
    && match s.threads[t]
       case Outside =>
         || s' == s.(threads := s.threads[t := Locking(0)])
         || exists i: nat :: i < |s.words| && s' == s.(threads := s.threads[t := Trying(0, i)])
       case Trying(k, i) =>
         TryLock(s, t, i, Recording(i), if k < 2 then Trying(k + 1, NextStripe(|s.words|, k, i)) else Outside, s')
       case Recording(i) => Unlock(s, t, i, Outside, s')
       case Locking(k) =>
         if k < |s.words| then TryLock(s, t, k, Locking(k + 1), Locking(k), s')
         else s' == s.(threads := s.threads[t := AllLocked])
       case AllLocked => s' == s.(threads := s.threads[t := Unlocking(0)])
       case Unlocking(k) =>
         if k < |s.words| then Unlock(s, t, k, Unlocking(k + 1), s')
         else s' == s.(threads := s.threads[t := Outside])
  }

  ghost predicate Next(s: State, s': State) {
    exists t :: Step(s, t, s')
  }

  ghost predicate IsRun(run: seq<State>) {
    && |run| > 0 && Init(run[0])
    && forall i :: 0 <= i < |run| - 1 ==> Next(run[i], run[i + 1])
  }

  ghost predicate Inv(s: State) {
    && |s.threads| <= THREAD_LIMIT
    && (forall i :: 0 <= i < |s.words| ==> LockInv(s.words[i], ModesAt(s.threads, i)))
    && forall t :: 0 <= t < |s.threads| ==> ThreadInv(|s.words|, s.threads[t])
  }

  ghost predicate ThreadInv(stripes: nat, pc: Pc) {
    match pc
    case Trying(_, i) => i < stripes
    case Recording(i) => i < stripes
    case Locking(k) => k <= stripes
    case Unlocking(k) => k <= stripes
    case _ => true
  }

  /** What a step does to one stripe: nothing, an acquisition from 0, or a release. */
  lemma StripeEffect(s: State, t: nat, s': State, i: nat)
    requires Step(s, t, s') && i < |s.words| && ThreadInv(|s.words|, s.threads[t])
    ensures |s'.words| == |s.words| && s'.threads == s.threads[t := s'.threads[t]]
    ensures var before, after := ModeAt(s.threads[t], i), ModeAt(s'.threads[t], i);
            if before == after then s'.words[i] == s.words[i]
            else if after.Exclusive? then before.Free? && s.words[i] == 0 && s'.words[i] == 1
            else before.Exclusive? && after.Free? && s'.words[i] == Int32(s.words[i] - 1)
  {
    hide Int32, NextStripe;
  }

  lemma StripeKept(s: State, t: nat, s': State, i: nat)
    requires Inv(s) && Step(s, t, s') && i < |s.words|
    ensures |s'.words| == |s.words| && LockInv(s'.words[i], ModesAt(s'.threads, i))
  {
    var modes := ModesAt(s.threads, i);
    var mode := ModeAt(s'.threads[t], i);
    assert LockInv(s.words[i], modes) && ThreadInv(|s.words|, s.threads[t]);
    StripeEffect(s, t, s', i);
    hide LockInv, Inv, Step, ThreadInv;
    assert ModesAt(s'.threads, i) == modes[t := mode];
    if mode == modes[t] {
      assert modes[t := mode] == modes;
    } else if mode.Exclusive? {
      AcquireExclusive(s.words[i], modes, t);
    } else {
      ReleaseExclusive(s.words[i], modes, t);
    }
  }

  lemma StepKeepsInv(s: State, t: nat, s': State)
    requires Inv(s) && Step(s, t, s')
    ensures Inv(s') && |s'.words| == |s.words|
  {
    assert ThreadInv(|s.words|, s.threads[t]);
    forall i | 0 <= i < |s'.words| ensures LockInv(s'.words[i], ModesAt(s'.threads, i)) {
      StripeKept(s, t, s', i);
    }
  }

  lemma {:induction false} RunInv(run: seq<State>, k: nat)
    requires IsRun(run) && k < |run|
    ensures Inv(run[k]) && |run[k].words| == |run[0].words|
  {
    if k == 0 {
      forall i | 0 <= i < |run[0].words| ensures LockInv(run[0].words[i], ModesAt(run[0].threads, i)) {
        AllFree(ModesAt(run[0].threads, i));
      }
    } else {
      RunInv(run, k - 1);
      hide Inv, Step;
      assert Next(run[k - 1], run[k - 1 + 1]);
      var t :| Step(run[k - 1], t, run[k]);
      StepKeepsInv(run[k - 1], t, run[k]);
    }
  }

  /** Each stripe has at most one recorder at any time, nobody records while another thread is
      between lockAll and unlockAll, and two threads are never both there. */
  lemma OneRecorderPerStripe(run: seq<State>, k: nat, t: nat, u: nat)
    requires IsRun(run) && k < |run| && t < |run[k].threads| && u < |run[k].threads| && t != u
    ensures var a, b := run[k].threads[t], run[k].threads[u];
            && (a.Recording? && b.Recording? ==> a.index != b.index)
            && (a.AllLocked? ==> !b.Recording? && !b.AllLocked?)
  {
    RunInv(run, k);
    var s := run[k];
    var a, b := s.threads[t], s.threads[u];
    assert ThreadInv(|s.words|, a) && ThreadInv(|s.words|, b);
    if b.Recording? && (a.Recording? || a.AllLocked?) {
      var modes := ModesAt(s.threads, b.index);
      assert modes[u] == Exclusive;
      if modes[t].Exclusive? {
        ExclusiveIsAlone(s.words[b.index], modes, t, u);
      }
    }
    if a.AllLocked? {
      RunHasStripes(run);
      var modes := ModesAt(s.threads, 0);
      assert modes[t] == Exclusive;
      ExclusiveIsAlone(s.words[0], modes, t, u);
      assert modes[u] == Free;
    }
  }

  lemma RunHasStripes(run: seq<State>)
    requires IsRun(run)
    ensures |run[0].words| > 0
  {
  }

  /** With sixteen stripes the three attempts of one sample are at three different stripes. */
  lemma AttemptsDiffer(index: nat)
    requires index < CONCURRENCY_LEVEL
    ensures var second := NextStripe(CONCURRENCY_LEVEL, 0, index);
            var third := NextStripe(CONCURRENCY_LEVEL, 1, second);
            index != second && index != third && second != third
  {
  }

  /** Thread `t` makes no step from state `k` to state `m`. */
  ghost predicate Waits(run: seq<State>, k: nat, m: nat, t: nat) {
    && k <= m < |run| && t < |run[k].threads|
    && forall n :: k <= n <= m ==> t < |run[n].threads| && run[n].threads[t] == run[k].threads[t]
  }

  /** In this state somebody holds the stripe. */
  ghost predicate Taken(s: State, stripe: nat) {
    exists u :: 0 <= u < |s.threads| && ModeAt(s.threads[u], stripe).Exclusive?
  }

  lemma TakenExact(run: seq<State>, k: nat, stripe: nat)
    requires IsRun(run) && k < |run| && stripe < |run[k].words|
    ensures run[k].words[stripe] == 0 <==> !Taken(run[k], stripe)
  {
    RunInv(run, k);
    var s := run[k];
    var modes := ModesAt(s.threads, stripe);
    assert LockInv(s.words[stripe], modes);
    WordTells(s.words[stripe], modes);
    hide LockInv, IsRun, Inv;
    forall t | 0 <= t < |s.threads| ensures modes[t] == ModeAt(s.threads[t], stripe) && !modes[t].Shared? {
    }
  }

  /** An attempt gets its stripe exactly if nobody holds it at that moment; the sample is dropped only
      with the third attempt. */
  lemma AttemptExact(run: seq<State>, k: nat, t: nat)
    requires IsRun(run) && k + 1 < |run| && Step(run[k], t, run[k + 1]) && run[k].threads[t].Trying?
    ensures |run[0].words| > 0
    ensures var pc, pc' := run[k].threads[t], run[k + 1].threads[t];
            if !Taken(run[k], pc.index) then pc' == Recording(pc.index)
            else if pc.attempt < 2 then
              pc' == Trying(pc.attempt + 1, (pc.index + pc.attempt + 1) % |run[0].words|)
            else pc'.Outside?
  {
    RunInv(run, k);
    RunHasStripes(run);
    assert ThreadInv(|run[k].words|, run[k].threads[t]);
    TakenExact(run, k, run[k].threads[t].index);
    hide IsRun, Taken, Inv;
  }

  lemma NextTwo(i: nat)
    ensures ((i + 1) % CONCURRENCY_LEVEL + 2) % CONCURRENCY_LEVEL == (i + 3) % CONCURRENCY_LEVEL
  {
  }

  /** A sample that began at stripe `i` and is dropped has found three different stripes taken, one after
      the other. */
  lemma DroppedAfterThree(run: seq<State>, k: nat, l: nat, m: nat, t: nat, i: nat)
    requires IsRun(run) && k < l < m && m + 1 < |run| && |run[0].words| == CONCURRENCY_LEVEL && i < CONCURRENCY_LEVEL
    requires t < |run[k].threads| && run[k].threads[t] == Trying(0, i)
    requires Step(run[k], t, run[k + 1]) && Waits(run, k + 1, l, t)
    requires Step(run[l], t, run[l + 1]) && Waits(run, l + 1, m, t) && Step(run[m], t, run[m + 1])
    requires run[k + 1].threads[t].Trying? && run[l + 1].threads[t].Trying? && run[m + 1].threads[t].Outside?
    ensures Taken(run[k], i) && Taken(run[l], (i + 1) % CONCURRENCY_LEVEL) && Taken(run[m], (i + 3) % CONCURRENCY_LEVEL)
  {
    hide IsRun, Taken, Step;
    assert run[l].threads[t] == run[k + 1].threads[t] && run[m].threads[t] == run[l + 1].threads[t];
    AttemptExact(run, k, t);
    AttemptExact(run, l, t);
    AttemptExact(run, m, t);
    NextTwo(i);
  }
}
