/** The reader/writer spin lock of spinLock.h as a state machine in which any number of threads
    run its operations, one atomic instruction at a time. The word is a signed 32-bit int. */
module SpinLock {
  import opened Words
  import opened LockWord

  /** Where a thread is. The `Cas` states carry the value read by the preceding relaxed load,
      which may be stale by the time of the compare-and-swap. */
  datatype Pc =
    | Idle
    | Spin                      // inside lock()
    | TryShared                 // inside tryLockShared(), about to load
    | TrySharedCas(value: int)
    | LockShared                // inside lockShared(), about to load
    | LockSharedCas(value: int)
    | HoldsShared
    | HoldsExclusive

  datatype State = State(word: int, threads: seq<Pc>)

  function ModeOf(pc: Pc): Mode {
    match pc
    case HoldsShared => Shared
    case HoldsExclusive => Exclusive
    case _ => Free
  }

  function Modes(threads: seq<Pc>): (modes: seq<Mode>)
    ensures |modes| == |threads|
    ensures forall i :: 0 <= i < |threads| ==> modes[i] == ModeOf(threads[i])
  {
    seq(|threads|, i requires 0 <= i < |threads| => ModeOf(threads[i]))
  }

  ghost predicate Init(s: State) {
    && s.word == 0
    && |s.threads| <= THREAD_LIMIT
    && forall i :: 0 <= i < |s.threads| ==> s.threads[i].Idle?
  }

  /** The outcome of a compare-and-swap of the word by thread `t`. */
  ghost predicate Cas(s: State, t: nat, expected: int, desired: int, hit: Pc, miss: Pc, s': State)
    requires t < |s.threads|
  {
    if s.word == expected
    then s' == State(desired, s.threads[t := hit])
    else s' == s.(threads := s.threads[t := miss])
  }

  /** One atomic instruction of thread `t`. */
  ghost predicate Step(s: State, t: nat, s': State) {
    && t < |s.threads|
    && match s.threads[t]
       case Idle =>
         || Cas(s, t, 0, 1, HoldsExclusive, Idle, s')             // tryLock
         || s' == s.(threads := s.threads[t := Spin])             // lock
         || s' == s.(threads := s.threads[t := TryShared])        // tryLockShared
         || s' == s.(threads := s.threads[t := LockShared])       // lockShared
       case Spin => Cas(s, t, 0, 1, HoldsExclusive, Spin, s')
       case TryShared =>
         s' == s.(threads := s.threads[t := if s.word <= 0 then TrySharedCas(s.word) else Idle])
       case TrySharedCas(v) => Cas(s, t, v, Int32(v - 1), HoldsShared, TryShared, s')
       case LockShared =>
         s' == s.(threads := s.threads[t := if s.word > 0 then LockShared else LockSharedCas(s.word)])
       case LockSharedCas(v) => Cas(s, t, v, Int32(v - 1), HoldsShared, LockShared, s')
       case HoldsShared => s' == State(Int32(s.word + 1), s.threads[t := Idle])
       case HoldsExclusive => s' == State(Int32(s.word - 1), s.threads[t := Idle])
  }

  ghost predicate Next(s: State, s': State) {
    exists t :: Step(s, t, s')
  }

  ghost predicate IsRun(run: seq<State>) {
    && |run| > 0
    && Init(run[0])
    && forall i :: 0 <= i < |run| - 1 ==> Next(run[i], run[i + 1])
  }

  ghost predicate Inv(s: State) {
    && |s.threads| <= THREAD_LIMIT
    && LockInv(s.word, Modes(s.threads))
    && forall i :: 0 <= i < |s.threads| ==>
         && (s.threads[i].TrySharedCas? ==> s.threads[i].value <= 0)
         && (s.threads[i].LockSharedCas? ==> s.threads[i].value <= 0)
  }

  lemma StepKeepsInv(s: State, t: nat, s': State)
    requires Inv(s) && Step(s, t, s')
    ensures Inv(s')
  {
    var modes := Modes(s.threads);
    assert Modes(s'.threads) == modes[t := ModeOf(s'.threads[t])];
    if modes[t].Exclusive? {
      ReleaseExclusive(s.word, modes, t);
    } else if modes[t].Shared? {
      ReleaseShared(s.word, modes, t);
    } else if s'.threads[t].HoldsExclusive? {
      AcquireExclusive(s.word, modes, t);
    } else if s'.threads[t].HoldsShared? {
      AcquireShared(s.word, modes, t);
    } else {
      assert modes[t := Free] == modes;
    }
  }

  /** In every state of every run the word tells exactly who holds the lock: it is positive iff
      there is a writer, and then it is 1 and there is one writer and no reader; otherwise its
      absolute value is the number of readers. No two holders coexist with a writer. */
  lemma {:induction false} WordCountsHolders(run: seq<State>, i: nat)
    requires IsRun(run) && i < |run|
    ensures var s := run[i];
            && Inv(s)
            && Writers(Modes(s.threads)) == (if s.word > 0 then 1 else 0)
            && Readers(Modes(s.threads)) == (if s.word > 0 then 0 else -s.word)
            && s.word <= 1
    ensures forall t, u :: 0 <= t < |run[i].threads| && 0 <= u < |run[i].threads| && t != u
              && run[i].threads[t].HoldsExclusive?
              ==> !run[i].threads[u].HoldsExclusive? && !run[i].threads[u].HoldsShared?
  {
    if i == 0 {
      AllFree(Modes(run[0].threads));
    } else {
      WordCountsHolders(run, i - 1);
      assert Next(run[i - 1], run[i]);
      var t :| Step(run[i - 1], t, run[i]);
      StepKeepsInv(run[i - 1], t, run[i]);
    }
    var s := run[i];
    WordMeaning(s.word, Modes(s.threads));
    forall t, u | 0 <= t < |s.threads| && 0 <= u < |s.threads| && t != u && s.threads[t].HoldsExclusive?
      ensures !s.threads[u].HoldsExclusive? && !s.threads[u].HoldsShared?
    {
      ExclusiveIsAlone(s.word, Modes(s.threads), t, u);
      assert ModeOf(s.threads[u]) == Free;
    }
  }

  // ---------------------------------------------------------------------------------------
  // Who gets the lock
  // ---------------------------------------------------------------------------------------

  ghost predicate SomeWriter(s: State) {
    exists t :: 0 <= t < |s.threads| && s.threads[t].HoldsExclusive?
  }

  ghost predicate SomeReader(s: State) {
    exists t :: 0 <= t < |s.threads| && s.threads[t].HoldsShared?
  }

  lemma WordOfHolders(run: seq<State>, i: nat)
    requires IsRun(run) && i < |run|
    ensures run[i].word > 0 <==> SomeWriter(run[i])
    ensures run[i].word < 0 <==> SomeReader(run[i])
  {
    WordCountsHolders(run, i);
    var s := run[i];
    var modes := Modes(s.threads);
    WordTells(s.word, modes);
    hide LockInv, IsRun;
    forall t | 0 <= t < |s.threads|
      ensures (s.threads[t].HoldsExclusive? <==> modes[t].Exclusive?)
          && (s.threads[t].HoldsShared? <==> modes[t].Shared?)
    {
      assert modes[t] == ModeOf(s.threads[t]);
    }
  }

  /** tryLockShared gives up exactly when it reads the word while there is a writer; other readers never
      make it give up. */
  lemma ReaderRefusedExact(run: seq<State>, i: nat, t: nat)
    requires IsRun(run) && i + 1 < |run| && Step(run[i], t, run[i + 1])
    requires run[i].threads[t].TryShared? || run[i].threads[t].TrySharedCas?
    ensures run[i + 1].threads[t].Idle? <==> run[i].threads[t].TryShared? && SomeWriter(run[i])
  {
    WordOfHolders(run, i);
    hide IsRun, Int32;
  }

  /** Thread `t` makes no step from state `k` to state `m`. */
  ghost predicate Waits(run: seq<State>, k: nat, m: nat, t: nat) {
    && k <= m < |run| && t < |run[k].threads|
    && forall n :: k <= n <= m ==> t < |run[n].threads| && run[n].threads[t] == run[k].threads[t]
  }

  /** A reader that finds no writer gets the lock with its next step if the number of readers is the same
      then and there is still no writer, however many readers there are; else it tries again. */
  lemma ReaderSucceeds(run: seq<State>, i: nat, m: nat, t: nat)
    requires IsRun(run) && i + 1 <= m && m + 1 < |run|
    requires Step(run[i], t, run[i + 1]) && Waits(run, i + 1, m, t) && Step(run[m], t, run[m + 1])
    requires (run[i].threads[t].TryShared? || run[i].threads[t].LockShared?) && !SomeWriter(run[i])
    ensures if !SomeWriter(run[m]) && Readers(Modes(run[m].threads)) == Readers(Modes(run[i].threads))
            then run[m + 1].threads[t].HoldsShared?
            else run[m + 1].threads[t] == run[i].threads[t]
  {
    WordOfHolders(run, i);
    WordOfHolders(run, m);
    WordCountsHolders(run, i);
    WordCountsHolders(run, m);
    assert run[m].threads[t] == run[i + 1].threads[t];
    hide IsRun, Int32, Inv, Readers, Writers, SomeWriter, SomeReader;
  }

  /** A writer gets the lock exactly when it looks while nobody has it, in one step. */
  lemma WriterSucceedsExact(run: seq<State>, i: nat, t: nat)
    requires IsRun(run) && i + 1 < |run| && Step(run[i], t, run[i + 1]) && run[i].threads[t].Spin?
    ensures if SomeWriter(run[i]) || SomeReader(run[i]) then run[i + 1].threads[t].Spin?
            else run[i + 1].threads[t].HoldsExclusive?
  {
    WordOfHolders(run, i);
    hide IsRun;
  }

  /** Unlocking takes one step and gives back what was held. */
  lemma UnlockReleases(run: seq<State>, i: nat, t: nat)
    requires IsRun(run) && i + 1 < |run| && Step(run[i], t, run[i + 1])
    requires run[i].threads[t].HoldsShared? || run[i].threads[t].HoldsExclusive?
    ensures run[i + 1].threads[t].Idle?
    ensures Readers(Modes(run[i + 1].threads))
         == Readers(Modes(run[i].threads)) - (if run[i].threads[t].HoldsShared? then 1 else 0)
    ensures run[i].threads[t].HoldsExclusive? ==> !SomeWriter(run[i + 1])
  {
    WordCountsHolders(run, i);
    WordCountsHolders(run, i + 1);
    WordOfHolders(run, i + 1);
    var modes := Modes(run[i].threads);
    ModeCounts(modes, t, Free);
    assert Modes(run[i + 1].threads) == modes[t := Free];
    hide IsRun, Inv, Readers, Writers, SomeWriter, SomeReader;
  }
}
