/** What `alloc` answers. Every call that returns has either been granted one block of exactly the size
    asked for, or has seen an allocation of memory fail while there was no reserve beyond the full
    chunk; and a thread that has left a full chunk goes on in a newer one. */
module AllocAnswers {
  import opened LinearAllocator

  ghost predicate Moves(run: seq<State>, k: nat, t: nat) {
    && k + 1 < |run| && t < |run[k].threads| == |run[k + 1].threads| && Step(run[k], t, run[k + 1])
  }

  /** Step `k` grants thread `t` a block of `size` bytes, at the offset of its chunk. */
  ghost predicate Grants(run: seq<State>, k: nat, t: nat, size: nat) {
    && Moves(run, k, t) && run[k].threads[t].CasOffs?
    && var c := run[k].threads[t].chunk;
       && c in run[k].heap.chunks
       && run[k + 1].blocks == run[k].blocks + [Block(c, run[k].heap.chunks[c].offs, size)]
  }

  /** Thread `t` has been granted one block, by step `k`, from state `i` to state `j`. */
  ghost predicate GrantedOnce(run: seq<State>, i: nat, j: nat, t: nat, size: nat) {
    exists k: nat :: GrantedAt(run, i, j, t, size, k)
  }

  ghost predicate GrantedAt(run: seq<State>, i: nat, j: nat, t: nat, size: nat, k: nat) {
    && i <= k < j && Grants(run, k, t, size)
    && forall l: nat, n: nat :: i <= l < j && Grants(run, l, t, n) ==> l == k
  }

  ghost predicate NothingGranted(run: seq<State>, i: nat, j: nat, t: nat) {
    forall l: nat, n: nat :: i <= l < j ==> !Grants(run, l, t, n)
  }

  /** In step `k` thread `t`, having found chunk `c` full, read that the reserve is still `c`. */
  ghost predicate ReadsNoReserve(run: seq<State>, k: nat, t: nat, size: nat, c: nat) {
    && Moves(run, k, t) && run[k].threads[t] == LoadReserve(size, c) && run[k].heap.reserve == c
    && run[k + 1].threads[t] == NextAlloc(size, c)
  }

  ghost predicate ReadNoReserve(run: seq<State>, i: nat, j: nat, t: nat, size: nat, c: nat) {
    exists k: nat :: i <= k < j && ReadsNoReserve(run, k, t, size, c)
  }

  /** What thread `t` has done since it began to allocate in state `i`. */
  ghost predicate Story(run: seq<State>, i: nat, j: nat, t: nat, size: nat)
    requires j < |run| && t < |run[j].threads|
  {
    match run[j].threads[t]
    case Idle => false
    case ReserveAlloc(b) => b.size == size && GrantedOnce(run, i, j, t, size)
    case ReserveCas(b, _) => b.size == size && GrantedOnce(run, i, j, t, size)
    case ReserveFree(b, _) => b.size == size && GrantedOnce(run, i, j, t, size)
    case NextAlloc(n, c) => n == size && NothingGranted(run, i, j, t) && ReadNoReserve(run, i, j, t, size, c)
    case pc => pc.size == size && NothingGranted(run, i, j, t)
  }

  /** Thread `t` is inside one call of `alloc(size)` from state `i` to state `j`. */
  ghost predicate Allocating(run: seq<State>, i: nat, j: nat, t: nat, size: nat) {
    && i <= j < |run| && (forall m :: i <= m <= j ==> t < |run[m].threads| && !run[m].threads[t].Idle?)
    && run[i].threads[t] == LoadTail(size)
  }

  // ---------------------------------------------------------------------------------------
  // Going on
  // ---------------------------------------------------------------------------------------

  lemma Mover(run: seq<State>, k: nat, t: nat) returns (u: nat)
    requires IsRun(run) && k + 1 < |run| && t < |run[k].threads| && !run[k].threads[t].Idle?
    ensures Moves(run, k, u)
    ensures u != t ==> t < |run[k + 1].threads| && run[k + 1].threads[t] == run[k].threads[t]
    ensures forall v: nat, n: nat :: Grants(run, k, v, n) ==> v == u
  {
    assert Next(run[k], run[k + 1]);
    hide IsRun, Instruction, Bumps;
    assert !Clears(run[k], run[k + 1]);
    u :| Step(run[k], u, run[k + 1]);
    forall v: nat, n: nat | Grants(run, k, v, n) ensures v == u {
      if v != u {
        GrantMoves(run, k, v, n);
      }
    }
  }

  lemma GrantMoves(run: seq<State>, k: nat, t: nat, n: nat)
    requires Grants(run, k, t, n)
    ensures run[k + 1].threads[t] != run[k].threads[t]
  {
  }

  lemma StoryStays(run: seq<State>, i: nat, j: nat, t: nat, size: nat)
    requires i <= j && j + 1 < |run| && t < |run[j].threads| && t < |run[j + 1].threads|
    requires Story(run, i, j, t, size) && run[j + 1].threads[t] == run[j].threads[t]
    requires forall n: nat :: !Grants(run, j, t, n)
    ensures Story(run, i, j + 1, t, size)
  {
    hide Grants, ReadsNoReserve;
    if GrantedOnce(run, i, j, t, size) {
      var k: nat :| GrantedAt(run, i, j, t, size, k);
      assert GrantedAt(run, i, j + 1, t, size, k);
    }
    var pc := run[j].threads[t];
    if pc.NextAlloc? {
      var k: nat :| i <= k < j && ReadsNoReserve(run, k, t, size, pc.chunk);
      assert i <= k < j + 1;
    }
  }

  /** The thread's own step. */
  lemma StoryGoesOn(run: seq<State>, i: nat, j: nat, t: nat, size: nat)
    requires i <= j && Moves(run, j, t) && Story(run, i, j, t, size) && !run[j + 1].threads[t].Idle?
    ensures Story(run, i, j + 1, t, size)
  {
    var s, s', pc, pc' := run[j], run[j + 1], run[j].threads[t], run[j + 1].threads[t];
    if s'.blocks == s.blocks {
      OwnMoveGrants(run, j, t);
      StoryWithout(run, i, j, t, size);
    } else {
      assert Grants(run, j, t, size);
      hide Grants, Step;
      GrantNow(run, i, j, t, size);
    }
  }

  lemma OwnMoveGrants(run: seq<State>, j: nat, t: nat)
    requires Moves(run, j, t) && run[j + 1].blocks == run[j].blocks
    ensures forall n: nat :: !Grants(run, j, t, n)
  {
  }

  lemma StoryWithout(run: seq<State>, i: nat, j: nat, t: nat, size: nat)
    requires i <= j && Moves(run, j, t) && Story(run, i, j, t, size) && !run[j + 1].threads[t].Idle?
    requires run[j + 1].blocks == run[j].blocks && forall n: nat :: !Grants(run, j, t, n)
    ensures Story(run, i, j + 1, t, size)
  {
    var pc, pc' := run[j].threads[t], run[j + 1].threads[t];
    hide Grants, WithChunk, WithoutChunk;
    if GrantedOnce(run, i, j, t, size) {
      var k: nat :| GrantedAt(run, i, j, t, size, k);
      assert GrantedAt(run, i, j + 1, t, size, k);
    }
    if pc'.NextAlloc? {
      assert ReadsNoReserve(run, j, t, size, pc'.chunk);
    }
  }

  lemma GrantNow(run: seq<State>, i: nat, j: nat, t: nat, size: nat)
    requires i <= j && Grants(run, j, t, size) && NothingGranted(run, i, j, t)
    ensures GrantedOnce(run, i, j + 1, t, size)
  {
    hide Grants;
    assert GrantedAt(run, i, j + 1, t, size, j);
  }

  lemma StoryBegins(run: seq<State>, i: nat, t: nat, size: nat)
    requires i < |run| && t < |run[i].threads| && run[i].threads[t] == LoadTail(size)
    ensures Story(run, i, i, t, size)
  {
  }

  lemma {:induction false} StoryHolds(run: seq<State>, i: nat, j: nat, t: nat, size: nat)
    requires IsRun(run) && Allocating(run, i, j, t, size)
    ensures Story(run, i, j, t, size)
    decreases j
  {
    hide IsRun, Story, Moves, Grants;
    if i == j {
      StoryBegins(run, i, t, size);
    } else {
      StoryHolds(run, i, j - 1, t, size);
      var u := Mover(run, j - 1, t);
      if u == t {
        StoryGoesOn(run, i, j - 1, t, size);
      } else {
        StoryStays(run, i, j - 1, t, size);
      }
    }
  }

  /** In step `k` thread `t` finds that no memory can be had for a successor of chunk `c`. */
  ghost predicate NoMemory(run: seq<State>, k: nat, t: nat, size: nat, c: nat) {
    Moves(run, k, t) && run[k].threads[t] == NextAlloc(size, c) && run[k + 1].heap == run[k].heap
  }

  /** Every call of `alloc(size)` that returns was granted exactly one block, of exactly that size; or it
      was granted none, the last thing it did was to fail to get memory for a new chunk, and before it
      had read that there was no reserve behind the chunk it was at. */
  lemma AllocAnswers(run: seq<State>, i: nat, j: nat, t: nat, size: nat)
    requires IsRun(run) && Allocating(run, i, j, t, size) && j + 1 < |run|
    requires t < |run[j + 1].threads| && run[j + 1].threads[t].Idle?
    ensures GrantedOnce(run, i, j + 1, t, size)
         || (NothingGranted(run, i, j + 1, t)
             && exists c :: NoMemory(run, j, t, size, c) && ReadNoReserve(run, i, j, t, size, c))
  {
    StoryHolds(run, i, j, t, size);
    var u := Mover(run, j, t);
    LastStep(run, i, j, t, size);
  }

  lemma LastStep(run: seq<State>, i: nat, j: nat, t: nat, size: nat)
    requires i <= j && Moves(run, j, t) && Story(run, i, j, t, size) && run[j + 1].threads[t].Idle?
    ensures GrantedOnce(run, i, j + 1, t, size)
         || (NothingGranted(run, i, j + 1, t)
             && exists c :: NoMemory(run, j, t, size, c) && ReadNoReserve(run, i, j, t, size, c))
  {
    var pc := run[j].threads[t];
    if run[j + 1].blocks == run[j].blocks {
      OwnMoveGrants(run, j, t);
      if pc.NextAlloc? {
        assert NoMemory(run, j, t, size, pc.chunk);
        hide Grants;
      } else {
        assert GrantedOnce(run, i, j, t, size);
        hide Grants, Step;
        var k: nat :| GrantedAt(run, i, j, t, size, k);
        assert GrantedAt(run, i, j + 1, t, size, k);
      }
    } else {
      assert Grants(run, j, t, size);
      hide Grants, Step;
      GrantNow(run, i, j, t, size);
    }
  }

  // ---------------------------------------------------------------------------------------
  // The next chunk
  // ---------------------------------------------------------------------------------------

  /** A thread leaves a chunk only when the block it wants does not fit behind the chunk's offset, and it
      then looks for the next chunk. */
  lemma LeavesFullChunk(run: seq<State>, k: nat, t: nat, size: nat, c: nat)
    requires IsRun(run) && Moves(run, k, t) && run[k].threads[t] == LoadOffs(size, c)
    ensures c in run[k].heap.chunks
    ensures var offs := run[k].heap.chunks[c].offs;
            run[k + 1].threads[t]
            == if offs + size <= run[k].heap.chunkSize then CasOffs(size, c, offs) else LoadReserve(size, c)
  {
    var rank := RunInv(run, k);
    assert ThreadInv(run[k].heap, rank, run[k].threads[t]);
    FitsExactly(run[k].heap.chunkSize, run[k].heap.chunks[c].offs, size);
    hide Fits, IsRun, Inv;
  }

  /** Chunk `d` is published and was published after `c`. */
  ghost predicate Newer(s: State, c: nat, d: nat) {
    exists rank: map<nat, nat> :: Inv(s, rank) && c in rank && d in rank && rank[c] < rank[d]
  }

  predicate SeeksNext(pc: Pc) {
    pc.LoadReserve? || pc.NextAlloc? || pc.NextCas? || pc.NextFree? || pc.CasTail?
  }

  /** Whenever a thread comes back from looking for the next chunk, it is at the tail, and that is a newer
      chunk than the one it left. */
  lemma NextChunkIsNewer(run: seq<State>, k: nat, t: nat)
    requires IsRun(run) && Moves(run, k, t) && SeeksNext(run[k].threads[t])
    requires run[k + 1].threads[t].LoadOffs?
    ensures run[k + 1].threads[t].chunk == run[k + 1].heap.tail
    ensures Newer(run[k + 1], run[k].threads[t].chunk, run[k + 1].heap.tail)
  {
    var rank := RunInv(run, k);
    var s, s' := run[k], run[k + 1];
    assert ThreadInv(s.heap, rank, s.threads[t]);
    var rank' := StepKeepsInv(s, rank, t, s');
    StepForward(s, rank, t, s', rank');
    hide IsRun, Inv, HeapInv, Bumps;
  }

  lemma StepForward(s: State, rank: map<nat, nat>, t: nat, s': State, rank': map<nat, nat>)
    requires Inv(s, rank) && Inv(s', rank') && Step(s, t, s') && s.threads[t].CasTail? && s'.threads[t].LoadOffs?
    ensures var c, d := s.threads[t].chunk, s'.heap.tail;
            s'.threads[t].chunk == d && c in rank' && d in rank' && rank'[c] < rank'[d]
  {
    assert ThreadInv(s.heap, rank, s.threads[t]);
    assert ThreadInv(s'.heap, rank', s'.threads[t]);
  }

  /** Thread `t` makes no step from state `k` to state `m`. */
  ghost predicate Waits(run: seq<State>, k: nat, m: nat, t: nat) {
    && k <= m < |run| && t < |run[k].threads|
    && forall n :: k <= n <= m ==> t < |run[n].threads| && run[n].threads[t] == run[k].threads[t]
  }

  /** A thread that reads a reserve behind its full chunk allocates nothing: its next step takes it to the
      tail, which is that reserve if the chunk is still the tail, and a newer chunk in any case. */
  lemma ReserveIsTaken(run: seq<State>, k: nat, m: nat, t: nat, size: nat, c: nat)
    requires IsRun(run) && Moves(run, k, t) && run[k].threads[t] == LoadReserve(size, c) && run[k].heap.reserve != c
    requires Waits(run, k + 1, m, t) && Moves(run, m, t)
    ensures run[m + 1].threads[t] == LoadOffs(size, run[m + 1].heap.tail)
    ensures run[m + 1].heap.chunks == run[m].heap.chunks && run[m + 1].blocks == run[m].blocks
    ensures Newer(run[m + 1], c, run[m + 1].heap.tail)
    ensures run[m].heap.tail == c ==> run[m + 1].heap.tail == run[k].heap.reserve
  {
    assert run[m].threads[t] == CasTail(size, c, run[k].heap.reserve);
    NextChunkIsNewer(run, m, t);
    hide IsRun, Newer;
  }

  // ---------------------------------------------------------------------------------------
  // The reserve
  // ---------------------------------------------------------------------------------------

  /** A grant sends the thread to prepare the next chunk exactly if the block covers the middle of its
      chunk; otherwise the call returns at once. */
  lemma GrantReturns(run: seq<State>, k: nat, t: nat, size: nat)
    requires IsRun(run) && Grants(run, k, t, size)
    ensures var b := run[k + 1].blocks[|run[k].blocks|];
            run[k + 1].threads[t] == if b.offs <= run[k].heap.chunkSize / 2 < b.offs + b.size then ReserveAlloc(b)
                                     else Idle
  {
    var rank := RunInv(run, k);
    var pc := run[k].threads[t];
    assert ThreadInv(run[k].heap, rank, pc);
    MiddleTestIsExact(run[k].heap.chunkSize, Block(pc.chunk, pc.offs, pc.size));
    hide StepsOverMiddle, IsRun, Inv;
  }

  ghost predicate Prepared(run: seq<State>, i: nat, j: nat, c: nat) {
    exists m: nat :: i <= m <= j && m < |run| && run[m].heap.reserve != c
  }

  /** Preparing a block's successor chunk. */
  ghost predicate Preparing(run: seq<State>, i: nat, j: nat, t: nat, b: Block) {
    && i <= j < |run| && (forall m :: i <= m <= j ==> t < |run[m].threads| && !run[m].threads[t].Idle?)
    && run[i].threads[t] == ReserveAlloc(b)
  }

  predicate PreparesBlock(pc: Pc, b: Block) {
    pc == ReserveAlloc(b) || (pc.ReserveCas? && pc.block == b) || (pc.ReserveFree? && pc.block == b)
  }

  lemma {:induction false} StillPreparing(run: seq<State>, i: nat, j: nat, t: nat, b: Block)
    requires IsRun(run) && Preparing(run, i, j, t, b)
    ensures PreparesBlock(run[j].threads[t], b)
    ensures run[j].threads[t].ReserveFree? ==> Prepared(run, i, j, b.chunk)
    decreases j
  {
    if i < j {
      StillPreparing(run, i, j - 1, t, b);
      var u := Mover(run, j - 1, t);
      hide IsRun, Bumps;
      if Prepared(run, i, j - 1, b.chunk) {
        var m: nat :| i <= m <= j - 1 && run[m].heap.reserve != b.chunk;
        assert i <= m <= j;
      }
    }
  }

  /** When the call that was granted the block over the middle returns, there has been a reserve behind
      its chunk, or the last thing it did was to fail to get memory for one. */
  lemma MiddlePrepares(run: seq<State>, i: nat, j: nat, t: nat, b: Block)
    requires IsRun(run) && Preparing(run, i, j, t, b) && j + 1 < |run|
    requires t < |run[j + 1].threads| && run[j + 1].threads[t].Idle?
    ensures Prepared(run, i, j + 1, b.chunk)
         || (run[j].threads[t] == ReserveAlloc(b) && run[j + 1].heap == run[j].heap)
  {
    StillPreparing(run, i, j, t, b);
    var u := Mover(run, j, t);
    var rank := RunInv(run, j);
    assert ThreadInv(run[j].heap, rank, run[j].threads[t]);
    hide IsRun, Bumps, Inv, HeapInv;
    if Prepared(run, i, j, b.chunk) {
      var m: nat :| i <= m <= j && run[m].heap.reserve != b.chunk;
      assert i <= m <= j + 1;
    } else if run[j].threads[t].ReserveCas? {
      assert run[j + 1].heap.reserve != b.chunk;
    }
  }
}
