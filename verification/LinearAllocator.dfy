/** The lock-free bump allocator of linearAllocator.cpp.

    `alloc` is modelled as a state machine: any number of threads run it at once, one atomic
    load, compare-and-swap, allocation or deallocation at a time. A chunk is named by its
    address; an address may be handed out again once its chunk is freed. `clear`, which the
    owner runs while no `alloc` is active, is the imperative method `Arena.Clear`, and the
    machine may take its effect as a step whenever every thread is idle. */
module LinearAllocator {
  import opened Words

  /** sizeof(Chunk): two words and 56 bytes of padding. */
  const HEADER: nat := 72

  const MAX_CHUNK: nat := 0x8000_0000_0000_0000

  datatype Link = Null | To(id: nat)

  datatype Chunk = Chunk(prev: Link, offs: nat)

  /** A range of bytes inside a chunk. */
  datatype Block = Block(chunk: nat, offs: nat, size: nat)

  /** Where a thread is inside `alloc`; each state is about to do the named instruction. */
  datatype Pc =
    | Idle
    | LoadTail(size: nat)
    | LoadOffs(size: nat, chunk: nat)
    | CasOffs(size: nat, chunk: nat, offs: nat)
    // reserveChunk(block.chunk), after which `block` is returned
    | ReserveAlloc(block: Block)
    | ReserveCas(block: Block, mine: nat)
    | ReserveFree(block: Block, mine: nat)
    // getNextChunk(chunk)
    | LoadReserve(size: nat, chunk: nat)
    | NextAlloc(size: nat, chunk: nat)
    | NextCas(size: nat, chunk: nat, mine: nat)
    | NextFree(size: nat, chunk: nat, mine: nat, seen: nat)
    | CasTail(size: nat, chunk: nat, next: nat)

  /** The allocator object and the memory it manages: `chunks` holds exactly the chunks
      allocated and not yet freed. */
  datatype Heap = Heap(chunkSize: nat, chunks: map<nat, Chunk>, tail: nat, reserve: nat)

  /** `blocks` records every block whose bump succeeded since the last `clear`, in order. */
  datatype State = State(heap: Heap, threads: seq<Pc>, blocks: seq<Block>)

  ghost predicate Init(s: State) {
    && HEADER <= s.heap.chunkSize <= MAX_CHUNK
    && s.heap.chunks == map[s.heap.tail := Chunk(Null, HEADER)]
    && s.heap.reserve == s.heap.tail
    && s.blocks == []
    && Quiescent(s)
  }

  /** `offs + size <= _chunk_size` in size_t arithmetic. */
  predicate Fits(chunkSize: nat, offs: nat, size: nat) {
    (offs + size) % U64 <= chunkSize
  }

  /** `_chunk_size / 2 - offs < size` in size_t arithmetic. */
  predicate StepsOverMiddle(chunkSize: nat, offs: nat, size: nat) {
    (chunkSize / 2 - offs) % U64 < size
  }

  /** allocateChunk(current) when safeAlloc returns the unused address `mine`. */
  function WithChunk(h: Heap, current: nat, mine: nat): Heap {
    h.(chunks := h.chunks[mine := Chunk(To(current), HEADER)])
  }

  function WithoutChunk(h: Heap, mine: nat): Heap {
    h.(chunks := h.chunks - {mine})
  }

  function WithOffset(h: Heap, c: nat, offs: nat): Heap
    requires c in h.chunks
  {
    h.(chunks := h.chunks[c := h.chunks[c].(offs := offs)])
  }

  /** One atomic instruction of a thread at `pc`: the heap and program counter after it. The
      successful bump, which also grants a block, is `Bumps`. */
  ghost predicate Instruction(h: Heap, pc: Pc, h': Heap, pc': Pc) {
    match pc
    case Idle => h' == h && pc'.LoadTail? && h.chunkSize + pc'.size < U64
    case LoadTail(size) => h' == h && pc' == LoadOffs(size, h.tail)
    case LoadOffs(size, c) =>
      && h' == h && c in h.chunks
      && pc' == if Fits(h.chunkSize, h.chunks[c].offs, size) then CasOffs(size, c, h.chunks[c].offs)
                else LoadReserve(size, c)
    case CasOffs(size, c, offs) =>
      h' == h && c in h.chunks && h.chunks[c].offs != offs && pc' == LoadOffs(size, c)
    case ReserveAlloc(b) =>
      || (h' == h && pc' == Idle)
      || (pc'.ReserveCas? && pc'.block == b && pc'.mine !in h.chunks && h' == WithChunk(h, b.chunk, pc'.mine))
    case ReserveCas(b, mine) =>
      if h.reserve == b.chunk then h' == h.(reserve := mine) && pc' == Idle
      else h' == h && pc' == ReserveFree(b, mine)
    case ReserveFree(b, mine) => h' == WithoutChunk(h, mine) && pc' == Idle
    case LoadReserve(size, c) =>
      h' == h && pc' == if h.reserve == c then NextAlloc(size, c) else CasTail(size, c, h.reserve)
    case NextAlloc(size, c) =>
      || (h' == h && pc' == Idle)                                   // alloc returns NULL
      || (pc'.NextCas? && pc' == NextCas(size, c, pc'.mine) && pc'.mine !in h.chunks
          && h' == WithChunk(h, c, pc'.mine))
    case NextCas(size, c, mine) =>
      if h.reserve == c then h' == h.(reserve := mine) && pc' == CasTail(size, c, mine)
      else h' == h && pc' == NextFree(size, c, mine, h.reserve)
    case NextFree(size, c, mine, seen) => h' == WithoutChunk(h, mine) && pc' == CasTail(size, c, seen)
    case CasTail(size, c, next) =>
      if h.tail == c then h' == h.(tail := next) && pc' == LoadOffs(size, next)
      else h' == h && pc' == LoadOffs(size, h.tail)
  }

  /** The compare-and-swap on the chunk's offset succeeds and grants block `b`. */
  ghost predicate Bumps(h: Heap, pc: Pc, h': Heap, pc': Pc, b: Block) {
    && pc.CasOffs? && pc.chunk in h.chunks && h.chunks[pc.chunk].offs == pc.offs
    && h' == WithOffset(h, pc.chunk, (pc.offs + pc.size) % U64)
    && b == Block(pc.chunk, pc.offs, pc.size)
    && pc' == if StepsOverMiddle(h.chunkSize, pc.offs, pc.size) then ReserveAlloc(b) else Idle
  }

  ghost predicate Step(s: State, t: nat, s': State) {
    && t < |s.threads| == |s'.threads|
    && s'.threads == s.threads[t := s'.threads[t]]
    && ( || (Instruction(s.heap, s.threads[t], s'.heap, s'.threads[t]) && s'.blocks == s.blocks)
         || (|s'.blocks| > 0 && s'.blocks == s.blocks + [s'.blocks[|s'.blocks| - 1]]
             && Bumps(s.heap, s.threads[t], s'.heap, s'.threads[t], s'.blocks[|s'.blocks| - 1])))
  }

  ghost predicate Quiescent(s: State) {
    forall t :: 0 <= t < |s.threads| ==> s.threads[t].Idle?
  }

  /** What `clear` leaves: the first chunk alone, empty, as both tail and reserve. */
  ghost predicate ClearedTo(h: Heap, h': Heap) {
    && h'.tail in h.chunks && h.chunks[h'.tail].prev.Null?
    && h' == Heap(h.chunkSize, map[h'.tail := Chunk(Null, HEADER)], h'.tail, h'.tail)
  }

  ghost predicate Clears(s: State, s': State) {
    Quiescent(s) && ClearedTo(s.heap, s'.heap) && s' == State(s'.heap, s.threads, [])
  }

  ghost predicate Next(s: State, s': State) {
    Clears(s, s') || exists t :: Step(s, t, s')
  }

  ghost predicate IsRun(run: seq<State>) {
    && |run| > 0
    && Init(run[0])
    && forall i :: 0 <= i < |run| - 1 ==> Next(run[i], run[i + 1])
  }

  // ---------------------------------------------------------------------------------------
  // The invariant, relative to the published chunks and their positions, oldest first
  // ---------------------------------------------------------------------------------------

  /** The published chunks form one chain: `rank` gives each its position, and each points
      back to the chunk one position earlier. */
  ghost predicate Linked(chunks: map<nat, Chunk>, rank: map<nat, nat>) {
    && rank.Keys <= chunks.Keys
    && (forall c, d :: c in rank && d in rank && rank[c] == rank[d] ==> c == d)
    && forall c {:trigger LinkAt(chunks, rank, c)} :: c in rank ==> LinkAt(chunks, rank, c)
  }

  ghost predicate LinkAt(chunks: map<nat, Chunk>, rank: map<nat, nat>, c: nat) {
    && c in rank && c in chunks
    && match chunks[c].prev
       case Null => rank[c] == 0
       case To(p) => p in rank && rank[p] + 1 == rank[c]
  }

  /** The reserve is the newest published chunk; the tail is that chunk or the one before. */
  ghost predicate Ends(h: Heap, rank: map<nat, nat>) {
    && h.reserve in rank && h.tail in rank
    && rank[h.tail] <= rank[h.reserve] <= rank[h.tail] + 1
    && forall c :: c in rank ==> rank[c] <= rank[h.reserve]
  }

  ghost predicate OffsetsInv(h: Heap) {
    && HEADER <= h.chunkSize <= MAX_CHUNK
    && forall c :: c in h.chunks ==> HEADER <= h.chunks[c].offs <= h.chunkSize
  }

  ghost predicate HeapInv(h: Heap, rank: map<nat, nat>) {
    OffsetsInv(h) && Linked(h.chunks, rank) && Ends(h, rank)
  }

  /** The chunk is published and not newer than the tail. */
  ghost predicate Reached(h: Heap, rank: map<nat, nat>, c: nat) {
    c in rank && h.tail in rank && rank[c] <= rank[h.tail]
  }

  /** The chunk that a thread has allocated and not yet published or freed. */
  function PrivateOf(pc: Pc): Link {
    match pc
    case ReserveCas(_, mine) => To(mine)
    case ReserveFree(_, mine) => To(mine)
    case NextCas(_, _, mine) => To(mine)
    case NextFree(_, _, mine, _) => To(mine)
    case _ => Null
  }

  /** The chunk that a thread is allocating from. */
  function CurrentOf(pc: Pc): Link {
    match pc
    case Idle => Null
    case LoadTail(_) => Null
    case ReserveAlloc(b) => To(b.chunk)
    case ReserveCas(b, _) => To(b.chunk)
    case ReserveFree(b, _) => To(b.chunk)
    case _ => To(pc.chunk)
  }

  /** The chunk that a thread will try to make the tail. */
  function SuccessorOf(pc: Pc): Link {
    match pc
    case NextFree(_, _, _, seen) => To(seen)
    case CasTail(_, _, next) => To(next)
    case _ => Null
  }

  /** The size a thread is still trying to allocate. */
  function SizeOf(pc: Pc): nat {
    match pc
    case Idle => 0
    case ReserveAlloc(_) => 0
    case ReserveCas(_, _) => 0
    case ReserveFree(_, _) => 0
    case _ => pc.size
  }

  ghost predicate ThreadInv(h: Heap, rank: map<nat, nat>, pc: Pc) {
    && (CurrentOf(pc).To? ==> Reached(h, rank, CurrentOf(pc).id))
    && (PrivateOf(pc).To? ==>
          var mine := PrivateOf(pc).id;
          mine in h.chunks && mine !in rank && h.chunks[mine] == Chunk(CurrentOf(pc), HEADER))
    && (SuccessorOf(pc).To? ==>
          && SuccessorOf(pc).id in rank
          && (CurrentOf(pc) == To(h.tail) ==> SuccessorOf(pc).id == h.reserve && h.reserve != h.tail))
    && (pc.CasOffs? ==> HEADER <= pc.offs && pc.offs + pc.size <= h.chunkSize)
    && h.chunkSize + SizeOf(pc) < U64
  }

  ghost predicate ThreadsInv(h: Heap, rank: map<nat, nat>, threads: seq<Pc>) {
    forall t :: 0 <= t < |threads| ==> ThreadInv(h, rank, threads[t])
  }

  ghost predicate Owned(threads: seq<Pc>, c: nat) {
    exists t :: 0 <= t < |threads| && PrivateOf(threads[t]) == To(c)
  }

  /** No two threads own the same private chunk, and every chunk is published or owned. */
  ghost predicate OwnershipInv(live: set<nat>, rank: map<nat, nat>, threads: seq<Pc>) {
    && (forall t, u :: 0 <= t < u < |threads| && PrivateOf(threads[t]).To?
          ==> PrivateOf(threads[t]) != PrivateOf(threads[u]))
    && forall c :: c in live ==> c in rank || Owned(threads, c)
  }

  ghost predicate Disjoint(a: Block, b: Block) {
    a.chunk != b.chunk || a.offs + a.size <= b.offs || b.offs + b.size <= a.offs
  }

  /** Granted blocks lie in published chunks below the bump offset and do not overlap. */
  ghost predicate BlocksInv(chunks: map<nat, Chunk>, rank: map<nat, nat>, blocks: seq<Block>) {
    && (forall i :: 0 <= i < |blocks| ==>
          var b := blocks[i];
          b.chunk in rank && b.chunk in chunks && HEADER <= b.offs && b.offs + b.size <= chunks[b.chunk].offs)
    && forall i, j :: 0 <= i < j < |blocks| ==> Disjoint(blocks[i], blocks[j])
  }

  ghost predicate Inv(s: State, rank: map<nat, nat>) {
    && HeapInv(s.heap, rank)
    && ThreadsInv(s.heap, rank, s.threads)
    && OwnershipInv(s.heap.chunks.Keys, rank, s.threads)
    && BlocksInv(s.heap.chunks, rank, s.blocks)
  }

  // ---------------------------------------------------------------------------------------
  // Every instruction keeps the invariant
  // ---------------------------------------------------------------------------------------

  /** Below the chunk size the size_t comparison is the mathematical one. */
  lemma FitsExactly(chunkSize: nat, offs: nat, size: nat)
    requires offs <= chunkSize && chunkSize + size < U64
    ensures Fits(chunkSize, offs, size) <==> offs + size <= chunkSize
    ensures (offs + size) % U64 == offs + size
  {
  }

  /** Ownership after thread `t` moves to a program counter that owns the same chunk. */
  lemma OwnershipMove(live: set<nat>, rank: map<nat, nat>, threads: seq<Pc>, t: nat, pc: Pc)
    requires OwnershipInv(live, rank, threads) && t < |threads|
    requires PrivateOf(pc) == PrivateOf(threads[t])
    ensures OwnershipInv(live, rank, threads[t := pc])
  {
    var threads' := threads[t := pc];
    forall c | c in live && c !in rank ensures Owned(threads', c) {
      assert Owned(threads, c);
      var u :| 0 <= u < |threads| && PrivateOf(threads[u]) == To(c);
      assert PrivateOf(threads'[u]) == To(c);
    }
  }

  lemma OwnershipGain(h: Heap, rank: map<nat, nat>, threads: seq<Pc>, t: nat, pc: Pc)
    requires OwnershipInv(h.chunks.Keys, rank, threads) && ThreadsInv(h, rank, threads) && t < |threads|
    requires PrivateOf(threads[t]).Null? && PrivateOf(pc).To? && PrivateOf(pc).id !in h.chunks
    ensures OwnershipInv(h.chunks.Keys + {PrivateOf(pc).id}, rank, threads[t := pc])
  {
    var mine := PrivateOf(pc).id;
    var threads' := threads[t := pc];
    forall u | 0 <= u < |threads| && u != t ensures PrivateOf(threads[u]) != To(mine) {
      assert ThreadInv(h, rank, threads[u]);
    }
    assert PrivateOf(threads'[t]) == To(mine);
    forall x | x in h.chunks.Keys && x !in rank ensures Owned(threads', x) {
      assert Owned(threads, x);
      var u :| 0 <= u < |threads| && PrivateOf(threads[u]) == To(x);
      assert PrivateOf(threads'[u]) == To(x);
    }
  }

  /** The thread gives up its chunk, which is either freed or published. */
  lemma OwnershipLoss(live: set<nat>, rank: map<nat, nat>, threads: seq<Pc>, t: nat, pc: Pc, r: nat)
    requires OwnershipInv(live, rank, threads) && t < |threads|
    requires PrivateOf(threads[t]).To? && PrivateOf(pc).Null?
    ensures OwnershipInv(live - {PrivateOf(threads[t]).id}, rank, threads[t := pc])
    ensures OwnershipInv(live, rank[PrivateOf(threads[t]).id := r], threads[t := pc])
  {
    var threads' := threads[t := pc];
    forall x | x in live && x !in rank && x != PrivateOf(threads[t]).id ensures Owned(threads', x) {
      assert Owned(threads, x);
      var u :| 0 <= u < |threads| && PrivateOf(threads[u]) == To(x);
      assert PrivateOf(threads'[u]) == To(x);
    }
  }

  /** The other threads do not notice a change that keeps the ends of the chain and the chunks
      they own. */
  lemma OthersKept(h: Heap, h': Heap, rank: map<nat, nat>, threads: seq<Pc>, t: nat, pc: Pc)
    requires ThreadsInv(h, rank, threads) && t < |threads| && ThreadInv(h', rank, pc)
    requires h'.chunkSize == h.chunkSize && h'.tail == h.tail && h'.reserve == h.reserve
    requires forall u :: 0 <= u < |threads| && u != t && PrivateOf(threads[u]).To? ==>
               var mine := PrivateOf(threads[u]).id;
               mine in h.chunks ==> mine in h'.chunks && h'.chunks[mine] == h.chunks[mine]
    ensures ThreadsInv(h', rank, threads[t := pc])
  {
    forall u | 0 <= u < |threads| && u != t ensures ThreadInv(h', rank, threads[u]) {
      assert ThreadInv(h, rank, threads[u]);
    }
  }

  /** Instructions that leave the heap as it is. */
  lemma MoveKeepsInv(s: State, rank: map<nat, nat>, t: nat, pc: Pc)
    requires Inv(s, rank) && t < |s.threads|
    requires PrivateOf(pc) == PrivateOf(s.threads[t])
    requires ThreadInv(s.heap, rank, pc)
    ensures Inv(s.(threads := s.threads[t := pc]), rank)
  {
    hide HeapInv, BlocksInv, OwnershipInv, ThreadInv;
    OwnershipMove(s.heap.chunks.Keys, rank, s.threads, t, pc);
  }

  /** What a moving thread knows after an instruction that leaves the heap as it is. */
  lemma MoveThreadInv(h: Heap, rank: map<nat, nat>, pc: Pc, pc': Pc)
    requires HeapInv(h, rank) && ThreadInv(h, rank, pc)
    requires Instruction(h, pc, h, pc') && PrivateOf(pc') == PrivateOf(pc)
    ensures ThreadInv(h, rank, pc')
  {
    if pc.LoadOffs? {
      FitsExactly(h.chunkSize, h.chunks[pc.chunk].offs, pc.size);
    }
  }

  lemma PublishedNotPrivate(h: Heap, rank: map<nat, nat>, threads: seq<Pc>, c: nat)
    requires ThreadsInv(h, rank, threads) && c in rank
    ensures forall u :: 0 <= u < |threads| ==> PrivateOf(threads[u]) != To(c)
  {
    forall u | 0 <= u < |threads| ensures PrivateOf(threads[u]) != To(c) {
      assert ThreadInv(h, rank, threads[u]);
    }
  }

  lemma BumpKeepsBlocks(h: Heap, rank: map<nat, nat>, blocks: seq<Block>, b: Block)
    requires BlocksInv(h.chunks, rank, blocks)
    requires b.chunk in rank && b.chunk in h.chunks
    requires h.chunks[b.chunk].offs == b.offs && HEADER <= b.offs
    ensures BlocksInv(WithOffset(h, b.chunk, b.offs + b.size).chunks, rank, blocks + [b])
  {
  }

  lemma BumpKeepsHeap(h: Heap, rank: map<nat, nat>, c: nat, offs: nat)
    requires HeapInv(h, rank) && c in h.chunks && HEADER <= offs <= h.chunkSize
    ensures HeapInv(WithOffset(h, c, offs), rank)
  {
    LinksKept(h.chunks, WithOffset(h, c, offs).chunks, rank);
  }

  /** Changes that keep the back pointers of the published chunks keep the chain. */
  lemma LinksKept(chunks: map<nat, Chunk>, chunks': map<nat, Chunk>, rank: map<nat, nat>)
    requires Linked(chunks, rank)
    requires forall c :: c in rank ==> c in chunks' && chunks'[c].prev == chunks[c].prev
    ensures Linked(chunks', rank)
  {
    forall c | c in rank ensures LinkAt(chunks', rank, c) {
      assert LinkAt(chunks, rank, c);
    }
  }

  /** A successful bump grants a block just above all earlier blocks of its chunk. */
  lemma BumpKeepsInv(s: State, rank: map<nat, nat>, t: nat, pc': Pc, b: Block)
    requires Inv(s, rank) && t < |s.threads| && s.threads[t].CasOffs?
    requires b == Block(s.threads[t].chunk, s.threads[t].offs, s.threads[t].size)
    requires b.chunk in s.heap.chunks && s.heap.chunks[b.chunk].offs == b.offs
    requires pc'.Idle? || pc' == ReserveAlloc(b)
    ensures Inv(State(WithOffset(s.heap, b.chunk, b.offs + b.size), s.threads[t := pc'], s.blocks + [b]), rank)
  {
    BumpKeepsThreads(s.heap, rank, s.threads, t, pc', b);
    hide HeapInv, BlocksInv, OwnershipInv, ThreadsInv, ThreadInv;
    BumpKeepsHeap(s.heap, rank, b.chunk, b.offs + b.size);
    BumpKeepsBlocks(s.heap, rank, s.blocks, b);
    OwnershipMove(s.heap.chunks.Keys, rank, s.threads, t, pc');
    assert WithOffset(s.heap, b.chunk, b.offs + b.size).chunks.Keys == s.heap.chunks.Keys;
  }

  lemma BumpKeepsThreads(h: Heap, rank: map<nat, nat>, threads: seq<Pc>, t: nat, pc': Pc, b: Block)
    requires ThreadsInv(h, rank, threads) && t < |threads| && threads[t].CasOffs?
    requires b == Block(threads[t].chunk, threads[t].offs, threads[t].size)
    requires b.chunk in h.chunks && (pc'.Idle? || pc' == ReserveAlloc(b))
    ensures ThreadsInv(WithOffset(h, b.chunk, b.offs + b.size), rank, threads[t := pc'])
    ensures b.chunk in rank && HEADER <= b.offs && b.offs + b.size <= h.chunkSize
  {
    assert ThreadInv(h, rank, threads[t]);
    hide ThreadsInv;
    PublishedNotPrivate(h, rank, threads, b.chunk);
    OthersKept(h, WithOffset(h, b.chunk, b.offs + b.size), rank, threads, t, pc');
  }

  lemma AllocateKeepsHeap(h: Heap, rank: map<nat, nat>, current: nat, mine: nat)
    requires HeapInv(h, rank) && mine !in h.chunks
    ensures HeapInv(WithChunk(h, current, mine), rank) && mine !in rank
  {
    LinksKept(h.chunks, WithChunk(h, current, mine).chunks, rank);
  }

  lemma AllocateKeepsInv(s: State, rank: map<nat, nat>, t: nat, pc: Pc)
    requires Inv(s, rank) && t < |s.threads|
    requires PrivateOf(s.threads[t]).Null? && CurrentOf(s.threads[t]).To? && CurrentOf(pc) == CurrentOf(s.threads[t])
    requires pc.ReserveCas? || pc.NextCas?
    requires pc.mine !in s.heap.chunks && s.heap.chunkSize + SizeOf(pc) < U64
    ensures Inv(State(WithChunk(s.heap, CurrentOf(pc).id, pc.mine), s.threads[t := pc], s.blocks), rank)
  {
    var h' := WithChunk(s.heap, CurrentOf(pc).id, pc.mine);
    assert ThreadInv(s.heap, rank, s.threads[t]);
    hide HeapInv, OwnershipInv;
    AllocateKeepsHeap(s.heap, rank, CurrentOf(pc).id, pc.mine);
    OwnershipGain(s.heap, rank, s.threads, t, pc);
    assert h'.chunks.Keys == s.heap.chunks.Keys + {pc.mine};
    OthersKept(s.heap, h', rank, s.threads, t, pc);
  }

  /** A losing thread frees its own chunk, which nobody else can see. */
  lemma FreeKeepsInv(s: State, rank: map<nat, nat>, t: nat, pc: Pc)
    requires Inv(s, rank) && t < |s.threads|
    requires PrivateOf(s.threads[t]).To? && PrivateOf(pc).Null?
    requires ThreadInv(s.heap, rank, pc)
    ensures Inv(State(WithoutChunk(s.heap, PrivateOf(s.threads[t]).id), s.threads[t := pc], s.blocks), rank)
  {
    var h' := WithoutChunk(s.heap, PrivateOf(s.threads[t]).id);
    assert ThreadInv(s.heap, rank, s.threads[t]);
    LinksKept(s.heap.chunks, h'.chunks, rank);
    OwnershipLoss(s.heap.chunks.Keys, rank, s.threads, t, pc, 0);
    assert h'.chunks.Keys == s.heap.chunks.Keys - {PrivateOf(s.threads[t]).id};
    OthersKept(s.heap, h', rank, s.threads, t, pc);
  }

  /** The chain with the private chunk appended. */
  lemma PublishKeepsHeap(h: Heap, rank: map<nat, nat>, mine: nat)
    requires HeapInv(h, rank) && h.tail == h.reserve
    requires mine in h.chunks && mine !in rank && h.chunks[mine].prev == To(h.reserve)
    ensures HeapInv(h.(reserve := mine), rank[mine := rank[h.reserve] + 1])
  {
    var rank' := rank[mine := rank[h.reserve] + 1];
    forall c | c in rank' ensures LinkAt(h.chunks, rank', c) {
      assert c != mine ==> LinkAt(h.chunks, rank, c);
    }
  }

  /** Winning the compare-and-swap on `_reserve` appends the private chunk to the chain. */
  lemma PublishKeepsInv(s: State, rank: map<nat, nat>, t: nat, pc: Pc)
    requires Inv(s, rank) && t < |s.threads|
    requires PrivateOf(s.threads[t]).To? && CurrentOf(s.threads[t]) == To(s.heap.reserve)
    requires pc.Idle? || (pc.CasTail? && pc.chunk == s.heap.reserve && pc.next == PrivateOf(s.threads[t]).id)
    requires s.heap.chunkSize + SizeOf(pc) < U64
    ensures var mine := PrivateOf(s.threads[t]).id;
            Inv(State(s.heap.(reserve := mine), s.threads[t := pc], s.blocks), rank[mine := rank[s.heap.reserve] + 1])
  {
    PublishKeepsThreads(s.heap, rank, s.threads, t, pc);
    var mine, r := PrivateOf(s.threads[t]).id, rank[s.heap.reserve] + 1;
    hide HeapInv, ThreadsInv, ThreadInv, OwnershipInv, BlocksInv;
    PublishKeepsHeap(s.heap, rank, mine);
    PublishKeepsOwners(s.heap.chunks.Keys, rank, s.threads, t, pc, r);
    PublishKeepsBlocks(s.heap.chunks, rank, s.blocks, mine, r);
  }

  lemma PublishKeepsOwners(live: set<nat>, rank: map<nat, nat>, threads: seq<Pc>, t: nat, pc: Pc, r: nat)
    requires OwnershipInv(live, rank, threads) && t < |threads|
    requires PrivateOf(threads[t]).To? && (pc.Idle? || pc.CasTail?)
    ensures OwnershipInv(live, rank[PrivateOf(threads[t]).id := r], threads[t := pc])
  {
    OwnershipLoss(live, rank, threads, t, pc, r);
  }

  lemma PublishKeepsBlocks(chunks: map<nat, Chunk>, rank: map<nat, nat>, blocks: seq<Block>, mine: nat, r: nat)
    requires BlocksInv(chunks, rank, blocks)
    ensures BlocksInv(chunks, rank[mine := r], blocks)
  {
  }

  lemma PublishKeepsThreads(h: Heap, rank: map<nat, nat>, threads: seq<Pc>, t: nat, pc: Pc)
    requires HeapInv(h, rank) && ThreadsInv(h, rank, threads) && OwnershipInv(h.chunks.Keys, rank, threads)
    requires t < |threads| && PrivateOf(threads[t]).To? && CurrentOf(threads[t]) == To(h.reserve)
    requires pc.Idle? || (pc.CasTail? && pc.chunk == h.reserve && pc.next == PrivateOf(threads[t]).id)
    requires h.chunkSize + SizeOf(pc) < U64
    ensures var mine := PrivateOf(threads[t]).id;
            && h.tail == h.reserve && h.reserve in rank
            && mine in h.chunks && mine !in rank && h.chunks[mine].prev == To(h.reserve)
            && ThreadsInv(h.(reserve := mine), rank[mine := rank[h.reserve] + 1], threads[t := pc])
  {
    var mine := PrivateOf(threads[t]).id;
    var h', rank' := h.(reserve := mine), rank[mine := rank[h.reserve] + 1];
    assert ThreadInv(h, rank, threads[t]);
    forall u | 0 <= u < |threads| && u != t ensures ThreadInv(h', rank', threads[u]) {
      assert ThreadInv(h, rank, threads[u]);
      if u < t {
        assert PrivateOf(threads[u]) != To(mine);
      }
    }
  }

  /** Winning the compare-and-swap on `_tail` moves it to the reserve. */
  lemma AdvanceKeepsInv(s: State, rank: map<nat, nat>, t: nat)
    requires Inv(s, rank) && t < |s.threads|
    requires s.threads[t].CasTail? && s.threads[t].chunk == s.heap.tail
    ensures var pc := s.threads[t];
            Inv(State(s.heap.(tail := pc.next), s.threads[t := LoadOffs(pc.size, pc.next)], s.blocks), rank)
  {
    var CasTail(size, c, next) := s.threads[t];
    assert ThreadInv(s.heap, rank, s.threads[t]);
    OwnershipMove(s.heap.chunks.Keys, rank, s.threads, t, LoadOffs(size, next));
    forall u | 0 <= u < |s.threads| && u != t ensures ThreadInv(s.heap.(tail := next), rank, s.threads[u]) {
      assert ThreadInv(s.heap, rank, s.threads[u]);
    }
  }

  /** The chain only grows, and the tail only moves forward along it. */
  ghost predicate Forward(h: Heap, rank: map<nat, nat>, h': Heap, rank': map<nat, nat>) {
    && (forall c :: c in rank ==> c in rank' && rank'[c] == rank[c])
    && h.tail in rank && h'.tail in rank' && rank[h.tail] <= rank'[h'.tail]
  }

  /** Whether the instruction changes the heap, and how. */
  predicate Allocating(pc: Pc, pc': Pc) { (pc.ReserveAlloc? || pc.NextAlloc?) && !pc'.Idle? }
  predicate Freeing(pc: Pc) { pc.ReserveFree? || pc.NextFree? }
  predicate Publishing(h: Heap, pc: Pc) { (pc.ReserveCas? || pc.NextCas?) && CurrentOf(pc) == To(h.reserve) }
  predicate Advancing(h: Heap, pc: Pc) { pc.CasTail? && pc.chunk == h.tail }

  lemma AllocatingKeepsInv(s: State, rank: map<nat, nat>, t: nat, h': Heap, pc': Pc)
    requires Inv(s, rank) && t < |s.threads| && Instruction(s.heap, s.threads[t], h', pc')
    requires Allocating(s.threads[t], pc')
    ensures Inv(State(h', s.threads[t := pc'], s.blocks), rank) && h'.tail == s.heap.tail
  {
    assert ThreadInv(s.heap, rank, s.threads[t]);
    hide HeapInv, ThreadsInv, BlocksInv, OwnershipInv;
    AllocateKeepsInv(s, rank, t, pc');
  }

  lemma FreeingKeepsInv(s: State, rank: map<nat, nat>, t: nat, h': Heap, pc': Pc)
    requires Inv(s, rank) && t < |s.threads| && Instruction(s.heap, s.threads[t], h', pc')
    requires Freeing(s.threads[t])
    ensures Inv(State(h', s.threads[t := pc'], s.blocks), rank) && h'.tail == s.heap.tail
  {
    assert ThreadInv(s.heap, rank, s.threads[t]);
    hide HeapInv, ThreadsInv, BlocksInv, OwnershipInv;
    FreeKeepsInv(s, rank, t, pc');
  }

  lemma PublishingKeepsInv(s: State, rank: map<nat, nat>, t: nat, h': Heap, pc': Pc)
    requires Inv(s, rank) && t < |s.threads| && Instruction(s.heap, s.threads[t], h', pc')
    requires Publishing(s.heap, s.threads[t])
    ensures s.heap.reserve in rank && s.threads[t].mine !in rank && h'.tail == s.heap.tail
    ensures Inv(State(h', s.threads[t := pc'], s.blocks), rank[s.threads[t].mine := rank[s.heap.reserve] + 1])
  {
    assert ThreadInv(s.heap, rank, s.threads[t]) && Ends(s.heap, rank);
    hide HeapInv, ThreadsInv, BlocksInv, OwnershipInv;
    PublishKeepsInv(s, rank, t, pc');
  }

  lemma MovingKeepsInv(s: State, rank: map<nat, nat>, t: nat, h': Heap, pc': Pc)
    requires Inv(s, rank) && t < |s.threads| && Instruction(s.heap, s.threads[t], h', pc')
    requires var pc := s.threads[t];
             !Allocating(pc, pc') && !Freeing(pc) && !Publishing(s.heap, pc) && !Advancing(s.heap, pc)
    ensures h' == s.heap && Inv(State(h', s.threads[t := pc'], s.blocks), rank)
  {
    assert ThreadInv(s.heap, rank, s.threads[t]);
    hide HeapInv, ThreadsInv, BlocksInv, OwnershipInv;
    MoveThreadInv(s.heap, rank, s.threads[t], pc');
    MoveKeepsInv(s, rank, t, pc');
  }

  /** The instructions other than a successful bump. */
  lemma InstructionKeepsInv(s: State, rank: map<nat, nat>, t: nat, h': Heap, pc': Pc) returns (rank': map<nat, nat>)
    requires Inv(s, rank) && t < |s.threads| && Instruction(s.heap, s.threads[t], h', pc')
    ensures Inv(State(h', s.threads[t := pc'], s.blocks), rank')
    ensures Forward(s.heap, rank, h', rank')
  {
    rank' := rank;
    var pc := s.threads[t];
    assert ThreadInv(s.heap, rank, pc) && Ends(s.heap, rank);
    hide HeapInv, ThreadsInv, BlocksInv, OwnershipInv, Inv;
    if Allocating(pc, pc') {
      AllocatingKeepsInv(s, rank, t, h', pc');
    } else if Freeing(pc) {
      FreeingKeepsInv(s, rank, t, h', pc');
    } else if Publishing(s.heap, pc) {
      PublishingKeepsInv(s, rank, t, h', pc');
      rank' := rank[pc.mine := rank[s.heap.reserve] + 1];
    } else if Advancing(s.heap, pc) {
      AdvanceKeepsInv(s, rank, t);
    } else {
      MovingKeepsInv(s, rank, t, h', pc');
    }
  }

  /** Every atomic step keeps the invariant, grows the chain at most at its end and moves the
      tail at most forward. */
  lemma StepKeepsInv(s: State, rank: map<nat, nat>, t: nat, s': State) returns (rank': map<nat, nat>)
    requires Inv(s, rank) && Step(s, t, s')
    ensures Inv(s', rank')
    ensures Forward(s.heap, rank, s'.heap, rank')
  {
    assert ThreadInv(s.heap, rank, s.threads[t]) && Ends(s.heap, rank);
    hide HeapInv, ThreadsInv, BlocksInv, OwnershipInv, Instruction, Inv;
    if Instruction(s.heap, s.threads[t], s'.heap, s'.threads[t]) && s'.blocks == s.blocks {
      rank' := InstructionKeepsInv(s, rank, t, s'.heap, s'.threads[t]);
    } else {
      rank' := rank;
      var b := s'.blocks[|s'.blocks| - 1];
      FitsExactly(s.heap.chunkSize, b.offs, b.size);
      BumpKeepsInv(s, rank, t, s'.threads[t], b);
    }
  }

  /** At quiescence every live chunk is published. */
  lemma QuiescentPublished(s: State, rank: map<nat, nat>)
    requires Inv(s, rank) && Quiescent(s)
    ensures s.heap.chunks.Keys == rank.Keys
  {
    forall c | c in s.heap.chunks ensures c in rank {
      assert c in rank || Owned(s.threads, c);
    }
  }

  lemma ClearKeepsInv(s: State, rank: map<nat, nat>, s': State)
    requires Inv(s, rank) && Clears(s, s')
    ensures Inv(s', map[s'.heap.tail := 0])
  {
    var first := s'.heap.tail;
    QuiescentPublished(s, rank);
    assert LinkAt(s.heap.chunks, rank, first);
    assert LinkAt(s'.heap.chunks, map[first := 0], first);
    forall t | 0 <= t < |s.threads| ensures ThreadInv(s'.heap, map[first := 0], s.threads[t]) {
    }
  }

  // ---------------------------------------------------------------------------------------
  // Results over whole runs
  // ---------------------------------------------------------------------------------------

  lemma {:induction false} RunInv(run: seq<State>, i: nat) returns (rank: map<nat, nat>)
    requires IsRun(run) && i < |run|
    ensures Inv(run[i], rank)
  {
    if i == 0 {
      rank := map[run[0].heap.tail := 0];
      assert LinkAt(run[0].heap.chunks, rank, run[0].heap.tail);
    } else {
      hide Inv, Step, Clears;
      var before := RunInv(run, i - 1);
      assert Next(run[i - 1], run[i]);
      if Clears(run[i - 1], run[i]) {
        ClearKeepsInv(run[i - 1], before, run[i]);
        rank := map[run[i].heap.tail := 0];
      } else {
        var t :| Step(run[i - 1], t, run[i]);
        rank := StepKeepsInv(run[i - 1], before, t, run[i]);
      }
    }
  }

  /** In every interleaving the reserve is the tail or a chunk whose predecessor is the tail. */
  lemma ReserveFollowsTail(run: seq<State>, i: nat)
    requires IsRun(run) && i < |run|
    ensures var h := run[i].heap;
            h.tail in h.chunks && h.reserve in h.chunks
            && (h.reserve == h.tail || h.chunks[h.reserve].prev == To(h.tail))
  {
    var rank := RunInv(run, i);
    assert LinkAt(run[i].heap.chunks, rank, run[i].heap.reserve);
  }

  /** Any two granted blocks are disjoint, and each lies in the usable part of a live chunk. */
  lemma BlocksAreDisjoint(run: seq<State>, i: nat)
    requires IsRun(run) && i < |run|
    ensures forall j, k :: 0 <= j < k < |run[i].blocks| ==> Disjoint(run[i].blocks[j], run[i].blocks[k])
    ensures forall j :: 0 <= j < |run[i].blocks| ==>
              var b := run[i].blocks[j];
              b.chunk in run[i].heap.chunks && HEADER <= b.offs && b.offs + b.size <= run[i].heap.chunkSize
  {
    var rank := RunInv(run, i);
  }

  /** The unsigned test fires exactly for the allocation that covers the middle of its chunk,
      although the subtraction wraps once the offset is past the middle. */
  lemma MiddleTestIsExact(chunkSize: nat, b: Block)
    requires chunkSize <= MAX_CHUNK && b.offs + b.size <= chunkSize
    ensures StepsOverMiddle(chunkSize, b.offs, b.size) <==> b.offs <= chunkSize / 2 < b.offs + b.size
  {
    if b.offs > chunkSize / 2 {
      assert (chunkSize / 2 - b.offs) % U64 == U64 + chunkSize / 2 - b.offs;
    }
  }

  /** At most one allocation per chunk prepares the next chunk. */
  lemma MiddleTestFiresOnce(run: seq<State>, i: nat, j: nat, k: nat)
    requires IsRun(run) && i < |run| && j < k < |run[i].blocks|
    requires run[i].blocks[j].chunk == run[i].blocks[k].chunk
    ensures var a, b := run[i].blocks[j], run[i].blocks[k];
            !(StepsOverMiddle(run[i].heap.chunkSize, a.offs, a.size)
              && StepsOverMiddle(run[i].heap.chunkSize, b.offs, b.size))
  {
    var rank := RunInv(run, i);
    BlocksAreDisjoint(run, i);
    MiddleTestIsExact(run[i].heap.chunkSize, run[i].blocks[j]);
    MiddleTestIsExact(run[i].heap.chunkSize, run[i].blocks[k]);
  }

  /** The chunks a thread may dereference, publish or free. */
  ghost predicate Mentions(pc: Pc, c: nat) {
    CurrentOf(pc) == To(c) || PrivateOf(pc) == To(c) || SuccessorOf(pc) == To(c)
  }

  /** No thread ever touches a freed chunk, and a chunk about to be freed was never published:
      it is neither tail nor reserve, no live chunk points back to it, no block lies in it and
      no other thread knows it. So it is freed once and nothing dangles. */
  lemma FreedChunksAreInvisible(run: seq<State>, i: nat, t: nat)
    requires IsRun(run) && i < |run| && t < |run[i].threads|
    ensures forall c :: Mentions(run[i].threads[t], c) ==> c in run[i].heap.chunks
    ensures var s := run[i];
            s.threads[t].ReserveFree? || s.threads[t].NextFree? ==>
              var mine := s.threads[t].mine;
              && mine in s.heap.chunks && mine != s.heap.tail && mine != s.heap.reserve
              && (forall c :: c in s.heap.chunks ==> s.heap.chunks[c].prev != To(mine))
              && (forall j :: 0 <= j < |s.blocks| ==> s.blocks[j].chunk != mine)
              && (forall u :: 0 <= u < |s.threads| && u != t ==> !Mentions(s.threads[u], mine))
  {
    var rank := RunInv(run, i);
    var s := run[i];
    assert ThreadInv(s.heap, rank, s.threads[t]);
    if s.threads[t].ReserveFree? || s.threads[t].NextFree? {
      var mine := s.threads[t].mine;
      forall c | c in s.heap.chunks ensures s.heap.chunks[c].prev != To(mine) {
        if c in rank {
          assert LinkAt(s.heap.chunks, rank, c);
        } else {
          assert Owned(s.threads, c);
          var u :| 0 <= u < |s.threads| && PrivateOf(s.threads[u]) == To(c);
          assert ThreadInv(s.heap, rank, s.threads[u]);
        }
      }
      forall u | 0 <= u < |s.threads| && u != t ensures !Mentions(s.threads[u], mine) {
        assert ThreadInv(s.heap, rank, s.threads[u]);
      }
    }
  }

  /** The chunks met by following back pointers from `c`. */
  ghost function ChainFrom(chunks: map<nat, Chunk>, rank: map<nat, nat>, c: nat): set<nat>
    requires Linked(chunks, rank) && c in rank
    decreases rank[c]
  {
    assert LinkAt(chunks, rank, c);
    if chunks[c].prev.Null? then {c} else {c} + ChainFrom(chunks, rank, chunks[c].prev.id)
  }

  lemma {:induction false} ChainCoversLowerRanks(chunks: map<nat, Chunk>, rank: map<nat, nat>, c: nat, d: nat)
    requires Linked(chunks, rank) && c in rank && d in rank
    ensures d in ChainFrom(chunks, rank, c) <==> rank[d] <= rank[c]
    decreases rank[c]
  {
    assert LinkAt(chunks, rank, c);
    if chunks[c].prev.To? {
      ChainCoversLowerRanks(chunks, rank, chunks[c].prev.id, d);
    }
  }

  lemma {:induction false} ChainIsPublished(chunks: map<nat, Chunk>, rank: map<nat, nat>, c: nat)
    requires Linked(chunks, rank) && c in rank
    ensures ChainFrom(chunks, rank, c) <= rank.Keys
    decreases rank[c]
  {
    assert LinkAt(chunks, rank, c);
    if chunks[c].prev.To? {
      ChainIsPublished(chunks, rank, chunks[c].prev.id);
    }
  }

  /** At quiescence the live chunks are exactly the chain that starts at the reserve: nothing
      is leaked. */
  lemma QuiescentChunksAreTheChain(run: seq<State>, i: nat) returns (rank: map<nat, nat>)
    requires IsRun(run) && i < |run| && Quiescent(run[i])
    ensures Linked(run[i].heap.chunks, rank) && run[i].heap.reserve in rank
    ensures run[i].heap.chunks.Keys == ChainFrom(run[i].heap.chunks, rank, run[i].heap.reserve)
  {
    rank := RunInv(run, i);
    var h := run[i].heap;
    QuiescentPublished(run[i], rank);
    ChainIsPublished(h.chunks, rank, h.reserve);
    forall d | d in rank ensures d in ChainFrom(h.chunks, rank, h.reserve) {
      ChainCoversLowerRanks(h.chunks, rank, h.reserve, d);
    }
  }

  lemma ForwardStart(s: State, rank: map<nat, nat>)
    requires Inv(s, rank)
    ensures Forward(s.heap, rank, s.heap, rank)
  {
  }

  /** As long as nobody clears, the chain only grows and the tail only moves forward. */
  lemma {:induction false} TailMovesForward(run: seq<State>, i: nat, j: nat, rank: map<nat, nat>)
    returns (rank': map<nat, nat>)
    requires IsRun(run) && i <= j < |run| && Inv(run[i], rank)
    requires forall k :: i < k <= j ==> !Clears(run[k - 1], run[k])
    ensures Inv(run[j], rank') && Forward(run[i].heap, rank, run[j].heap, rank')
    decreases j
  {
    hide Inv, Step, Clears;
    if i == j {
      rank' := rank;
      ForwardStart(run[i], rank);
    } else {
      var mid := TailMovesForward(run, i, j - 1, rank);
      assert Next(run[j - 1], run[j - 1 + 1]);
      var t :| Step(run[j - 1], t, run[j]);
      rank' := StepKeepsInv(run[j - 1], mid, t, run[j]);
    }
  }

  // ---------------------------------------------------------------------------------------
  // clear
  // ---------------------------------------------------------------------------------------

  lemma LinkOf(chunks: map<nat, Chunk>, rank: map<nat, nat>, c: nat)
    requires Linked(chunks, rank) && c in rank
    ensures LinkAt(chunks, rank, c)
    ensures forall d :: d in rank && rank[d] == rank[c] ==> d == c
  {
  }

  /** What is left of the chunks of `all` when `c` is the newest. */
  ghost predicate UpTo(all: map<nat, Chunk>, rank: map<nat, nat>, chunks: map<nat, Chunk>, c: nat) {
    && c in rank && c in chunks
    && (forall d :: d in chunks <==> d in rank && d in all && rank[d] <= rank[c])
    && forall d :: d in chunks ==> d in all && chunks[d] == all[d]
  }

  lemma OnlyFirst(all: map<nat, Chunk>, rank: map<nat, nat>, chunks: map<nat, Chunk>, c: nat)
    requires UpTo(all, rank, chunks, c) && rank[c] == 0 && forall d :: d in rank && rank[d] == 0 ==> d == c
    ensures chunks == map[c := all[c]]
  {
  }

  /** The allocator object while its owner runs `clear`. */
  class Arena {
    const chunkSize: nat
    var chunks: map<nat, Chunk>
    var tail: nat
    var reserve: nat

    constructor (chunkSize: nat, first: nat)
      ensures this.chunkSize == chunkSize
      ensures View() == Heap(chunkSize, map[first := Chunk(Null, HEADER)], first, first)
    {
      this.chunkSize := chunkSize;
      chunks := map[first := Chunk(Null, HEADER)];
      tail := first;
      reserve := first;
    }

    function View(): Heap
      reads this
    {
      Heap(chunkSize, chunks, tail, reserve)
    }

    /** Frees a chunk, which must be live. */
    method FreeChunk(c: nat)
      requires c in chunks
      modifies this`chunks
      ensures chunks == old(chunks) - {c}
    {
      chunks := chunks - {c};
    }

    /** Walks from the newest chunk to the first, freeing each chunk once, and leaves the first
        one empty. `rank` gives the positions of the live chunks. */
    method Clear(ghost rank: map<nat, nat>)
      requires Linked(chunks, rank) && Ends(View(), rank) && chunks.Keys == rank.Keys
      modifies this
      ensures ClearedTo(old(View()), View())
    {
      LinkOf(chunks, rank, reserve);
      if chunks[reserve].prev == To(tail) {
        FreeChunk(reserve);
      }
      while chunks[tail].prev.To?
        invariant tail in rank
        invariant UpTo(old(chunks), rank, chunks, tail)
        decreases rank[tail]
      {
        LinkOf(old(chunks), rank, tail);
        var current := tail;
        tail := chunks[tail].prev.id;
        FreeChunk(current);
      }
      LinkOf(old(chunks), rank, tail);
      OnlyFirst(old(chunks), rank, chunks, tail);
      reserve := tail;
      chunks := chunks[tail := chunks[tail].(offs := HEADER)];
    }
  }
}
