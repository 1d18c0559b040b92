/** The event writers of flightRecorder.cpp. Each lane (one recording buffer) collects whole
    events and is flushed to the file when it has passed the threshold; several lanes share one
    file. Clock readings, floats (as bits) and the context of a thread are parameters; a write
    to the file is always complete. */
module FlightRecorder {
  import opened Words
  import opened Buffer
  import opened EventFormat

  /** RECORDING_BUFFER_SIZE - sizeof(Buffer), with a Buffer of 8 + 4 + 1020 bytes. */
  const RECORDING_LIMIT: nat := 65536 - 1032
  /** RECORDING_BUFFER_LIMIT, also the flush threshold. */
  const FLUSH_THRESHOLD: nat := 65536 - 4096
  const DD_TAGS_CAPACITY: nat := 10

  const T_EXECUTION_SAMPLE: nat := 101
  const T_METHOD_SAMPLE: nat := 102
  const T_ALLOC: nat := 103
  const T_HEAP_LIVE_OBJECT: nat := 105
  const T_MONITOR_ENTER: nat := 106
  const T_THREAD_PARK: nat := 107
  const T_WALLCLOCK_SAMPLE_EPOCH: nat := 118
  const T_ENDPOINT: nat := 119
  const T_QUEUE_TIME: nat := 123
  const MIN_JLONG: nat := 0x8000_0000_0000_0000

  /** A signed value passed as u64, and as u32. */
  function AsU64(x: int64): (r: u64)
    ensures r == x % U64
  {
    if x < 0 then x + U64 else x
  }

  function AsU32(x: int32): (r: u32)
    ensures r == x % U32
  {
    if x < 0 then x + U32 else x
  }

  function MinusU64(a: u64, b: u64): (r: u64)
    ensures r == (a - b) % U64
  {
    if a >= b then a - b else a - b + U64
  }

  datatype Context = Context(spanId: u64, rootSpanId: u64, tags: seq<u32>)

  /** The first `n` context attributes. */
  predicate HasTags(ctx: Context, n: nat) {
    n <= |ctx.tags| <= DD_TAGS_CAPACITY
  }

  function TagFields(tags: seq<u32>): (fs: seq<Field>)
    ensures |fs| == |tags| && AllFit(fs)
  {
    seq(|tags|, i requires 0 <= i < |tags| => V32(tags[i]))
  }

  function ContextFields(ctx: Context, n: nat): (fs: seq<Field>)
    requires n <= |ctx.tags|
    ensures AllFit(fs)
  {
    [V64(ctx.spanId), V64(ctx.rootSpanId)] + TagFields(ctx.tags[..n])
  }

  lemma ContextStart(ctx: Context)
    ensures ContextFields(ctx, 0) == [V64(ctx.spanId)] + [V64(ctx.rootSpanId)]
  {
  }

  lemma ContextStep(ctx: Context, i: nat)
    requires i < |ctx.tags|
    ensures ContextFields(ctx, i + 1) == ContextFields(ctx, i) + [V32(ctx.tags[i])]
  {
    assert TagFields(ctx.tags[..i + 1]) == TagFields(ctx.tags[..i]) + [V32(ctx.tags[i])];
  }

  lemma ContextKindsMatch(ctx: Context, n: nat)
    requires n <= |ctx.tags|
    ensures Kinds(ContextFields(ctx, n)) == ContextKinds(n)
  {
  }

  lemma KindsConcat(fs: seq<Field>, gs: seq<Field>)
    ensures Kinds(fs + gs) == Kinds(fs) + Kinds(gs)
  {
  }

  lemma Appended(s: seq<byte>, t: seq<byte>, start: nat)
    requires start < |s|
    ensures (s + t)[..start] == s[..start] && (s + t)[start + 1..] == s[start + 1..] + t
  {
  }

  /** Patching the size over the reserved byte makes the reserved byte and the fields a frame. */
  lemma FrameInPlace(s: seq<byte>, at: nat, es: seq<Event>, e: Event, n: nat)
    requires at < |s| && AllWellFormed(es, n) && WellFormed(e, n)
    requires s[..at] == Stream(es, n) && s[at + 1..] == Bytes(e)
    ensures |s| - at < 128 && s[at := |s| - at] == Stream(es, n) + EventBytes(e, n)
  {
    hide AllWellFormed, Stream, Bytes;
    assert |s| - at == 1 + |Bytes(e)|;
    assert s[at := |s| - at] == s[..at] + [|s| - at] + s[at + 1..];
  }

  /** One recording buffer and, for the proof, the events in it that are not yet in the file and
      the fields of the event being written. */
  class Lane {
    const buf: Buffer
    const n: nat
    ghost var events: seq<Event>
    ghost var start: nat
    ghost var fields: seq<Field>
    ghost var used: nat

    constructor (n: nat)
      requires n <= DD_TAGS_CAPACITY
      ensures Ready() && events == [] && this.n == n && fresh(buf) && fresh(buf.data)
    {
      buf := new Buffer(RECORDING_LIMIT);
      this.n := n;
      events := [];
    }

    ghost predicate Valid()
      reads this, buf, buf.data
    {
      && buf.Valid() && buf.limit == RECORDING_LIMIT && n <= DD_TAGS_CAPACITY
      && AllWellFormed(events, n)
    }

    /** Between events: whole events only, and below the flush threshold. */
    ghost predicate Ready()
      reads this, buf, buf.data
    {
      Valid() && buf.Contents() == Stream(events, n) && buf.offset < FLUSH_THRESHOLD
    }

    /** Inside an event that started at `start` and has some fields already. */
    ghost predicate Writing()
      reads this, buf, buf.data
    {
      && Valid() && start < buf.offset && start < FLUSH_THRESHOLD
      && buf.Contents()[..start] == Stream(events, n)
      && AllFit(fields) && buf.Contents()[start + 1..] == Bytes(fields)
      && |Bytes(fields)| <= used
    }

    /** int start = buf->skip(1) */
    method Begin() returns (here: nat)
      requires Ready()
      modifies this`start, this`fields, this`used, buf
      ensures Writing() && fields == [] && used == 0 && here == start == old(buf.offset)
    {
      here := buf.Skip(1);
      start, fields, used := here, [], 0;
      assert buf.Contents()[start + 1..] == [];
    }

    ghost method Wrote(f: Field, before: seq<byte>)
      requires Valid() && Fits(f) && start < |before| && start < FLUSH_THRESHOLD
      requires before[..start] == Stream(events, n) && AllFit(fields) && before[start + 1..] == Bytes(fields)
      requires |Bytes(fields)| <= used && buf.Contents() == before + FieldBytes(f)
      modifies this`fields, this`used
      ensures Writing() && fields == old(fields) + [f] && used == old(used) + Width(f)
    {
      hide Stream, Bytes, AllWellFormed, AllFit, FieldBytes, Width, Fits;
      WidthBounds(f);
      BytesPush(fields, f);
      Appended(before, FieldBytes(f), start);
      fields, used := fields + [f], used + Width(f);
    }

    method PutVar64(v: u64)
      requires Writing() && used < 1000
      modifies this`fields, this`used, buf, buf.data
      ensures Writing() && fields == old(fields) + [V64(v)] && used <= old(used) + 9
      ensures v < U32 ==> used <= old(used) + 5
      ensures v < 128 ==> used <= old(used) + 1
    {
      hide Stream, Bytes, AllWellFormed, AllFit;
      ghost var before := buf.Contents();
      buf.PutVar64(v);
      Wrote(V64(v), before);
    }

    method PutVar32(v: u32)
      requires Writing() && used < 1000
      modifies this`fields, this`used, buf, buf.data
      ensures Writing() && fields == old(fields) + [V32(v)] && used == old(used) + 5
    {
      hide Stream, Bytes, AllWellFormed, AllFit;
      ghost var before := buf.Contents();
      buf.PutVar32(v);
      Wrote(V32(v), before);
    }

    method Put8(v: byte)
      requires Writing() && used < 1000
      modifies this`fields, this`used, buf, buf.data
      ensures Writing() && fields == old(fields) + [B8(v)] && used == old(used) + 1
    {
      hide Stream, Bytes, AllWellFormed, AllFit;
      ghost var before := buf.Contents();
      buf.Put8(v);
      Wrote(B8(v), before);
    }

    method PutFloat(bits: u32)
      requires Writing() && used < 1000
      modifies this`fields, this`used, buf, buf.data
      ensures Writing() && fields == old(fields) + [F32(bits)] && used == old(used) + 4
    {
      hide Stream, Bytes, AllWellFormed, AllFit;
      ghost var before := buf.Contents();
      buf.Put32(bits);
      Wrote(F32(bits), before);
    }

    /** writeContext */
    method WriteContext(ctx: Context)
      requires Writing() && used <= 58 && n <= |ctx.tags| && n <= DD_TAGS_CAPACITY
      modifies this`fields, this`used, buf, buf.data
      ensures Writing() && fields == old(fields) + ContextFields(ctx, n) && used <= old(used) + 68
    {
      hide Writing, ContextFields;
      ContextStart(ctx);
      PutVar64(ctx.spanId);
      PutVar64(ctx.rootSpanId);
      assert fields == old(fields) + ContextFields(ctx, 0);
      var i := 0;
      while i < n
        invariant i <= n <= DD_TAGS_CAPACITY && Writing() && used <= old(used) + 18 + 5 * i
        invariant fields == old(fields) + ContextFields(ctx, i)
      {
        ContextStep(ctx, i);
        PutVar32(ctx.tags[i]);
        i := i + 1;
      }
    }

    /** writeEventSizePrefix: completes the event. */
    method WriteEventSizePrefix(at: nat)
      requires at == start && Writing() && used < 127 && WellFormed(fields, n)
      modifies this`events, buf.data
      ensures Valid() && events == old(events) + [fields] && buf.Contents() == Stream(events, n)
      ensures buf.offset < start + 128
    {
      hide WellFormed, AllFit, Stream, Bytes, EventBytes;
      ghost var before := buf.Contents();
      var size := buf.offset - at;
      FrameInPlace(before, at, events, fields, n);
      buf.Put8At(at, size % 256);
      StreamPush(events, fields, n);
      events := events + [fields];
    }
  }

  // ---------------------------------------------------------------------------------------
  // The events
  // ---------------------------------------------------------------------------------------

  /** An event whose fields are those of its type. */
  predicate Shaped(e: Event, n: nat) {
    AllFit(e) && |e| > 0 && e[0].V64? && Schema(e[0].v, n) == Some(Kinds(e))
  }

  /** What an event tells of its context. */
  function ContextEntries(ctx: Context, n: nat): seq<Entry>
    requires n <= |ctx.tags|
  {
    [Entry(SpanId, ctx.spanId), Entry(LocalRootSpanId, ctx.rootSpanId)]
    + seq(n, i requires 0 <= i < n => Entry(Attribute(i), ctx.tags[i]))
  }

  lemma TellsHead(head: seq<Field>, names: seq<FieldName>, ctx: Context, n: nat)
    requires HasTags(ctx, n) && |head| == |names| + 1 && head[0].V64?
    requires Names(head[0].v, n) == names + ContextNames(n)
    ensures Tells(head + ContextFields(ctx, n), n, head[0].v, Entries(names, head[1..]) + ContextEntries(ctx, n))
  {
    ContextTells(ctx, n);
    EntriesConcat(names, head[1..], ContextNames(n), ContextFields(ctx, n));
    assert (head + ContextFields(ctx, n))[1..] == head[1..] + ContextFields(ctx, n);
    hide ContextFields, ContextNames, Names, Entries;
  }

  lemma ContextTells(ctx: Context, n: nat)
    requires HasTags(ctx, n)
    ensures |ContextNames(n)| == |ContextFields(ctx, n)|
    ensures Entries(ContextNames(n), ContextFields(ctx, n)) == ContextEntries(ctx, n)
  {
  }

  /** The log has one event more, of this type, with these values at these names. */
  ghost predicate Adds(before: seq<Event>, after: seq<Event>, n: nat, id: nat, entries: seq<Entry>) {
    |after| == |before| + 1 && after[..|before|] == before && Tells(after[|before|], n, id, entries)
  }

  /** Fields of the kinds that come before the context of their type make an event with the context. */
  lemma ShapedHead(head: seq<Field>, kinds: seq<Kind>, ctx: Context, n: nat)
    requires HasTags(ctx, n) && AllFit(head) && |head| > 0 && head[0].V64? && Kinds(head) == kinds
    requires Schema(head[0].v, n) == Some(kinds + ContextKinds(n))
    ensures Shaped(head + ContextFields(ctx, n), n)
  {
    ContextKindsMatch(ctx, n);
    KindsConcat(head, ContextFields(ctx, n));
    hide ContextFields, Kinds, Schema, ContextKinds;
  }

  lemma ShapedAlone(e: Event, kinds: seq<Kind>)
    requires AllFit(e) && |e| > 0 && e[0].V64? && Kinds(e) == kinds
    requires forall n: nat :: Schema(e[0].v, n) == Some(kinds)
    ensures forall n: nat :: Shaped(e, n)
  {
    hide Schema, Kinds, AllFit;
  }

  function ExecutionSampleEvent(ticks: u64, tid: int32, callTraceId: u32, threadState: byte, executionMode: byte,
      weight: u64, ctx: Context, n: nat): (e: Event)
    requires HasTags(ctx, n)
    ensures Shaped(e, n)
    ensures Tells(e, n, T_EXECUTION_SAMPLE, [Entry(StartTime, ticks), Entry(EventThread, tid % U64), Entry(StackTrace,
        callTraceId),
        Entry(ThreadState, threadState), Entry(ExecutionMode, executionMode), Entry(Weight, weight)]
        + ContextEntries(ctx, n))
  {
    var head := [V64(T_EXECUTION_SAMPLE), V64(ticks), V64(AsU64(tid)), V64(callTraceId), B8(threadState),
        B8(executionMode),
        V64(weight)];
    ShapedHead(head, [KV64, KV64, KV64, KV64, KB8, KB8, KV64], ctx, n);
    TellsHead(head, [StartTime, EventThread, StackTrace, ThreadState, ExecutionMode, Weight], ctx, n);
    head + ContextFields(ctx, n)
  }

  function MethodSampleEvent(ticks: u64, tid: int32, callTraceId: u32, threadState: byte, executionMode: byte,
      weight: u64, ctx: Context, n: nat): (e: Event)
    requires HasTags(ctx, n)
    ensures Shaped(e, n)
    ensures Tells(e, n, T_METHOD_SAMPLE, [Entry(StartTime, ticks), Entry(EventThread, tid % U64), Entry(StackTrace,
        callTraceId),
        Entry(ThreadState, threadState), Entry(ExecutionMode, executionMode), Entry(Weight, weight)]
        + ContextEntries(ctx, n))
  {
    var head := [V64(T_METHOD_SAMPLE), V64(ticks), V64(AsU64(tid)), V64(callTraceId), B8(threadState),
        B8(executionMode),
        V64(weight)];
    ShapedHead(head, [KV64, KV64, KV64, KV64, KB8, KB8, KV64], ctx, n);
    TellsHead(head, [StartTime, EventThread, StackTrace, ThreadState, ExecutionMode, Weight], ctx, n);
    head + ContextFields(ctx, n)
  }

  function WallClockEpochEvent(startTime: u64, durationMillis: u64, samplable: u32, successful: u32, failed: u32,
      exited: u32, denied: u32): (e: Event)
    ensures forall n: nat :: Shaped(e, n)
    ensures var entries := [Entry(StartTime, startTime), Entry(Duration, durationMillis), Entry(SamplePoolSize,
        samplable), Entry(SuccessfulSamples, successful), Entry(FailedSamples, failed), Entry(ExitedThreads, exited),
            Entry(PermissionDenied, denied)];
            forall n: nat :: Tells(e, n, T_WALLCLOCK_SAMPLE_EPOCH, entries)
  {
    var e := [V64(T_WALLCLOCK_SAMPLE_EPOCH), V64(startTime), V64(durationMillis), V64(samplable), V64(successful),
        V64(failed),
        V64(exited), V64(denied)];
    ShapedAlone(e, [KV64, KV64, KV64, KV64, KV64, KV64, KV64, KV64]);
    e
  }

  function TraceRootEvent(ticks: u64, tid: int32, labelId: u32, operation: u32, localRootSpanId: u64): (e: Event)
    ensures forall n: nat :: Shaped(e, n)
    ensures var entries := [Entry(StartTime, ticks), Entry(Duration, 0), Entry(EventThread, tid % U32),
        Entry(StackTrace, 0), Entry(EndpointName, labelId), Entry(Operation, operation), Entry(LocalRootSpanId,
            localRootSpanId)];
            forall n: nat :: Tells(e, n, T_ENDPOINT, entries)
  {
    var e := [V64(T_ENDPOINT), V64(ticks), B8(0), V32(AsU32(tid)), B8(0), V32(labelId), V32(operation),
        V64(localRootSpanId)];
    ShapedAlone(e, [KV64, KV64, KB8, KV32, KB8, KV32, KV32, KV64]);
    e
  }

  lemma QueueTimeTells(start: u64, duration: u64, thread: u64, origin: u32, taskId: u32, scheduler: u32,
      queueType: u32, queueLength: u32, ctx: Context, n: nat)
    requires HasTags(ctx, n)
    ensures var head := [V64(T_QUEUE_TIME), V64(start), V64(duration), V64(thread), V64(origin), V64(taskId),
                         V64(scheduler), V64(queueType), V64(queueLength)];
            Tells(head + ContextFields(ctx, n), n, T_QUEUE_TIME,
                  [Entry(StartTime, start), Entry(Duration, duration), Entry(EventThread, thread),
                   Entry(Origin, origin), Entry(Task, taskId), Entry(Scheduler, scheduler),
                   Entry(QueueType, queueType), Entry(QueueLength, queueLength)] + ContextEntries(ctx, n))
  {
    var head := [V64(T_QUEUE_TIME), V64(start), V64(duration), V64(thread), V64(origin), V64(taskId),
                 V64(scheduler), V64(queueType), V64(queueLength)];
    TellsHead(head, [StartTime, Duration, EventThread, Origin, Task, Scheduler, QueueType, QueueLength], ctx, n);
    hide Tells, ContextFields, ContextEntries;
  }

  function QueueTimeEvent(tid: int32, start: u64, end: u64, origin: u32, taskId: u32, scheduler: u32, queueType: u32,
      queueLength: u32, ctx: Context, n: nat): (e: Event)
    requires HasTags(ctx, n)
    ensures Shaped(e, n)
    ensures Tells(e, n, T_QUEUE_TIME, [Entry(StartTime, start), Entry(Duration, (end - start) % U64),
        Entry(EventThread, tid % U64),
        Entry(Origin, origin), Entry(Task, taskId), Entry(Scheduler, scheduler), Entry(QueueType, queueType),
        Entry(QueueLength, queueLength)]
        + ContextEntries(ctx, n))
  {
    var head := [V64(T_QUEUE_TIME), V64(start), V64(MinusU64(end, start)), V64(AsU64(tid)), V64(origin), V64(taskId),
        V64(scheduler), V64(queueType), V64(queueLength)];
    ShapedHead(head, [KV64, KV64, KV64, KV64, KV64, KV64, KV64, KV64, KV64], ctx, n);
    QueueTimeTells(start, MinusU64(end, start), AsU64(tid), origin, taskId, scheduler, queueType, queueLength, ctx, n);
    head + ContextFields(ctx, n)
  }

  function AllocationEvent(ticks: u64, tid: int32, callTraceId: u32, id: u32, size: u64, weightBits: u32,
      ctx: Context, n: nat): (e: Event)
    requires HasTags(ctx, n)
    ensures Shaped(e, n)
    ensures Tells(e, n, T_ALLOC, [Entry(StartTime, ticks), Entry(EventThread, tid % U64), Entry(StackTrace,
        callTraceId),
        Entry(ObjectClass, id), Entry(Size, size), Entry(Weight, weightBits)]
        + ContextEntries(ctx, n))
  {
    var head := [V64(T_ALLOC), V64(ticks), V64(AsU64(tid)), V64(callTraceId), V64(id), V64(size), F32(weightBits)];
    ShapedHead(head, [KV64, KV64, KV64, KV64, KV64, KV64, KF32], ctx, n);
    TellsHead(head, [StartTime, EventThread, StackTrace, ObjectClass, Size, Weight], ctx, n);
    head + ContextFields(ctx, n)
  }

  function HeapLiveObjectEvent(tid: int32, callTraceId: u32, startTime: u64, id: u32, age: u64, size: u64,
      weightBits: u32, ctx: Context, n: nat): (e: Event)
    requires HasTags(ctx, n)
    ensures Shaped(e, n)
    ensures Tells(e, n, T_HEAP_LIVE_OBJECT, [Entry(StartTime, startTime), Entry(EventThread, tid % U32),
        Entry(StackTrace, callTraceId),
        Entry(ObjectClass, id), Entry(Age, age), Entry(Size, size), Entry(Weight, weightBits)]
        + ContextEntries(ctx, n))
  {
    var head := [V64(T_HEAP_LIVE_OBJECT), V64(startTime), V32(AsU32(tid)), V32(callTraceId), V32(id), V64(age),
        V64(size),
        F32(weightBits)];
    ShapedHead(head, [KV64, KV64, KV32, KV32, KV32, KV64, KV64, KF32], ctx, n);
    TellsHead(head, [StartTime, EventThread, StackTrace, ObjectClass, Age, Size, Weight], ctx, n);
    head + ContextFields(ctx, n)
  }

  function MonitorBlockedEvent(tid: int32, callTraceId: u32, startTime: u64, endTime: u64, id: u32, address: u64,
      ctx: Context, n: nat): (e: Event)
    requires HasTags(ctx, n)
    ensures Shaped(e, n)
    ensures Tells(e, n, T_MONITOR_ENTER, [Entry(StartTime, startTime), Entry(Duration, (endTime - startTime) % U64),
        Entry(EventThread, tid % U64),
        Entry(StackTrace, callTraceId), Entry(MonitorClass, id), Entry(PreviousOwner, 0), Entry(Address, address)]
        + ContextEntries(ctx, n))
  {
    var head := [V64(T_MONITOR_ENTER), V64(startTime), V64(MinusU64(endTime, startTime)), V64(AsU64(tid)),
        V64(callTraceId),
        V64(id), B8(0), V64(address)];
    ShapedHead(head, [KV64, KV64, KV64, KV64, KV64, KV64, KB8, KV64], ctx, n);
    TellsHead(head, [StartTime, Duration, EventThread, StackTrace, MonitorClass, PreviousOwner, Address], ctx, n);
    head + ContextFields(ctx, n)
  }

  function ThreadParkEvent(tid: int32, callTraceId: u32, startTime: u64, endTime: u64, id: u32, timeout: int64,
      address: u64): (e: Event)
    ensures forall n: nat :: Shaped(e, n)
    ensures var entries := [Entry(StartTime, startTime), Entry(Duration, (endTime - startTime) % U64),
        Entry(EventThread, tid % U64), Entry(StackTrace, callTraceId), Entry(ParkedClass, id), Entry(Timeout,
            timeout % U64), Entry(ParkedUntil, 0x8000_0000_0000_0000), Entry(Address, address)];
            forall n: nat :: Tells(e, n, T_THREAD_PARK, entries)
  {
    var e := [V64(T_THREAD_PARK), V64(startTime), V64(MinusU64(endTime, startTime)), V64(AsU64(tid)), V64(callTraceId),
        V64(id), V64(AsU64(timeout)), V64(MIN_JLONG), V64(address)];
    ShapedAlone(e, [KV64, KV64, KV64, KV64, KV64, KV64, KV64, KV64, KV64]);
    e
  }

  lemma AddsOne(before: seq<Event>, e: Event, n: nat)
    ensures forall id: nat, entries: seq<Entry> ::
              Tells(e, n, id, entries) ==> Adds(before, before + [e], n, id, entries)
  {
    hide Tells;
  }

  // ---------------------------------------------------------------------------------------
  // The writers
  // ---------------------------------------------------------------------------------------

  /** A recording: the file, and for the proof the events in it. */
  class Recording {
    const n: nat
    var file: seq<byte>
    ghost var events: seq<Event>

    constructor (n: nat)
      ensures Valid() && events == [] && this.n == n
    {
      this.n := n;
      file, events := [], [];
    }

    ghost predicate Valid()
      reads this
    {
      AllWellFormed(events, n) && file == Stream(events, n)
    }

    /** Whole events in the lane, however many bytes. */
    ghost predicate Whole(lane: Lane)
      reads lane, lane.buf, lane.buf.data
    {
      lane.n == n && lane.Valid() && lane.buf.Contents() == Stream(lane.events, n)
    }

    lemma ReadyIsWhole(lane: Lane)
      requires lane.Ready() && lane.n == n
      ensures Whole(lane)
    {
    }

    /** The events in the file, then those of the lane. */
    ghost function Log(lane: Lane): seq<Event>
      reads this, lane
    {
      events + lane.events
    }

    /** flush(buf) */
    method Flush(lane: Lane)
      requires Valid() && Whole(lane)
      modifies this, lane`events, lane.buf
      ensures Valid() && Whole(lane) && lane.events == [] && lane.buf.offset == 0
      ensures events == old(events) + old(lane.events)
    {
      StreamConcat(events, lane.events, n);
      file := file + lane.buf.data[..lane.buf.offset];
      lane.buf.Reset();
      events, lane.events := events + lane.events, [];
    }

    /** flushIfNeeded(buf) */
    method FlushIfNeeded(lane: Lane)
      requires Valid() && Whole(lane)
      modifies this, lane`events, lane.buf
      ensures Valid() && Whole(lane) && lane.Ready() && Log(lane) == old(Log(lane))
      ensures old(lane.buf.offset) < FLUSH_THRESHOLD ==> file == old(file) && lane.events == old(lane.events)
    {
      hide Stream, AllWellFormed;
      if lane.buf.offset >= FLUSH_THRESHOLD {
        Flush(lane);
      }
    }

    /** The end of every writer: patch the size, flush if needed. */
    method Finish(lane: Lane, start: nat)
      requires Valid() && lane.n == n && start == lane.start
      requires lane.Writing() && lane.used < 127 && Shaped(lane.fields, n)
      modifies this, lane`events, lane.buf, lane.buf.data
      ensures Valid() && lane.Ready() && Log(lane) == old(Log(lane)) + [old(lane.fields)]
      ensures lane.buf.offset < RECORDING_LIMIT
    {
      hide Stream, AllWellFormed, Bytes, Schema;
      lane.WriteEventSizePrefix(start);
      FlushIfNeeded(lane);
    }

    /** The end of a writer whose event has a context. */
    method FinishWithContext(lane: Lane, start: nat, ctx: Context)
      requires Valid() && lane.n == n && start == lane.start && HasTags(ctx, n)
      requires lane.Writing() && lane.used <= 58 && Shaped(lane.fields + ContextFields(ctx, n), n)
      modifies this, lane, lane.buf, lane.buf.data
      ensures Valid() && lane.Ready()
      ensures Log(lane) == old(Log(lane)) + [old(lane.fields) + ContextFields(ctx, n)]
    {
      hide Stream, AllWellFormed, Bytes, AllFit, Shaped, ContextFields, Lane.Writing, Lane.Ready, Valid, Whole;
      lane.WriteContext(ctx);
      Finish(lane, start);
    }

    method RecordExecutionSample(lane: Lane, ticks: u64, tid: int32, callTraceId: u32, threadState: byte,
        executionMode: byte, weight: u64, ctx: Context)
      requires Valid() && lane.Ready() && lane.n == n && HasTags(ctx, n)
      modifies this, lane, lane.buf, lane.buf.data
      ensures Valid() && lane.Ready()
      ensures Log(lane) == old(Log(lane)) + [ExecutionSampleEvent(ticks, tid, callTraceId, threadState, executionMode,
          weight, ctx, n)]
      ensures Adds(old(Log(lane)), Log(lane), n, T_EXECUTION_SAMPLE,
        [Entry(StartTime, ticks), Entry(EventThread, tid % U64), Entry(StackTrace, callTraceId),
          Entry(ThreadState, threadState), Entry(ExecutionMode, executionMode), Entry(Weight, weight)] +
              ContextEntries(ctx, n))
    {
      hide Stream, AllWellFormed, Bytes, AllFit, Shaped, ContextFields, AsU64, AsU32, MinusU64, Tells, Adds,
          ContextEntries;
      hide Lane.Writing, Lane.Ready, Valid, Whole;
      var at := lane.Begin();
      lane.PutVar64(T_EXECUTION_SAMPLE);
      lane.PutVar64(ticks);
      lane.PutVar64(AsU64(tid));
      lane.PutVar64(callTraceId);
      lane.Put8(threadState);
      lane.Put8(executionMode);
      lane.PutVar64(weight);
      ghost var e := ExecutionSampleEvent(ticks, tid, callTraceId, threadState, executionMode, weight, ctx, n);
      assert lane.fields + ContextFields(ctx, n) == e;
      AddsOne(Log(lane), e, n);
      FinishWithContext(lane, at, ctx);
    }

    method RecordMethodSample(lane: Lane, ticks: u64, tid: int32, callTraceId: u32, threadState: byte,
        executionMode: byte, weight: u64, ctx: Context)
      requires Valid() && lane.Ready() && lane.n == n && HasTags(ctx, n)
      modifies this, lane, lane.buf, lane.buf.data
      ensures Valid() && lane.Ready()
      ensures Log(lane) == old(Log(lane)) + [MethodSampleEvent(ticks, tid, callTraceId, threadState, executionMode,
          weight, ctx, n)]
      ensures Adds(old(Log(lane)), Log(lane), n, T_METHOD_SAMPLE,
        [Entry(StartTime, ticks), Entry(EventThread, tid % U64), Entry(StackTrace, callTraceId),
          Entry(ThreadState, threadState), Entry(ExecutionMode, executionMode), Entry(Weight, weight)] +
              ContextEntries(ctx, n))
    {
      hide Stream, AllWellFormed, Bytes, AllFit, Shaped, ContextFields, AsU64, AsU32, MinusU64, Tells, Adds,
          ContextEntries;
      hide Lane.Writing, Lane.Ready, Valid, Whole;
      var at := lane.Begin();
      lane.PutVar64(T_METHOD_SAMPLE);
      lane.PutVar64(ticks);
      lane.PutVar64(AsU64(tid));
      lane.PutVar64(callTraceId);
      lane.Put8(threadState);
      lane.Put8(executionMode);
      lane.PutVar64(weight);
      ghost var e := MethodSampleEvent(ticks, tid, callTraceId, threadState, executionMode, weight, ctx, n);
      assert lane.fields + ContextFields(ctx, n) == e;
      AddsOne(Log(lane), e, n);
      FinishWithContext(lane, at, ctx);
    }

    method RecordWallClockEpoch(lane: Lane, startTime: u64, durationMillis: u64, samplable: u32, successful: u32,
        failed: u32, exited: u32, denied: u32)
      requires Valid() && lane.Ready() && lane.n == n
      modifies this, lane, lane.buf, lane.buf.data
      ensures Valid() && lane.Ready()
      ensures Log(lane) == old(Log(lane)) + [WallClockEpochEvent(startTime, durationMillis, samplable, successful,
          failed, exited, denied)]
      ensures Adds(old(Log(lane)), Log(lane), n, T_WALLCLOCK_SAMPLE_EPOCH,
        [Entry(StartTime, startTime), Entry(Duration, durationMillis), Entry(SamplePoolSize, samplable),
          Entry(SuccessfulSamples, successful), Entry(FailedSamples, failed), Entry(ExitedThreads, exited),
          Entry(PermissionDenied, denied)])
    {
      hide Stream, AllWellFormed, Bytes, AllFit, Shaped, ContextFields, AsU64, AsU32, MinusU64, Tells, Adds,
          ContextEntries;
      hide Lane.Writing, Lane.Ready, Valid, Whole;
      var at := lane.Begin();
      lane.PutVar64(T_WALLCLOCK_SAMPLE_EPOCH);
      lane.PutVar64(startTime);
      lane.PutVar64(durationMillis);
      lane.PutVar64(samplable);
      lane.PutVar64(successful);
      lane.PutVar64(failed);
      lane.PutVar64(exited);
      lane.PutVar64(denied);
      ghost var e := WallClockEpochEvent(startTime, durationMillis, samplable, successful, failed, exited, denied);
      assert lane.fields == e;
      AddsOne(Log(lane), e, n);
      Finish(lane, at);
    }

    method FlushFirst(lane: Lane)
      requires Valid() && lane.Ready() && lane.n == n
      modifies this, lane`events, lane.buf
      ensures Valid() && lane.Ready() && Log(lane) == old(Log(lane))
    {
      hide Lane.Ready, Valid, Whole;
      ReadyIsWhole(lane);
      FlushIfNeeded(lane);
    }

    method PutTraceRoot(lane: Lane, ticks: u64, tid: int32, labelId: u32, operation: u32, localRootSpanId: u64)
      requires lane.Writing() && lane.used == 0 && lane.fields == []
      modifies lane`fields, lane`used, lane.buf, lane.buf.data
      ensures lane.Writing() && lane.used < 127
      ensures lane.fields == [V64(T_ENDPOINT), V64(ticks), B8(0), V32(AsU32(tid)), B8(0), V32(labelId), V32(operation),
                              V64(localRootSpanId)]
    {
      hide Lane.Writing, AsU32;
      lane.PutVar64(T_ENDPOINT);
      lane.PutVar64(ticks);
      lane.Put8(0);
      lane.PutVar32(AsU32(tid));
      lane.Put8(0);
      lane.PutVar32(labelId);
      lane.PutVar32(operation);
      lane.PutVar64(localRootSpanId);
    }

    method RecordTraceRoot(lane: Lane, ticks: u64, tid: int32, labelId: u32, operation: u32, localRootSpanId: u64)
      requires Valid() && lane.Ready() && lane.n == n
      modifies this, lane, lane.buf, lane.buf.data
      ensures Valid() && lane.Ready()
      ensures Log(lane) == old(Log(lane)) + [TraceRootEvent(ticks, tid, labelId, operation, localRootSpanId)]
      ensures Adds(old(Log(lane)), Log(lane), n, T_ENDPOINT,
        [Entry(StartTime, ticks), Entry(Duration, 0), Entry(EventThread, tid % U32), Entry(StackTrace, 0),
          Entry(EndpointName, labelId), Entry(Operation, operation), Entry(LocalRootSpanId, localRootSpanId)])
    {
      hide Stream, AllWellFormed, Bytes, AllFit, Shaped, ContextFields, AsU64, AsU32, MinusU64, Tells, Adds,
          ContextEntries;
      hide Lane.Writing, Lane.Ready, Valid, Whole;
      FlushFirst(lane);
      var at := lane.Begin();
      PutTraceRoot(lane, ticks, tid, labelId, operation, localRootSpanId);
      ghost var e := TraceRootEvent(ticks, tid, labelId, operation, localRootSpanId);
      assert lane.fields == e;
      AddsOne(Log(lane), e, n);
      Finish(lane, at);
    }

    /** The fields before the context. */
    method PutQueueTime(lane: Lane, tid: int32, start: u64, end: u64, origin: u32, taskId: u32, scheduler: u32,
        queueType: u32, queueLength: u32)
      requires lane.Writing() && lane.used == 0 && lane.fields == []
      modifies lane`fields, lane`used, lane.buf, lane.buf.data
      ensures lane.Writing() && lane.used <= 58
      ensures lane.fields == [V64(T_QUEUE_TIME), V64(start), V64(MinusU64(end, start)), V64(AsU64(tid)), V64(origin),
                              V64(taskId), V64(scheduler), V64(queueType), V64(queueLength)]
    {
      hide Lane.Writing, AsU64, MinusU64;
      lane.PutVar64(T_QUEUE_TIME);
      lane.PutVar64(start);
      lane.PutVar64(MinusU64(end, start));
      lane.PutVar64(AsU64(tid));
      lane.PutVar64(origin);
      lane.PutVar64(taskId);
      lane.PutVar64(scheduler);
      lane.PutVar64(queueType);
      lane.PutVar64(queueLength);
    }

    method RecordQueueTime(lane: Lane, tid: int32, start: u64, end: u64, origin: u32, taskId: u32, scheduler: u32,
        queueType: u32, queueLength: u32, ctx: Context)
      requires Valid() && lane.Ready() && lane.n == n && HasTags(ctx, n)
      modifies this, lane, lane.buf, lane.buf.data
      ensures Valid() && lane.Ready()
      ensures Log(lane) == old(Log(lane)) + [QueueTimeEvent(tid, start, end, origin, taskId, scheduler, queueType,
          queueLength, ctx, n)]
      ensures Adds(old(Log(lane)), Log(lane), n, T_QUEUE_TIME,
        [Entry(StartTime, start), Entry(Duration, (end - start) % U64), Entry(EventThread, tid % U64),
          Entry(Origin, origin), Entry(Task, taskId), Entry(Scheduler, scheduler), Entry(QueueType, queueType),
          Entry(QueueLength, queueLength)] + ContextEntries(ctx, n))
    {
      hide Stream, AllWellFormed, Bytes, AllFit, Shaped, ContextFields, AsU64, AsU32, MinusU64, Tells, Adds,
          ContextEntries;
      hide Lane.Writing, Lane.Ready, Valid, Whole;
      var at := lane.Begin();
      PutQueueTime(lane, tid, start, end, origin, taskId, scheduler, queueType, queueLength);
      ghost var e := QueueTimeEvent(tid, start, end, origin, taskId, scheduler, queueType, queueLength, ctx, n);
      assert lane.fields + ContextFields(ctx, n) == e;
      AddsOne(Log(lane), e, n);
      FinishWithContext(lane, at, ctx);
    }

    method RecordAllocation(lane: Lane, ticks: u64, tid: int32, callTraceId: u32, id: u32, size: u64, weightBits: u32,
        ctx: Context)
      requires Valid() && lane.Ready() && lane.n == n && HasTags(ctx, n)
      modifies this, lane, lane.buf, lane.buf.data
      ensures Valid() && lane.Ready()
      ensures Log(lane) == old(Log(lane)) + [AllocationEvent(ticks, tid, callTraceId, id, size, weightBits, ctx, n)]
      ensures Adds(old(Log(lane)), Log(lane), n, T_ALLOC,
        [Entry(StartTime, ticks), Entry(EventThread, tid % U64), Entry(StackTrace, callTraceId),
          Entry(ObjectClass, id), Entry(Size, size), Entry(Weight, weightBits)] + ContextEntries(ctx, n))
    {
      hide Stream, AllWellFormed, Bytes, AllFit, Shaped, ContextFields, AsU64, AsU32, MinusU64, Tells, Adds,
          ContextEntries;
      hide Lane.Writing, Lane.Ready, Valid, Whole;
      var at := lane.Begin();
      lane.PutVar64(T_ALLOC);
      lane.PutVar64(ticks);
      lane.PutVar64(AsU64(tid));
      lane.PutVar64(callTraceId);
      lane.PutVar64(id);
      lane.PutVar64(size);
      lane.PutFloat(weightBits);
      ghost var e := AllocationEvent(ticks, tid, callTraceId, id, size, weightBits, ctx, n);
      assert lane.fields + ContextFields(ctx, n) == e;
      AddsOne(Log(lane), e, n);
      FinishWithContext(lane, at, ctx);
    }

    method RecordHeapLiveObject(lane: Lane, tid: int32, callTraceId: u32, startTime: u64, id: u32, age: u64,
        size: u64, weightBits: u32, ctx: Context)
      requires Valid() && lane.Ready() && lane.n == n && HasTags(ctx, n)
      modifies this, lane, lane.buf, lane.buf.data
      ensures Valid() && lane.Ready()
      ensures Log(lane) == old(Log(lane)) + [HeapLiveObjectEvent(tid, callTraceId, startTime, id, age, size,
          weightBits, ctx, n)]
      ensures Adds(old(Log(lane)), Log(lane), n, T_HEAP_LIVE_OBJECT,
        [Entry(StartTime, startTime), Entry(EventThread, tid % U32), Entry(StackTrace, callTraceId),
          Entry(ObjectClass, id), Entry(Age, age), Entry(Size, size), Entry(Weight, weightBits)] + ContextEntries(ctx,
              n))
    {
      hide Stream, AllWellFormed, Bytes, AllFit, Shaped, ContextFields, AsU64, AsU32, MinusU64, Tells, Adds,
          ContextEntries;
      hide Lane.Writing, Lane.Ready, Valid, Whole;
      var at := lane.Begin();
      lane.PutVar64(T_HEAP_LIVE_OBJECT);
      lane.PutVar64(startTime);
      lane.PutVar32(AsU32(tid));
      lane.PutVar32(callTraceId);
      lane.PutVar32(id);
      lane.PutVar64(age);
      lane.PutVar64(size);
      lane.PutFloat(weightBits);
      ghost var e := HeapLiveObjectEvent(tid, callTraceId, startTime, id, age, size, weightBits, ctx, n);
      assert lane.fields + ContextFields(ctx, n) == e;
      AddsOne(Log(lane), e, n);
      FinishWithContext(lane, at, ctx);
    }

    /** The fields that monitor and park events begin with. */
    method PutBlocked(lane: Lane, event: u64, tid: int32, callTraceId: u32, startTime: u64, endTime: u64, id: u32)
      requires lane.Writing() && lane.used == 0 && lane.fields == [] && event < 128
      modifies lane`fields, lane`used, lane.buf, lane.buf.data
      ensures lane.Writing() && lane.used <= 38
      ensures lane.fields == [V64(event), V64(startTime), V64(MinusU64(endTime, startTime)), V64(AsU64(tid)),
                              V64(callTraceId), V64(id)]
    {
      hide Lane.Writing, AsU64, MinusU64;
      lane.PutVar64(event);
      lane.PutVar64(startTime);
      lane.PutVar64(MinusU64(endTime, startTime));
      lane.PutVar64(AsU64(tid));
      lane.PutVar64(callTraceId);
      lane.PutVar64(id);
    }

    method RecordMonitorBlocked(lane: Lane, tid: int32, callTraceId: u32, startTime: u64, endTime: u64, id: u32,
        address: u64, ctx: Context)
      requires Valid() && lane.Ready() && lane.n == n && HasTags(ctx, n)
      modifies this, lane, lane.buf, lane.buf.data
      ensures Valid() && lane.Ready()
      ensures Log(lane) == old(Log(lane)) + [MonitorBlockedEvent(tid, callTraceId, startTime, endTime, id, address,
          ctx, n)]
      ensures Adds(old(Log(lane)), Log(lane), n, T_MONITOR_ENTER,
        [Entry(StartTime, startTime), Entry(Duration, (endTime - startTime) % U64), Entry(EventThread, tid % U64),
          Entry(StackTrace, callTraceId), Entry(MonitorClass, id), Entry(PreviousOwner, 0), Entry(Address, address)] +
              ContextEntries(ctx, n))
    {
      hide Stream, AllWellFormed, Bytes, AllFit, Shaped, ContextFields, AsU64, AsU32, MinusU64, Tells, Adds,
          ContextEntries;
      hide Lane.Writing, Lane.Ready, Valid, Whole;
      var at := lane.Begin();
      PutBlocked(lane, T_MONITOR_ENTER, tid, callTraceId, startTime, endTime, id);
      lane.Put8(0);
      lane.PutVar64(address);
      ghost var e := MonitorBlockedEvent(tid, callTraceId, startTime, endTime, id, address, ctx, n);
      assert lane.fields + ContextFields(ctx, n) == e;
      AddsOne(Log(lane), e, n);
      FinishWithContext(lane, at, ctx);
    }

    method RecordThreadPark(lane: Lane, tid: int32, callTraceId: u32, startTime: u64, endTime: u64, id: u32,
        timeout: int64, address: u64)
      requires Valid() && lane.Ready() && lane.n == n
      modifies this, lane, lane.buf, lane.buf.data
      ensures Valid() && lane.Ready()
      ensures Log(lane) == old(Log(lane)) + [ThreadParkEvent(tid, callTraceId, startTime, endTime, id, timeout,
          address)]
      ensures Adds(old(Log(lane)), Log(lane), n, T_THREAD_PARK,
        [Entry(StartTime, startTime), Entry(Duration, (endTime - startTime) % U64), Entry(EventThread, tid % U64),
          Entry(StackTrace, callTraceId), Entry(ParkedClass, id), Entry(Timeout, timeout % U64),
          Entry(ParkedUntil, 0x8000_0000_0000_0000), Entry(Address, address)])
    {
      hide Stream, AllWellFormed, Bytes, AllFit, Shaped, ContextFields, AsU64, AsU32, MinusU64, Tells, Adds,
          ContextEntries;
      hide Lane.Writing, Lane.Ready, Valid, Whole;
      var at := lane.Begin();
      PutBlocked(lane, T_THREAD_PARK, tid, callTraceId, startTime, endTime, id);
      lane.PutVar64(AsU64(timeout));
      lane.PutVar64(MIN_JLONG);
      lane.PutVar64(address);
      ghost var e := ThreadParkEvent(tid, callTraceId, startTime, endTime, id, timeout, address);
      assert lane.fields == e;
      AddsOne(Log(lane), e, n);
      Finish(lane, at);
    }
  }

  /** Whatever events were written through whatever lanes, and wherever flushes fell: the file
      reads back as exactly the events flushed so far, and with a lane's pending bytes after it,
      as these followed by the lane's events. */
  lemma FileReadsBack(r: Recording, lane: Lane)
    requires r.Valid() && r.Whole(lane)
    ensures ReadStream(r.file, r.n) == Some(r.events)
    ensures ReadStream(r.file + lane.buf.Contents(), r.n) == Some(r.Log(lane))
  {
    ReadStreamBack(r.events, r.n);
    StreamConcat(r.events, lane.events, r.n);
    ReadStreamBack(r.events + lane.events, r.n);
  }
}
