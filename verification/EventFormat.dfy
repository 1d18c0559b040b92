/** The event format: an event is a one-byte size, which counts itself, followed by its fields.
    A reader knows the kinds of the fields from the event type, which is the first field. */
module EventFormat {
  import opened Words
  import opened Varint
  import opened Buffer

  /** A field as written by putVar64, putVar32, put8 and putFloat (by its bits). */
  datatype Field = V64(v: nat) | V32(v: nat) | B8(v: nat) | F32(v: nat)

  predicate Fits(f: Field) {
    match f
    case V64(v) => v < U64
    case V32(v) => v < U32
    case B8(v) => v < 256
    case F32(v) => v < U32
  }

  predicate AllFit(fs: seq<Field>) {
    forall i :: 0 <= i < |fs| ==> Fits(fs[i])
  }

  function FieldBytes(f: Field): (s: seq<byte>)
    requires Fits(f)
    ensures |s| >= 1
  {
    match f
    case V64(v) => Var64(v)
    case V32(v) => Var32(v)
    case B8(v) => [v]
    case F32(v) => Big32(v)
  }

  function Bytes(fs: seq<Field>): seq<byte>
    requires AllFit(fs)
  {
    if fs == [] then [] else Bytes(fs[..|fs| - 1]) + FieldBytes(fs[|fs| - 1])
  }

  lemma BytesPush(fs: seq<Field>, f: Field)
    requires AllFit(fs) && Fits(f)
    ensures AllFit(fs + [f]) && Bytes(fs + [f]) == Bytes(fs) + FieldBytes(f)
  {
    hide Fits, FieldBytes;
    assert (fs + [f])[..|fs|] == fs;
  }

  lemma {:induction false} BytesConcat(fs: seq<Field>, gs: seq<Field>)
    requires AllFit(fs) && AllFit(gs)
    ensures AllFit(fs + gs) && Bytes(fs + gs) == Bytes(fs) + Bytes(gs)
  {
    assert Bytes([]) == [];
    hide Fits, FieldBytes, Bytes;
    if gs == [] {
      assert fs + gs == fs;
    } else {
      var front, last := gs[..|gs| - 1], gs[|gs| - 1];
      assert gs == front + [last];
      BytesConcat(fs, front);
      BytesPush(front, last);
      BytesPush(fs + front, last);
      assert fs + gs == fs + front + [last];
    }
  }

  lemma BytesCons(f: Field, fs: seq<Field>)
    requires Fits(f) && AllFit(fs)
    ensures AllFit([f] + fs) && Bytes([f] + fs) == FieldBytes(f) + Bytes(fs)
  {
    hide Fits, FieldBytes;
    BytesPush([], f);
    assert Bytes([]) == [] && [] + [f] == [f];
    hide Bytes;
    BytesConcat([f], fs);
  }

  lemma BytesFront(fs: seq<Field>)
    requires AllFit(fs) && fs != []
    ensures Bytes(fs) == FieldBytes(fs[0]) + Bytes(fs[1..])
  {
    hide Fits, FieldBytes, Bytes;
    var f, rest := fs[0], fs[1..];
    BytesCons(f, rest);
    assert fs == [f] + rest;
  }

  // ---------------------------------------------------------------------------------------
  // Sizes
  // ---------------------------------------------------------------------------------------

  /** How long a field can be, given how large its value is. */
  function Width(f: Field): nat {
    match f
    case V64(v) => if v < 128 then 1 else if v < U32 then 5 else 9
    case V32(v) => 5
    case B8(v) => 1
    case F32(v) => 4
  }

  lemma WidthBounds(f: Field)
    requires Fits(f)
    ensures |FieldBytes(f)| <= Width(f)
  {
    if (f.V64? || f.V32?) && f.v < U32 {
      SameBytes(f.v);
    }
  }

  // ---------------------------------------------------------------------------------------
  // Reading fields back
  // ---------------------------------------------------------------------------------------

  datatype Kind = KV64 | KV32 | KB8 | KF32

  function KindOf(f: Field): Kind {
    match f
    case V64(_) => KV64
    case V32(_) => KV32
    case B8(_) => KB8
    case F32(_) => KF32
  }

  function Kinds(fs: seq<Field>): (ks: seq<Kind>)
    ensures |ks| == |fs|
  {
    seq(|fs|, i requires 0 <= i < |fs| => KindOf(fs[i]))
  }

  /** A field of a known kind at the front of `s`, and how many bytes it takes. */
  function ReadField(kind: Kind, s: seq<byte>): (r: Option<(Field, nat)>)
    ensures r.Some? ==> r.value.1 <= |s|
  {
    match kind
    case KV64 => (match Dec(s, 9) case Value(v, n) => Some((V64(v), n)) case Truncated => None)
    case KV32 => (match Dec(s, 9) case Value(v, n) => Some((V32(v), n)) case Truncated => None)
    case KB8 => if |s| < 1 then None else Some((B8(s[0]), 1))
    case KF32 => if |s| < 4 then None else Some((F32(FromBig32(s[..4])), 4))
  }

  lemma ReadFieldBack(f: Field, rest: seq<byte>)
    requires Fits(f)
    ensures ReadField(KindOf(f), FieldBytes(f) + rest) == Some((f, |FieldBytes(f)|))
  {
    match f
    case V64(v) => Var64RoundTrip(v, rest);
    case V32(v) =>
      SameBytes(v);
      Var64RoundTrip(v, rest);
    case B8(v) =>
    case F32(v) =>
      Big32RoundTrip(v);
      assert (FieldBytes(f) + rest)[..4] == Big32(v);
  }

  /** Fields of known kinds that make up `s` exactly. */
  function ReadFields(kinds: seq<Kind>, s: seq<byte>): Option<seq<Field>> {
    if kinds == [] then (if s == [] then Some([]) else None)
    else
      match ReadField(kinds[0], s)
      case None => None
      case Some(p) =>
        match ReadFields(kinds[1..], s[p.1..])
        case None => None
        case Some(fs) => Some([p.0] + fs)
  }

  lemma {:induction false} ReadFieldsBack(fs: seq<Field>)
    requires AllFit(fs)
    ensures ReadFields(Kinds(fs), Bytes(fs)) == Some(fs)
  {
    if fs != [] {
      var f, rest := fs[0], fs[1..];
      ReadFieldsBack(rest);
      BytesFront(fs);
      ReadFieldBack(f, Bytes(rest));
      hide Bytes, FieldBytes, ReadField, ReadFields, Fits, Kinds;
      ReadFieldsCons(KindOf(f), Kinds(rest), FieldBytes(f), Bytes(rest), f, rest);
      KindsCons(f, rest);
      assert fs == [f] + rest;
    }
  }

  lemma KindsCons(f: Field, fs: seq<Field>)
    ensures Kinds([f] + fs) == [KindOf(f)] + Kinds(fs)
  {
  }

  lemma ReadFieldsCons(kind: Kind, kinds: seq<Kind>, s: seq<byte>, rest: seq<byte>, f: Field, fs: seq<Field>)
    requires ReadField(kind, s + rest) == Some((f, |s|)) && ReadFields(kinds, rest) == Some(fs)
    ensures ReadFields([kind] + kinds, s + rest) == Some([f] + fs)
  {
    assert ([kind] + kinds)[1..] == kinds && (s + rest)[|s|..] == rest;
    hide ReadField;
  }

  // ---------------------------------------------------------------------------------------
  // Events
  // ---------------------------------------------------------------------------------------

  /** An event with its size byte in front. */
  function Frame(fs: seq<Field>): (s: seq<byte>)
    requires AllFit(fs) && |Bytes(fs)| < 127
    ensures |s| == 1 + |Bytes(fs)| == s[0] && s[1..] == Bytes(fs)
  {
    [1 + |Bytes(fs)|] + Bytes(fs)
  }

  type Event = seq<Field>

  /** The event types and the kinds of their fields; `n` is the number of context attributes. */
  function Schema(id: nat, n: nat): Option<seq<Kind>> {
    match id
    case 101 => Some([KV64, KV64, KV64, KV64, KB8, KB8, KV64] + ContextKinds(n))
    case 102 => Some([KV64, KV64, KV64, KV64, KB8, KB8, KV64] + ContextKinds(n))
    case 103 => Some([KV64, KV64, KV64, KV64, KV64, KV64, KF32] + ContextKinds(n))
    case 105 => Some([KV64, KV64, KV32, KV32, KV32, KV64, KV64, KF32] + ContextKinds(n))
    case 106 => Some([KV64, KV64, KV64, KV64, KV64, KV64, KB8, KV64] + ContextKinds(n))
    case 107 => Some([KV64, KV64, KV64, KV64, KV64, KV64, KV64, KV64, KV64])
    case 118 => Some([KV64, KV64, KV64, KV64, KV64, KV64, KV64, KV64])
    case 119 => Some([KV64, KV64, KB8, KV32, KB8, KV32, KV32, KV64])
    case 123 => Some([KV64, KV64, KV64, KV64, KV64, KV64, KV64, KV64, KV64] + ContextKinds(n))
    case _ => None
  }

  function ContextKinds(n: nat): (ks: seq<Kind>)
    ensures |ks| == n + 2
  {
    [KV64, KV64] + seq(n, i => KV32)
  }

  /** The names that the metadata declares for the fields behind the type; those of monitor and park
      events, which it does not declare, are the names the JDK has for them. */
  datatype FieldName =
    | StartTime | Duration | EventThread | StackTrace | ThreadState | ExecutionMode | Weight
    | SpanId | LocalRootSpanId | Attribute(i: nat)
    | ObjectClass | Size | Age
    | SamplePoolSize | SuccessfulSamples | FailedSamples | ExitedThreads | PermissionDenied
    | EndpointName | Operation
    | Origin | Task | Scheduler | QueueType | QueueLength
    | MonitorClass | PreviousOwner | Address | ParkedClass | Timeout | ParkedUntil

  function Names(id: nat, n: nat): seq<FieldName> {
    match id
    case 101 => [StartTime, EventThread, StackTrace, ThreadState, ExecutionMode, Weight] + ContextNames(n)
    case 102 => [StartTime, EventThread, StackTrace, ThreadState, ExecutionMode, Weight] + ContextNames(n)
    case 103 => [StartTime, EventThread, StackTrace, ObjectClass, Size, Weight] + ContextNames(n)
    case 105 => [StartTime, EventThread, StackTrace, ObjectClass, Age, Size, Weight] + ContextNames(n)
    case 106 =>
      [StartTime, Duration, EventThread, StackTrace, MonitorClass, PreviousOwner, Address] + ContextNames(n)
    case 107 => [StartTime, Duration, EventThread, StackTrace, ParkedClass, Timeout, ParkedUntil, Address]
    case 118 =>
      [StartTime, Duration, SamplePoolSize, SuccessfulSamples, FailedSamples, ExitedThreads, PermissionDenied]
    case 119 => [StartTime, Duration, EventThread, StackTrace, EndpointName, Operation, LocalRootSpanId]
    case 123 =>
      [StartTime, Duration, EventThread, Origin, Task, Scheduler, QueueType, QueueLength] + ContextNames(n)
    case _ => []
  }

  function ContextNames(n: nat): seq<FieldName> {
    [SpanId, LocalRootSpanId] + seq(n, i requires 0 <= i < n => Attribute(i))
  }

  datatype Entry = Entry(name: FieldName, value: nat)

  function ValueOf(f: Field): nat {
    match f
    case V64(v) => v
    case V32(v) => v
    case B8(v) => v
    case F32(v) => v
  }

  /** The names of the type's fields with the values of the event. */
  function Entries(names: seq<FieldName>, values: seq<Field>): (es: seq<Entry>)
    requires |names| == |values|
    ensures |es| == |names|
  {
    seq(|names|, i requires 0 <= i < |names| => Entry(names[i], ValueOf(values[i])))
  }

  /** What a reader sees in an event: its type and the value at each declared name. */
  predicate Tells(e: Event, n: nat, id: nat, entries: seq<Entry>) {
    && |e| > 0 && e[0] == V64(id)
    && |Names(id, n)| == |e| - 1 && Entries(Names(id, n), e[1..]) == entries
  }

  lemma EntriesConcat(names: seq<FieldName>, values: seq<Field>, names': seq<FieldName>, values': seq<Field>)
    requires |names| == |values| && |names'| == |values'|
    ensures Entries(names + names', values + values') == Entries(names, values) + Entries(names', values')
  {
  }

  /** An event that a reader of the format understands: small enough for its size byte, and with
      the fields its type says. */
  predicate WellFormed(e: Event, n: nat) {
    && AllFit(e) && |Bytes(e)| < 127
    && |e| > 0 && e[0].V64? && Schema(e[0].v, n) == Some(Kinds(e))
  }

  predicate AllWellFormed(es: seq<Event>, n: nat) {
    forall i :: 0 <= i < |es| ==> WellFormed(es[i], n)
  }

  /** A stream of events. */
  function Stream(es: seq<Event>, n: nat): seq<byte>
    requires AllWellFormed(es, n)
  {
    if es == [] then [] else Stream(es[..|es| - 1], n) + EventBytes(es[|es| - 1], n)
  }

  function EventBytes(e: Event, n: nat): seq<byte>
    requires WellFormed(e, n)
  {
    Frame(e)
  }

  /** One event at the front of a stream: its size, as a varint, then its type, then the rest. */
  function ReadEvent(s: seq<byte>, n: nat): (r: Option<(Event, nat)>)
    ensures r.Some? ==> 1 <= r.value.1 <= |s|
  {
    match Dec(s, 9)
    case Truncated => None
    case Value(size, k) =>
      if size < k || size > |s| then None
      else
        var body := s[k..size];
        match Dec(body, 9)
        case Truncated => None
        case Value(id, _) =>
          match Schema(id, n)
          case None => None
          case Some(kinds) =>
            match ReadFields(kinds, body)
            case None => None
            case Some(e) => Some((e, size))
  }

  function ReadStream(s: seq<byte>, n: nat): Option<seq<Event>>
    decreases |s|
  {
    if s == [] then Some([])
    else
      match ReadEvent(s, n)
      case None => None
      case Some(p) =>
        match ReadStream(s[p.1..], n)
        case None => None
        case Some(es) => Some([p.0] + es)
  }

  /** The size byte leads a reader from one event exactly to the next. */
  lemma ReadEventBack(e: Event, n: nat, rest: seq<byte>)
    requires WellFormed(e, n)
    ensures ReadEvent(Frame(e) + rest, n) == Some((e, |Frame(e)|))
  {
    var s := Frame(e) + rest;
    var size := |Frame(e)|;
    assert s[0] == size < 128;
    assert s[1..size] == Bytes(e);
    BytesFront(e);
    Var64RoundTrip(e[0].v, Bytes(e[1..]));
    ReadFieldsBack(e);
  }

  /** And what the event tells is read from the bytes. */
  lemma ReadTells(e: Event, n: nat, id: nat, entries: seq<Entry>, rest: seq<byte>)
    requires WellFormed(e, n) && Tells(e, n, id, entries)
    ensures var r := ReadEvent(Frame(e) + rest, n);
            r.Some? && Tells(r.value.0, n, id, entries) && (Frame(e) + rest)[r.value.1..] == rest
  {
    ReadEventBack(e, n, rest);
    hide ReadEvent, Tells, WellFormed, Frame;
  }

  lemma StreamPush(es: seq<Event>, e: Event, n: nat)
    requires AllWellFormed(es, n) && WellFormed(e, n)
    ensures AllWellFormed(es + [e], n) && Stream(es + [e], n) == Stream(es, n) + EventBytes(e, n)
  {
    hide WellFormed, Schema, EventBytes;
    assert (es + [e])[..|es|] == es;
  }

  lemma {:induction false} StreamConcat(es: seq<Event>, fs: seq<Event>, n: nat)
    requires AllWellFormed(es, n) && AllWellFormed(fs, n)
    ensures AllWellFormed(es + fs, n) && Stream(es + fs, n) == Stream(es, n) + Stream(fs, n)
  {
    hide WellFormed, Schema, EventBytes;
    if fs == [] {
      assert es + fs == es;
    } else {
      var front, last := fs[..|fs| - 1], fs[|fs| - 1];
      StreamConcat(es, front, n);
      StreamPush(es + front, last, n);
      assert es + fs == es + front + [last];
    }
  }

  lemma StreamCons(e: Event, es: seq<Event>, n: nat)
    requires WellFormed(e, n) && AllWellFormed(es, n)
    ensures AllWellFormed([e] + es, n) && Stream([e] + es, n) == EventBytes(e, n) + Stream(es, n)
  {
    hide WellFormed, Schema, EventBytes;
    StreamPush([], e, n);
    assert Stream([], n) == [] && [] + [e] == [e];
    hide Stream;
    StreamConcat([e], es, n);
  }

  lemma StreamFront(es: seq<Event>, n: nat)
    requires AllWellFormed(es, n) && es != []
    ensures Stream(es, n) == EventBytes(es[0], n) + Stream(es[1..], n)
  {
    hide WellFormed, Schema, EventBytes, Stream;
    var e, rest := es[0], es[1..];
    StreamCons(e, rest, n);
    assert es == [e] + rest;
  }

  /** Reading a stream gives back its events: boundaries, types and field values. */
  lemma {:induction false} ReadStreamBack(es: seq<Event>, n: nat)
    requires AllWellFormed(es, n)
    ensures ReadStream(Stream(es, n), n) == Some(es)
  {
    if es != [] {
      StreamFront(es, n);
      var rest := Stream(es[1..], n);
      ReadEventBack(es[0], n, rest);
      assert (Frame(es[0]) + rest)[|Frame(es[0])|..] == rest;
      ReadStreamBack(es[1..], n);
      assert [es[0]] + es[1..] == es;
    }
  }
}
