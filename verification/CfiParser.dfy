/** The parser of dwarf.cpp: it reads call frame instructions from memory and fills the unwind
    table. */
module CfiParser {
  import opened Words
  import opened Leb128
  import opened UnwindTable
  import opened Cfi
  import opened ExpressionStack

  function Desc(r: Row): FrameDesc {
    FrameDesc(r.loc, Rule(PackCfa(r.frame.cfaReg, r.frame.cfaOff), r.frame.fpOff, r.frame.pcOff))
  }

  function Descs(rows: seq<Row>): (ds: seq<FrameDesc>)
    ensures |ds| == |rows|
    ensures forall i :: 0 <= i < |rows| ==> ds[i] == Desc(rows[i])
  {
    seq(|rows|, i requires 0 <= i < |rows| => Desc(rows[i]))
  }

  /** The rule that holds between functions. */
  function DefaultFrameOf(t: Target): Frame {
    var size: int := t.linkedFrame;
    var slot: int := t.slot;
    Frame(t.regFp, t.linkedFrame, Int32(-size), Int32(slot - size))
  }

  class DwarfParser {
    const target: Target
    const imageBase: int
    const reader: Reader
    const frames: FrameTable
    var align: Align

    /** Positions are counted from the first byte of `mem`; `imageBase` may lie before it. */
    constructor (target: Target, mem: seq<byte>, imageBase: int, align: Align)
      ensures frames.Valid() && frames.rows == [] && fresh(frames) && fresh(frames.table) && fresh(reader)
      ensures this.target == target && reader.mem == mem && this.imageBase == imageBase && this.align == align
    {
      this.target, this.imageBase := target, imageBase;
      reader := new Reader(mem);
      frames := new FrameTable(128);
      this.align := align;
    }

    /** parseExpression */
    method ParseExpression() returns (off: int32)
      modifies reader
      ensures var q := LebEnd(reader.mem, old(reader.ptr));
              var v := Expression(target, reader.mem, q, q + U(reader.mem, old(reader.ptr)), 0, 0);
              off == v.off && reader.ptr == v.next
      ensures var q := LebEnd(reader.mem, old(reader.ptr));
              var terms := Terms(target, reader.mem, q, q + U(reader.mem, old(reader.ptr)));
              if terms.None? then off == 0
              else terms.value != [] && terms.value[0].Base? && Pairs(terms.value[1..]) ==>
                     Evaluate(terms.value, []) == Some([Value(1, off)])
    {
      hide Terms, Evaluate, Pairs, Uleb, LebEnd, Int32, Word16, Word32, SignedByte, SignedWord;
      off := 0;
      var tos: int32 := 0;
      var len := reader.GetLeb();
      var end := reader.ptr + len;
      ghost var v := Expression(target, reader.mem, reader.ptr, end, 0, 0);
      ValueOfExpression(target, reader.mem, reader.ptr, end);
      while reader.ptr < end
        invariant Expression(target, reader.mem, reader.ptr, end, off, tos) == v
        decreases end - reader.ptr
      {
        var op := reader.Get8();
        if op == 0x70 + target.regPc {
          off := reader.GetSLeb();
        } else if 0x08 <= op <= 0x0d || op == 0x10 || op == 0x11 {
          tos := ReadConstant(op, end, off, tos);
        } else if op == 0x1c {
          off := Int32(off - tos);
        } else if op == 0x22 {
          off := Int32(off + tos);
        } else {
          reader.ptr := end;
          return 0;
        }
      }
    }

    /** Reading the operand of an operation that pushes a constant. */
    method ReadConstant(op: byte, ghost end: nat, ghost off: int32, ghost before: int32) returns (tos: int32)
      requires 0 < reader.ptr <= end && op == At(reader.mem, reader.ptr - 1) && op != 0x70 + target.regPc
      requires 0x08 <= op <= 0x0d || op == 0x10 || op == 0x11
      modifies reader
      ensures Expression(target, reader.mem, old(reader.ptr) - 1, end, off, before)
           == Expression(target, reader.mem, reader.ptr, end, off, tos)
      ensures reader.ptr >= old(reader.ptr)
    {
      hide Uleb, LebEnd, Int32, Word16, Word32;
      if op == 0x08 {
        tos := reader.Get8();
      } else if op == 0x09 {
        var b := reader.Get8();
        tos := SignedByte(b);
      } else if op == 0x0a {
        tos := reader.Get16();
      } else if op == 0x0b {
        var w := reader.Get16();
        tos := SignedWord(w);
      } else if op == 0x0c || op == 0x0d {
        var w := reader.Get32();
        tos := Int32(w);
      } else if op == 0x10 {
        var u := reader.GetLeb();
        tos := Int32(u);
      } else {
        tos := reader.GetSLeb();
      }
    }

    /** Reading one instruction with its operands. */
    method Fetch() returns (op: Op)
      modifies reader
      ensures Decode(target, align, reader.mem, old(reader.ptr)) == Decoded(op, reader.ptr)
    {
      var b := reader.Get8();
      if b >= 64 {
        op := FetchShort(b);
      } else if b == 0x16 {
        op := FetchPcExpression();
      } else {
        op := FetchLong(b);
      }
    }

    method FetchShort(b: byte) returns (op: Op)
      modifies reader
      ensures DecodeShort(align, reader.mem, b, old(reader.ptr)) == Decoded(op, reader.ptr)
    {
      if b / 64 == 1 {
        op := Advance(U32Of(b % 64 * align.code));
      } else if b / 64 == 2 {
        var n := reader.GetLeb();
        op := SetOffset(b % 64, Int32(n * align.data));
      } else {
        op := SameValue(b % 64);
      }
    }

    method FetchPcExpression() returns (op: Op)
      modifies reader
      ensures DecodeLong(target, align, reader.mem, 0x16, old(reader.ptr)) == Decoded(op, reader.ptr)
    {
      var reg := reader.GetLeb();
      if reg == target.regPc {
        var off := ParseExpression();
        op := PcExpression(off);
      } else {
        var len := reader.GetLeb();
        reader.ptr := reader.ptr + len;
        op := Ignored;
      }
    }

    method FetchLong(b: byte) returns (op: Op)
      requires b < 64 && b != 0x16
      modifies reader
      ensures DecodeLong(target, align, reader.mem, b, old(reader.ptr)) == Decoded(op, reader.ptr)
    {
      hide Uleb, Sleb, LebEnd, Expression, U32Of, Int32, Word16, Word32;
      match b {
        case 0x00 => op := Stop;
        case 0x01 => op := Stop;
        case 0x02 =>
          var d := reader.Get8();
          op := Advance(U32Of(d * align.code));
        case 0x03 =>
          var d := reader.Get16();
          op := Advance(U32Of(d * align.code));
        case 0x04 =>
          var d := reader.Get32();
          op := Advance(U32Of(d * align.code));
        case 0x05 =>
          var reg := reader.GetLeb();
          var n := reader.GetLeb();
          op := SetOffset(reg, Int32(n * align.data));
        case 0x06 => op := FetchSameValue();
        case 0x07 => op := FetchSameValue();
        case 0x08 => op := FetchSameValue();
        case 0x09 =>
          reader.SkipLeb();
          reader.SkipLeb();
          op := Ignored;
        case 0x0a => op := Remember;
        case 0x0b => op := Restore;
        case 0x0c =>
          var reg := reader.GetLeb();
          var off := reader.GetLeb();
          op := DefCfa(reg, Int32(off));
        case 0x0d =>
          var reg := reader.GetLeb();
          op := DefCfaRegister(reg);
        case 0x0e =>
          var off := reader.GetLeb();
          op := DefCfaOffset(Int32(off));
        case 0x0f =>
          var len := reader.GetLeb();
          reader.ptr := reader.ptr + len;
          op := DefCfaExpression(len);
        case 0x10 =>
          reader.SkipLeb();
          var len := reader.GetLeb();
          reader.ptr := reader.ptr + len;
          op := Ignored;
        case 0x11 =>
          var reg := reader.GetLeb();
          var n := reader.GetSLeb();
          op := SetOffset(reg, Int32(n * align.data));
        case 0x12 =>
          var reg := reader.GetLeb();
          var n := reader.GetSLeb();
          op := DefCfa(reg, Int32(n * align.data));
        case 0x13 =>
          var n := reader.GetSLeb();
          op := DefCfaOffset(Int32(n * align.data));
        case 0x14 =>
          reader.SkipLeb();
          reader.SkipLeb();
          op := Ignored;
        case 0x15 =>
          reader.SkipLeb();
          reader.SkipLeb();
          op := Ignored;
        case 0x2d => op := if target.aarch64 then Ignored else Unknown;
        case 0x2e =>
          reader.SkipLeb();
          op := Ignored;
        case _ => op := Unknown;
      }
    }

    method FetchSameValue() returns (op: Op)
      modifies reader
      ensures op == SameValue(U(reader.mem, old(reader.ptr))) && reader.ptr == LebEnd(reader.mem, old(reader.ptr))
    {
      var reg := reader.GetLeb();
      op := SameValue(reg);
    }

    /** parseInstructions: adds exactly the rows of the program between the current position and
        `end`, as computed with one saved slot. */
    method ParseInstructions(start: u32, end: nat)
      requires frames.Valid()
      modifies reader, frames, frames.table
      ensures frames.Valid() && (frames.table == old(frames.table) || fresh(frames.table))
      ensures var ops := Program(target, align, reader.mem, old(reader.ptr), end);
              var f := InitialFrame(target);
              frames.rows == old(frames.rows) + Descs(RowsSlot(target, ops, start, f, f))
    {
      hide Decode, Effect, PackCfa, InitialFrame, Program, RowsSlot, Descs, FrameTable.Valid, U32Of;
      var loc: u32, f := start, InitialFrame(target);
      var saved := f;
      ghost var ops := Program(target, align, reader.mem, reader.ptr, end);
      ghost var all := RowsSlot(target, ops, loc, f, saved);
      ghost var done: seq<Row> := [];
      NoDescs();
      while reader.ptr < end
        invariant frames.Valid() && (frames.table == old(frames.table) || fresh(frames.table))
        invariant ops == Program(target, align, reader.mem, reader.ptr, end)
        invariant all == done + RowsSlot(target, ops, loc, f, saved)
        invariant frames.rows == old(frames.rows) + Descs(done)
        decreases end - reader.ptr
      {
        ProgramStep(target, align, reader.mem, reader.ptr, end);
        RowsStep(target, ops, loc, f, saved);
        var op := Fetch();
        if op.Stop? {
          reader.ptr := end;
          ops := [];
          ProgramEnd(target, align, reader.mem, end);
          RowsEnd(target, loc, f, saved);
        } else if op.Unknown? {
          assert all == done;
          return;
        } else {
          ops := ops[1..];
          if op.Advance? {
            frames.AddRecord(loc, f.cfaReg, f.cfaOff, f.fpOff, f.pcOff);
            PushDesc(done, Row(loc, f));
            done := done + [Row(loc, f)];
            loc := U32Of(loc + op.delta);
          } else if op.Remember? {
            saved := f;
          } else if op.Restore? {
            f := saved;
          } else {
            f := Effect(target, f, op);
          }
        }
      }
      ProgramOver(target, align, reader.mem, reader.ptr, end);
      RowsEnd(target, loc, f, saved);
      frames.AddRecord(loc, f.cfaReg, f.cfaOff, f.fpOff, f.pcOff);
      PushDesc(done, Row(loc, f));
    }

    /** parseCie: takes the alignment factors of the common information entry. */
    method ParseCie()
      modifies reader, this
      ensures align == CieAlign(reader.mem, old(reader.ptr), old(align))
    {
      var len := reader.Get32();
      if len == 0 || len == 0xffff_ffff {
        return;
      }
      var start := reader.ptr;
      reader.ptr := reader.ptr + 5;
      ghost var text := reader.ptr;
      var b := reader.Get8();
      while b != 0
        invariant (if b == 0 then reader.ptr else StringEnd(reader.mem, reader.ptr)) == StringEnd(reader.mem, text)
        invariant reader.ptr > 0 && b == At(reader.mem, reader.ptr - 1)
        decreases |reader.mem| + 1 - reader.ptr
      {
        b := reader.Get8();
      }
      var code := reader.GetLeb();
      var data := reader.GetSLeb();
      align := Align(code, data);
      reader.ptr := start + len;
    }

    /** parseFde: adds the rows of one function, then the default rule at its end. The alignment
        is taken from the first entry only. */
    method ParseFde()
      requires frames.Valid()
      modifies reader, this, frames, frames.table
      ensures frames.Valid() && (frames.table == old(frames.table) || fresh(frames.table))
      ensures var p := old(reader.ptr);
              if NoEntry(reader.mem, p) then frames.rows == old(frames.rows) && align == old(align)
              else
                && align == (if old(frames.rows) == [] then CieAlign(reader.mem, CiePosition(reader.mem, p), old(align))
                             else old(align))
                && frames.rows == old(frames.rows)
                                  + FdeRows(EntryAt(target, align, reader.mem, imageBase, p), DefaultRule(target))
    {
      hide FrameTable.Valid, Program, RowsSlot, Descs, Uleb, LebEnd, Word32, CieAlign, U32Of, Int32;
      ghost var p := reader.ptr;
      var len := reader.Get32();
      if len == 0 || len == 0xffff_ffff {
        return;
      }
      var start := reader.ptr;
      var cieOffset := reader.Get32();
      CountIsZero(frames);
      if frames.count == 0 {
        reader.ptr := if cieOffset <= start then start - cieOffset else |reader.mem|;
        ParseCie();
        reader.ptr := start + 4;
      }
      var here := reader.ptr;
      var pcRel := reader.Get32();
      var rangeStart: u32 := U32Of(here + Int32(pcRel) - imageBase);
      var rangeLen := reader.Get32();
      var skip := reader.GetLeb();
      reader.ptr := reader.ptr + skip;
      ParseInstructions(rangeStart, start + len);
      var d := DefaultFrameOf(target);
      frames.AddRecord(U32Of(rangeStart + rangeLen), d.cfaReg, d.cfaOff, d.fpOff, d.pcOff);
    }

    /** parse: every entry of the sorted table, if the header is of the supported kind. */
    method Parse(hdr: nat)
      requires frames.Valid() && frames.rows == []
      modifies reader, this, frames, frames.table
      ensures frames.Valid() && (frames.table == old(frames.table) || fresh(frames.table))
      ensures !SupportedHeader(reader.mem, hdr) ==> frames.rows == []
      ensures SupportedHeader(reader.mem, hdr) ==>
                frames.rows == AllRows(Entries(target, old(align), reader.mem, imageBase, hdr,
                                               EntryCount(reader.mem, hdr)).fdes, DefaultRule(target))
    {
      hide FrameTable.Valid, Word32, Int32, SupportedHeader, NoEntry, EntryPosition, CiePosition, CieAlign, EntryAt;
      hide Entries, AllRows, FdeRows, DefaultRule;
      if !SupportedHeader(reader.mem, hdr) {
        return;
      }
      var n := Int32(Word32(reader.mem, hdr + 8));
      var i := 0;
      NoEntries(target, align, reader.mem, imageBase, hdr);
      while i < n
        invariant 0 <= i && (i <= n || i == 0)
        invariant frames.Valid() && (frames.table == old(frames.table) || fresh(frames.table))
        invariant ParsedUpTo(old(align), hdr, i)
      {
        EntriesNext(target, old(align), reader.mem, imageBase, hdr, i);
        reader.ptr := EntryPosition(reader.mem, hdr, i);
        ParseFde();
        i := i + 1;
      }
    }

    /** The table holds the rows of the first `i` entries. */
    ghost predicate ParsedUpTo(first: Align, hdr: nat, i: nat)
      reads this, frames
    {
      var e := Entries(target, first, reader.mem, imageBase, hdr, i);
      frames.rows == AllRows(e.fdes, DefaultRule(target)) && align == e.align
    }
  }

  // ---------------------------------------------------------------------------------------
  // Entries
  // ---------------------------------------------------------------------------------------

  function DefaultRule(t: Target): Rule {
    Desc(Row(0, DefaultFrameOf(t))).rule
  }

  /** The position after the string at `p`. */
  function StringEnd(mem: seq<byte>, p: nat): nat
    decreases |mem| - p
  {
    if At(mem, p) == 0 then p + 1 else StringEnd(mem, p + 1)
  }

  predicate NoEntry(mem: seq<byte>, p: nat) {
    Word32(mem, p) == 0 || Word32(mem, p) == 0xffff_ffff
  }

  /** The alignment factors in the entry at `p`, after its length, id, version and augmentation. */
  function CieAlign(mem: seq<byte>, p: nat, gap: Align): Align {
    if NoEntry(mem, p) then gap
    else
      var q := StringEnd(mem, p + 9);
      Align(U(mem, q), S(mem, LebEnd(mem, q)))
  }

  /** Where the common entry of a frame entry is; before the first byte there are only zeros. */
  function CiePosition(mem: seq<byte>, p: nat): nat {
    if Word32(mem, p + 4) <= p + 4 then p + 4 - Word32(mem, p + 4) else |mem|
  }

  /** The frame entry at `p`: its range of code and the rows of its program. */
  function EntryAt(t: Target, a: Align, mem: seq<byte>, imageBase: int, p: nat): Fde {
    var start: u32 := U32Of(p + 8 + Int32(Word32(mem, p + 8)) - imageBase);
    var code := LebEnd(mem, p + 16) + U(mem, p + 16);
    var f := InitialFrame(t);
    Fde(start, U32Of(start + Word32(mem, p + 12)),
        Descs(RowsSlot(t, Program(t, a, mem, code, p + 4 + Word32(mem, p)), start, f, f)))
  }

  function FdeRows(f: Fde, gap: Rule): seq<FrameDesc> {
    f.rows + [FrameDesc(f.end, gap)]
  }

  /** Version 1, pointers and counts of four bytes, and a table of four-byte offsets from the
      header. */
  predicate SupportedHeader(mem: seq<byte>, hdr: nat) {
    && At(mem, hdr) == 1
    && At(mem, hdr + 1) % 8 == 3
    && At(mem, hdr + 2) % 8 == 3
    && (At(mem, hdr + 3) == 0x33 || At(mem, hdr + 3) == 0x3b)
  }

  function EntryCount(mem: seq<byte>, hdr: nat): nat {
    var n := Int32(Word32(mem, hdr + 8));
    if n < 0 then 0 else n
  }

  /** The position that row `i` of the sorted table leads to. */
  function EntryPosition(mem: seq<byte>, hdr: nat, i: nat): nat {
    var off := Int32(Word32(mem, hdr + 16 + 8 * i));
    if hdr + off >= 0 then hdr + off else |mem|
  }

  datatype Parsed = Parsed(fdes: seq<Fde>, align: Align)

  /** The first `n` entries of the table. */
  function Entries(t: Target, a: Align, mem: seq<byte>, imageBase: int, hdr: nat, n: nat): Parsed {
    if n == 0 then Parsed([], a)
    else
      var e, p := Entries(t, a, mem, imageBase, hdr, n - 1), EntryPosition(mem, hdr, n - 1);
      if NoEntry(mem, p) then e
      else
        var align := if e.fdes == [] then CieAlign(mem, CiePosition(mem, p), e.align) else e.align;
        Parsed(e.fdes + [EntryAt(t, align, mem, imageBase, p)], align)
  }

  // ---------------------------------------------------------------------------------------
  // Whose alignment factors
  // ---------------------------------------------------------------------------------------

  predicate IsEntry(mem: seq<byte>, hdr: nat, k: nat) {
    !NoEntry(mem, EntryPosition(mem, hdr, k))
  }

  /** The factors of the common entry that entry `k` belongs to. */
  function OwnAlign(mem: seq<byte>, hdr: nat, a: Align, k: nat): Align {
    CieAlign(mem, CiePosition(mem, EntryPosition(mem, hdr, k)), a)
  }

  /** The factors that entry `k` is parsed with. */
  function UsedAlign(t: Target, a: Align, mem: seq<byte>, imageBase: int, hdr: nat, k: nat): Align {
    var e := Entries(t, a, mem, imageBase, hdr, k);
    if e.fdes == [] then OwnAlign(mem, hdr, a, k) else e.align
  }

  lemma {:induction false} EntriesUse(t: Target, a: Align, mem: seq<byte>, imageBase: int, hdr: nat, n: nat)
    ensures var e := Entries(t, a, mem, imageBase, hdr, n);
            && (e.fdes == [] <==> forall k: nat :: k < n ==> !IsEntry(mem, hdr, k))
            && (e.fdes == [] ==> e.align == a)
            && (e.fdes != [] ==> exists j: nat :: FirstEntry(mem, hdr, j) && j < n && e.align == OwnAlign(mem, hdr, a,
                j))
    ensures IsEntry(mem, hdr, n) ==>
              Entries(t, a, mem, imageBase, hdr, n + 1).fdes
              == Entries(t, a, mem, imageBase, hdr, n).fdes
                 + [EntryAt(t, UsedAlign(t, a, mem, imageBase, hdr, n), mem, imageBase, EntryPosition(mem, hdr, n))]
  {
    hide EntryAt, CieAlign, CiePosition, EntryPosition, NoEntry;
    if n > 0 {
      EntriesUse(t, a, mem, imageBase, hdr, n - 1);
      if IsEntry(mem, hdr, n - 1) && Entries(t, a, mem, imageBase, hdr, n - 1).fdes == [] {
        assert FirstEntry(mem, hdr, n - 1);
      }
    }
  }

  /** The first entry that is one. */
  ghost predicate FirstEntry(mem: seq<byte>, hdr: nat, j: nat) {
    IsEntry(mem, hdr, j) && forall k: nat :: k < j ==> !IsEntry(mem, hdr, k)
  }

  /** Every entry is parsed with the factors of its own common entry if and only if the common entries
      of all of them have the same factors. */
  lemma AlignmentExact(t: Target, a: Align, mem: seq<byte>, imageBase: int, hdr: nat, n: nat)
    ensures (forall k: nat :: k < n && IsEntry(mem, hdr, k) ==>
               UsedAlign(t, a, mem, imageBase, hdr, k) == OwnAlign(mem, hdr, a, k))
            <==> forall k: nat, l: nat :: k < n && l < n && IsEntry(mem, hdr, k) && IsEntry(mem, hdr, l) ==>
                   OwnAlign(mem, hdr, a, k) == OwnAlign(mem, hdr, a, l)
  {
    hide OwnAlign, IsEntry, Entries;
    forall k: nat | k < n && IsEntry(mem, hdr, k)
      ensures exists j: nat :: FirstEntry(mem, hdr, j) && j <= k
                               && UsedAlign(t, a, mem, imageBase, hdr, k) == OwnAlign(mem, hdr, a, j)
    {
      EntriesUse(t, a, mem, imageBase, hdr, k);
      if Entries(t, a, mem, imageBase, hdr, k).fdes == [] {
        assert FirstEntry(mem, hdr, k);
      }
    }
    hide UsedAlign;
  }

  /** A header for two entries at 40 and 60, whose common entries at 28 and 48 have the factors 1 and -8
      and the factors 4 and -4. */
  const TWO_COMMON: seq<byte> :=
    [1, 0x1b, 3, 0x3b] + [0, 0, 0, 0] + [2, 0, 0, 0]
    + [0, 0, 0, 0] + [40, 0, 0, 0] + [0, 0, 0, 0] + [60, 0, 0, 0]
    + [8, 0, 0, 0] + [0, 0, 0, 0] + [1, 0, 1, 0x78]
    + [4, 0, 0, 0] + [16, 0, 0, 0]
    + [8, 0, 0, 0] + [0, 0, 0, 0] + [1, 0, 4, 0x7c]
    + [4, 0, 0, 0] + [16, 0, 0, 0]

  /** The second entry is parsed with the factors of the first one's common entry. */
  lemma SecondCommonEntryIgnored(t: Target, a: Align, imageBase: int)
    ensures var mem := TWO_COMMON;
            && SupportedHeader(mem, 0) && EntryCount(mem, 0) == 2 && IsEntry(mem, 0, 0) && IsEntry(mem, 0, 1)
            && OwnAlign(mem, 0, a, 0) == Align(1, -8) && OwnAlign(mem, 0, a, 1) == Align(4, -4)
            && UsedAlign(t, a, mem, imageBase, 0, 1) == Align(1, -8)
  {
    var mem := TWO_COMMON;
    WordsThere(mem);
    FactorsThere(mem);
    hide Word32, StringEnd, U, S, LebEnd;
    assert EntryPosition(mem, 0, 0) == 40 && EntryPosition(mem, 0, 1) == 60;
    assert CiePosition(mem, 40) == 28 && CiePosition(mem, 60) == 48;
    assert IsEntry(mem, 0, 0) && OwnAlign(mem, 0, a, 0) == Align(1, -8);
    EntriesUse(t, a, mem, imageBase, 0, 1);
    hide EntryAt, Entries;
    assert Entries(t, a, mem, imageBase, 0, 1).fdes != [];
  }

  lemma WordsThere(mem: seq<byte>)
    requires mem == TWO_COMMON
    ensures SupportedHeader(mem, 0) && Word32(mem, 8) == 2 && Word32(mem, 16) == 40 && Word32(mem, 24) == 60
    ensures Word32(mem, 28) == 8 && Word32(mem, 48) == 8
    ensures Word32(mem, 40) == 4 && Word32(mem, 60) == 4 && Word32(mem, 44) == 16 && Word32(mem, 64) == 16
  {
  }

  lemma FactorsThere(mem: seq<byte>)
    requires mem == TWO_COMMON
    ensures StringEnd(mem, 37) == 38 && U(mem, 38) == 1 && LebEnd(mem, 38) == 39 && S(mem, 39) == -8
    ensures StringEnd(mem, 57) == 58 && U(mem, 58) == 4 && LebEnd(mem, 58) == 59 && S(mem, 59) == -4
  {
  }

  lemma CountIsZero(frames: FrameTable)
    requires frames.Valid()
    ensures frames.count == 0 <==> frames.rows == []
  {
    assert |frames.table[..frames.count]| == frames.count;
  }

  lemma NoEntries(t: Target, a: Align, mem: seq<byte>, imageBase: int, hdr: nat)
    ensures Entries(t, a, mem, imageBase, hdr, 0) == Parsed([], a) && AllRows([], DefaultRule(t)) == []
  {
  }

  /** The rows of one more entry. */
  lemma EntriesNext(t: Target, a: Align, mem: seq<byte>, imageBase: int, hdr: nat, i: nat)
    ensures var e, e', p := Entries(t, a, mem, imageBase, hdr, i), Entries(t, a, mem, imageBase, hdr, i + 1),
                            EntryPosition(mem, hdr, i);
            && (AllRows(e.fdes, DefaultRule(t)) == [] <==> e.fdes == [])
            && if NoEntry(mem, p) then e' == e
               else
                 && e'.align == (if e.fdes == [] then CieAlign(mem, CiePosition(mem, p), e.align) else e.align)
                 && AllRows(e'.fdes, DefaultRule(t))
                    == AllRows(e.fdes, DefaultRule(t)) + FdeRows(EntryAt(t, e'.align, mem, imageBase, p),
                        DefaultRule(t))
  {
    hide EntryAt, CieAlign, CiePosition, EntryPosition, NoEntry, DefaultRule, FdeRows;
    var e, e', p := Entries(t, a, mem, imageBase, hdr, i), Entries(t, a, mem, imageBase, hdr, i + 1),
                    EntryPosition(mem, hdr, i);
    AllRowsNonEmpty(e.fdes, DefaultRule(t));
    AllRowsPush(e.fdes, EntryAt(t, e'.align, mem, imageBase, p), DefaultRule(t));
    hide AllRows;
  }

  lemma AllRowsPush(fdes: seq<Fde>, f: Fde, gap: Rule)
    ensures AllRows(fdes + [f], gap) == AllRows(fdes, gap) + FdeRows(f, gap)
  {
    assert (fdes + [f])[..|fdes|] == fdes;
  }

  lemma AllRowsNonEmpty(fdes: seq<Fde>, gap: Rule)
    ensures AllRows(fdes, gap) == [] <==> fdes == []
  {
  }

  /** From bytes to lookups: when the entries of a parsed header are sorted and their programs
      stay inside their ranges, the table holds for every address the rule of the function that
      contains it, and the default rule between functions. */
  lemma ParsedTableByFunction(parser: DwarfParser, fdes: seq<Fde>, pc: u32)
    requires parser.frames.Valid() && parser.frames.rows == AllRows(fdes, DefaultRule(parser.target))
    requires FdesOk(fdes)
    ensures var table := parser.frames.table[..parser.frames.count];
            && Increasing(table)
            && RuleAt(table, pc) == RuleByFde(fdes, DefaultRule(parser.target), pc)
  {
    TableByFunction(fdes, DefaultRule(parser.target), pc);
  }

  /** What the parser makes of an expression that is a base with constants and operators in pairs. */
  lemma ValueOfExpression(t: Target, mem: seq<byte>, p: nat, end: nat)
    ensures var off, terms := Expression(t, mem, p, end, 0, 0).off, Terms(t, mem, p, end);
            if terms.None? then off == 0
            else terms.value != [] && terms.value[0].Base? && Pairs(terms.value[1..]) ==>
                   Evaluate(terms.value, []) == Some([Value(1, off)])
  {
    ExpressionAccumulates(t, mem, p, end, 0, 0);
    var terms := Terms(t, mem, p, end);
    if terms.Some? && terms.value != [] && terms.value[0].Base? && Pairs(terms.value[1..]) {
      var base, rest := terms.value[0].off, terms.value[1..];
      PairsAgree(rest, base, 0);
      BaseFirst(base, rest);
      assert [Base(base)] + rest == terms.value;
    }
  }

  lemma NoDescs()
    ensures Descs([]) == []
  {
  }

  lemma PushDesc(rows: seq<Row>, r: Row)
    ensures Descs(rows + [r]) == Descs(rows) + [Desc(r)]
  {
  }
}
