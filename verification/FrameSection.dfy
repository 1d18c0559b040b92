/** The compiler's side of the unwind section: common entries, frame entries and the sorted header table
    as section 10.6 of the Linux Standard Base Core Specification lays them out. What is encoded here is
    what the parser finds: functions with their ranges, programs and factors. */
module FrameSection {
  import opened Words
  import opened Leb128
  import opened Varint
  import opened UnwindTable
  import opened Cfi
  import opened CfiEncoding
  import opened CfiParser
  import CfiStandard

  /** A common entry at a position. What follows the factors (the return address register, augmentation
      data, initial instructions, padding) the parser does not look at. */
  datatype Common = Common(at: nat, version: byte, augmentation: seq<byte>, code: u32, data: int32, rest: seq<byte>)

  /** A frame entry at a position, for the code from `start` on, `size` bytes long. */
  datatype Function = Function(at: nat, start: u32, size: u32, augmentation: seq<byte>, code: seq<Insn>, common: Common)

  /** The header, whose second to fourth byte say how its pointers are encoded. */
  datatype Header = Header(at: nat, pointers: byte, counts: byte, table: byte, section: u32)

  // ---------------------------------------------------------------------------------------
  // Encoding
  // ---------------------------------------------------------------------------------------

  /** After the length. */
  function CommonBody(c: Common): (s: seq<byte>)
    ensures |s| >= 6
  {
    Little32(0) + ([c.version] + (c.augmentation + ([0] + (Var32(c.code) + (SlebBytes(c.data) + c.rest)))))
  }

  predicate SaneCommon(c: Common) {
    (forall i :: 0 <= i < |c.augmentation| ==> c.augmentation[i] != 0) && |CommonBody(c)| < 0xffff_ffff
  }

  function CommonBytes(c: Common): seq<byte>
    requires SaneCommon(c)
  {
    Little32(|CommonBody(c)|) + CommonBody(c)
  }

  /** After the length: the distance back to the common entry, the start relative to its own place, the
      size, the augmentation data and the instructions. */
  function FunctionBody(t: Target, imageBase: int, f: Function): (s: seq<byte>)
    requires AllSane(t, f.code) && |f.augmentation| < U32 && f.common.at <= f.at + 4 < f.common.at + U32
    ensures |s| >= 12
  {
    Little32(f.at + 4 - f.common.at)
    + (Little32(U32Of(imageBase + f.start - (f.at + 8)))
       + (Little32(f.size) + (Var32(|f.augmentation|) + (f.augmentation + Code(t, f.code)))))
  }

  predicate SaneFunction(t: Target, imageBase: int, f: Function) {
    && AllSane(t, f.code) && |f.augmentation| < U32 && f.common.at <= f.at + 4 < f.common.at + U32
    && |FunctionBody(t, imageBase, f)| < 0xffff_ffff
  }

  function FunctionBytes(t: Target, imageBase: int, f: Function): seq<byte>
    requires SaneFunction(t, imageBase, f)
  {
    Little32(|FunctionBody(t, imageBase, f)|) + FunctionBody(t, imageBase, f)
  }

  /** A row of the header's table: where the code begins and where the frame entry is, both relative to the
      header. */
  function TableRow(imageBase: int, hdr: nat, f: Function): (s: seq<byte>)
    ensures |s| == 8
  {
    Little32(U32Of(imageBase + f.start - hdr)) + Little32(U32Of(f.at - hdr))
  }

  function TableRows(imageBase: int, hdr: nat, fs: seq<Function>): (s: seq<byte>)
    ensures |s| == 8 * |fs|
  {
    if fs == [] then [] else TableRow(imageBase, hdr, fs[0]) + TableRows(imageBase, hdr, fs[1..])
  }

  function HeaderBytes(imageBase: int, h: Header, fs: seq<Function>): seq<byte>
    requires |fs| < U32
  {
    [1] + ([h.pointers] + ([h.counts] + ([h.table]
    + (Little32(h.section) + (Little32(|fs|) + TableRows(imageBase, h.at, fs))))))
  }

  /** Four-byte pointers and counts, signed or not, of any base; a table of four-byte offsets from the
      header, signed or not. */
  predicate SaneHeader(h: Header) {
    h.pointers % 8 == 3 && h.counts % 8 == 3 && (h.table == 0x33 || h.table == 0x3b)
  }

  // ---------------------------------------------------------------------------------------
  // Reading words
  // ---------------------------------------------------------------------------------------

  lemma ReadLittle(mem: seq<byte>, p: nat, v: nat)
    requires v < U32 && StandsAt(mem, p, Little32(v))
    ensures Word32(mem, p) == v
  {
    var s := Little32(v);
    assert mem[p] == s[0] && mem[p + 1] == s[1] && mem[p + 2] == s[2] && mem[p + 3] == s[3];
  }

  lemma ReadWord(mem: seq<byte>, p: nat, v: nat, rest: seq<byte>)
    requires v < U32 && StandsAt(mem, p, Little32(v) + rest)
    ensures Word32(mem, p) == v && StandsAt(mem, p + 4, rest)
  {
    Split(mem, p, Little32(v), rest);
    ReadLittle(mem, p, v);
  }

  /** A string ends at its NUL. */
  lemma {:induction false} StringThere(mem: seq<byte>, p: nat, text: seq<byte>, rest: seq<byte>)
    requires StandsAt(mem, p, text + ([0] + rest)) && forall i :: 0 <= i < |text| ==> text[i] != 0
    ensures StringEnd(mem, p) == p + |text| + 1 && StandsAt(mem, p + |text| + 1, rest)
    decreases |text|
  {
    if text == [] {
      assert text + ([0] + rest) == [0] + rest;
      First(mem, p, 0, rest);
    } else {
      var b, more := text[0], text[1..];
      assert text + ([0] + rest) == [b] + (more + ([0] + rest));
      First(mem, p, b, more + ([0] + rest));
      StringThere(mem, p + 1, more, rest);
    }
  }

  // ---------------------------------------------------------------------------------------
  // Entries
  // ---------------------------------------------------------------------------------------

  /** The factors of a common entry are read, however long its augmentation string is. */
  lemma CommonThere(mem: seq<byte>, c: Common, gap: Align)
    requires SaneCommon(c) && StandsAt(mem, c.at, CommonBytes(c))
    ensures CieAlign(mem, c.at, gap) == Align(c.code, c.data)
  {
    hide StandsAt, Little32, Word32, U, S, Var32, SlebBytes, LebEnd, StringEnd;
    var p, tail := c.at, Var32(c.code) + (SlebBytes(c.data) + c.rest);
    ReadWord(mem, p, |CommonBody(c)|, CommonBody(c));
    ReadWord(mem, p + 4, 0, [c.version] + (c.augmentation + ([0] + tail)));
    First(mem, p + 8, c.version, c.augmentation + ([0] + tail));
    StringThere(mem, p + 9, c.augmentation, tail);
    var q := p + 9 + |c.augmentation| + 1;
    Split(mem, q, Var32(c.code), SlebBytes(c.data) + c.rest);
    ReadU(mem, q, c.code);
    Split(mem, q + |Var32(c.code)|, SlebBytes(c.data), c.rest);
    ReadS(mem, q + |Var32(c.code)|, c.data);
  }

  /** The function that a frame entry describes: from `start` to `start + size`, with the rows of its
      program under the given factors. */
  function Described(t: Target, a: Align, f: Function): Fde
    requires AllSane(t, f.code)
  {
    var frame := InitialFrame(t);
    Fde(f.start, U32Of(f.start + f.size), Descs(CfiStandard.SlotRows(t, a, f.code, f.start, frame, frame)))
  }

  lemma StartBack(position: int, start: u32, imageBase: int)
    ensures U32Of(position + Int32(U32Of(imageBase + start - position)) - imageBase) == start
  {
    var d := imageBase + start - position;
    var m := Int32(U32Of(d));
    assert (m - d) % U32 == 0;
    assert position + m - imageBase == start + (m - d);
  }

  /** A frame entry is read as the function it was written for. */
  lemma FunctionThere(t: Target, a: Align, mem: seq<byte>, imageBase: int, f: Function)
    requires SaneFunction(t, imageBase, f) && StandsAt(mem, f.at, FunctionBytes(t, imageBase, f))
    ensures !NoEntry(mem, f.at) && CiePosition(mem, f.at) == f.common.at
    ensures EntryAt(t, a, mem, imageBase, f.at) == Described(t, a, f)
  {
    hide StandsAt, Little32, Word32, U, Var32, LebEnd, Program, RowsSlot, Code, AllParsed, AllSane, Descs, Int32, U32Of;
    var p, body := f.at, FunctionBody(t, imageBase, f);
    var code := Code(t, f.code);
    var rest3 := Var32(|f.augmentation|) + (f.augmentation + code);
    ReadWord(mem, p, |body|, body);
    ReadWord(mem, p + 4, p + 4 - f.common.at,
             Little32(U32Of(imageBase + f.start - (p + 8))) + (Little32(f.size) + rest3));
    ReadWord(mem, p + 8, U32Of(imageBase + f.start - (p + 8)), Little32(f.size) + rest3);
    ReadWord(mem, p + 12, f.size, rest3);
    Split(mem, p + 16, Var32(|f.augmentation|), f.augmentation + code);
    ReadU(mem, p + 16, |f.augmentation|);
    Split(mem, p + 16 + |Var32(|f.augmentation|)|, f.augmentation, code);
    StartBack(p + 8, f.start, imageBase);
    var q := p + 16 + |Var32(|f.augmentation|)| + |f.augmentation|;
    assert q + |code| == p + 4 + |body|;
    ProgramOfCode(t, a, mem, q, f.code);
    RowsUpToEnd(t, AllParsed(t, a, f.code), f.start, InitialFrame(t), InitialFrame(t));
  }

  // ---------------------------------------------------------------------------------------
  // The header
  // ---------------------------------------------------------------------------------------

  lemma {:induction false} RowThere(mem: seq<byte>, p: nat, imageBase: int, hdr: nat, fs: seq<Function>, i: nat)
    requires StandsAt(mem, p, TableRows(imageBase, hdr, fs)) && i < |fs|
    ensures Word32(mem, p + 4 + 8 * i) == U32Of(fs[i].at - hdr)
    decreases i
  {
    hide StandsAt, Little32, Word32, U32Of;
    var row, rows := TableRow(imageBase, hdr, fs[0]), TableRows(imageBase, hdr, fs[1..]);
    Split(mem, p, row, rows);
    if i == 0 {
      ReadWord(mem, p, U32Of(imageBase + fs[0].start - hdr), Little32(U32Of(fs[0].at - hdr)));
      ReadLittle(mem, p + 4, U32Of(fs[0].at - hdr));
    } else {
      RowThere(mem, p + 8, imageBase, hdr, fs[1..], i - 1);
    }
  }

  /** Offsets between header and entry have 32 bits with a sign. */
  predicate Near(hdr: nat, f: Function) {
    -0x8000_0000 <= f.at - hdr < 0x8000_0000
  }

  lemma HeaderThere(mem: seq<byte>, imageBase: int, h: Header, fs: seq<Function>)
    requires SaneHeader(h) && |fs| < 0x8000_0000 && StandsAt(mem, h.at, HeaderBytes(imageBase, h, fs))
    ensures SupportedHeader(mem, h.at) && EntryCount(mem, h.at) == |fs|
    ensures StandsAt(mem, h.at + 12, TableRows(imageBase, h.at, fs))
  {
    hide StandsAt, Little32, Word32, At, TableRows;
    var p := h.at;
    var rows := TableRows(imageBase, p, fs);
    var tail := Little32(h.section) + (Little32(|fs|) + rows);
    First(mem, p, 1, [h.pointers] + ([h.counts] + ([h.table] + tail)));
    First(mem, p + 1, h.pointers, [h.counts] + ([h.table] + tail));
    First(mem, p + 2, h.counts, [h.table] + tail);
    First(mem, p + 3, h.table, tail);
    ReadWord(mem, p + 4, h.section, Little32(|fs|) + rows);
    ReadWord(mem, p + 8, |fs|, rows);
  }

  lemma PositionThere(mem: seq<byte>, imageBase: int, h: Header, fs: seq<Function>, i: nat)
    requires SaneHeader(h) && |fs| < 0x8000_0000 && StandsAt(mem, h.at, HeaderBytes(imageBase, h, fs))
    requires i < |fs| && Near(h.at, fs[i])
    ensures EntryPosition(mem, h.at, i) == fs[i].at
  {
    HeaderThere(mem, imageBase, h, fs);
    Int32Back(fs[i].at - h.at);
    hide StandsAt, Word32, TableRows, HeaderBytes, SupportedHeader, EntryCount, Int32, U32Of;
    RowThere(mem, h.at + 12, imageBase, h.at, fs, i);
    assert h.at + 12 + 4 + 8 * i == h.at + 16 + 8 * i;
  }

  lemma Int32Back(d: int)
    requires -0x8000_0000 <= d < 0x8000_0000
    ensures Int32(U32Of(d)) == d
  {
  }

  // ---------------------------------------------------------------------------------------
  // The whole section
  // ---------------------------------------------------------------------------------------

  /** The frame entry of a function and its common entry are in memory. */
  ghost predicate FunctionStands(t: Target, mem: seq<byte>, imageBase: int, hdr: nat, f: Function) {
    && SaneFunction(t, imageBase, f) && Near(hdr, f) && StandsAt(mem, f.at, FunctionBytes(t, imageBase, f))
    && SaneCommon(f.common) && StandsAt(mem, f.common.at, CommonBytes(f.common))
  }

  /** A header with a table of functions, and their entries, are in memory. */
  ghost predicate SectionStands(t: Target, mem: seq<byte>, imageBase: int, h: Header, fs: seq<Function>) {
    && SaneHeader(h) && |fs| < 0x8000_0000 && StandsAt(mem, h.at, HeaderBytes(imageBase, h, fs))
    && forall i :: 0 <= i < |fs| ==> FunctionStands(t, mem, imageBase, h.at, fs[i])
  }

  /** All common entries have these factors. */
  predicate OneAlign(fs: seq<Function>, a: Align) {
    forall i :: 0 <= i < |fs| ==> Align(fs[i].common.code, fs[i].common.data) == a
  }

  function AllDescribed(t: Target, a: Align, fs: seq<Function>): (fdes: seq<Fde>)
    requires forall i :: 0 <= i < |fs| ==> AllSane(t, fs[i].code)
    ensures |fdes| == |fs|
    ensures forall i :: 0 <= i < |fs| ==> fdes[i] == Described(t, a, fs[i])
  {
    seq(|fs|, i requires 0 <= i < |fs| => Described(t, a, fs[i]))
  }

  lemma StandsSane(t: Target, mem: seq<byte>, imageBase: int, h: Header, fs: seq<Function>)
    requires SectionStands(t, mem, imageBase, h, fs)
    ensures forall i :: 0 <= i < |fs| ==> AllSane(t, fs[i].code)
  {
    forall i | 0 <= i < |fs| ensures AllSane(t, fs[i].code) {
      assert FunctionStands(t, mem, imageBase, h.at, fs[i]);
    }
  }

  /** Entry `i` of the table is this one, and its common entry has these factors. */
  ghost predicate FoundAt(t: Target, first: Align, a: Align, mem: seq<byte>, imageBase: int, hdr: nat, i: nat, d: Fde) {
    var p := EntryPosition(mem, hdr, i);
    && !NoEntry(mem, p) && CieAlign(mem, CiePosition(mem, p), first) == a && EntryAt(t, a, mem, imageBase, p) == d
  }

  lemma {:induction false} EntriesAre(t: Target, first: Align, a: Align, mem: seq<byte>, imageBase: int, hdr: nat,
      all: seq<Fde>, n: nat)
    requires forall i: nat :: i < |all| ==> FoundAt(t, first, a, mem, imageBase, hdr, i, all[i])
    requires n <= |all|
    ensures Entries(t, first, mem, imageBase, hdr, n) == Parsed(all[..n], if n == 0 then first else a)
  {
    NoEntries(t, first, mem, imageBase, hdr);
    hide Entries, FoundAt;
    if n > 0 {
      EntriesAre(t, first, a, mem, imageBase, hdr, all, n - 1);
      OneMore(t, first, a, mem, imageBase, hdr, n, all[n - 1]);
      Longer(all, n);
    }
  }

  lemma Longer<T>(s: seq<T>, n: nat)
    requires 0 < n <= |s|
    ensures s[..n] == s[..n - 1] + [s[n - 1]]
  {
  }

  lemma OneMore(t: Target, first: Align, a: Align, mem: seq<byte>, imageBase: int, hdr: nat, n: nat, d: Fde)
    requires n > 0 && FoundAt(t, first, a, mem, imageBase, hdr, n - 1, d)
    requires var e := Entries(t, first, mem, imageBase, hdr, n - 1);
             e.align == if e.fdes == [] then first else a
    ensures Entries(t, first, mem, imageBase, hdr, n)
         == Parsed(Entries(t, first, mem, imageBase, hdr, n - 1).fdes + [d], a)
  {
    hide EntryAt, CieAlign, NoEntry, CiePosition, EntryPosition;
  }

  /** The parser finds exactly the functions of the section, in order, whatever factors it had before. */
  lemma EntriesThere(t: Target, first: Align, a: Align, mem: seq<byte>, imageBase: int, h: Header, fs: seq<Function>)
    requires SectionStands(t, mem, imageBase, h, fs) && OneAlign(fs, a)
    ensures forall i :: 0 <= i < |fs| ==> AllSane(t, fs[i].code)
    ensures Entries(t, first, mem, imageBase, h.at, |fs|).fdes == AllDescribed(t, a, fs)
  {
    StandsSane(t, mem, imageBase, h, fs);
    var all := AllDescribed(t, a, fs);
    forall i: nat | i < |all| ensures FoundAt(t, first, a, mem, imageBase, h.at, i, all[i]) {
      EntryThere(t, first, a, mem, imageBase, h, fs, i);
    }
    hide FoundAt, SectionStands, Described, Entries;
    EntriesAre(t, first, a, mem, imageBase, h.at, all, |all|);
    assert all[..|all|] == all;
  }

  /** One entry of it. */
  lemma EntryThere(t: Target, first: Align, a: Align, mem: seq<byte>, imageBase: int, h: Header, fs: seq<Function>,
      i: nat)
    requires SectionStands(t, mem, imageBase, h, fs) && OneAlign(fs, a) && i < |fs|
    ensures AllSane(t, fs[i].code)
    ensures FoundAt(t, first, a, mem, imageBase, h.at, i, Described(t, a, fs[i]))
  {
    var f := fs[i];
    assert FunctionStands(t, mem, imageBase, h.at, f);
    PositionThere(mem, imageBase, h, fs, i);
    hide SectionStands, StandsAt, HeaderBytes, EntryAt, CieAlign, Described, NoEntry, CiePosition, EntryPosition;
    hide FunctionBytes, CommonBytes, AllSane;
    FunctionThere(t, a, mem, imageBase, f);
    CommonThere(mem, f.common, first);
  }

  /** From the compiler's functions to the table: for a section whose common entries agree, the rows that
      `Parse` adds are those of the functions' programs, each from its start on and followed at its end by
      the default rule. */
  lemma SectionRows(t: Target, first: Align, a: Align, mem: seq<byte>, imageBase: int, h: Header, fs: seq<Function>)
    requires SectionStands(t, mem, imageBase, h, fs) && OneAlign(fs, a)
    ensures forall i :: 0 <= i < |fs| ==> AllSane(t, fs[i].code)
    ensures SupportedHeader(mem, h.at)
    ensures AllRows(Entries(t, first, mem, imageBase, h.at, EntryCount(mem, h.at)).fdes, DefaultRule(t))
         == AllRows(AllDescribed(t, a, fs), DefaultRule(t))
  {
    HeaderThere(mem, imageBase, h, fs);
    EntriesThere(t, first, a, mem, imageBase, h, fs);
    hide SectionStands, Entries, EntryCount, SupportedHeader, AllRows;
  }

  // ---------------------------------------------------------------------------------------
  // Between functions
  // ---------------------------------------------------------------------------------------

  const I386: Target := Target(5, 4, 8, 4, 8, 4, false)
  const AARCH64: Target := Target(29, 31, 30, 0, 0, 8, true)

  /** Between functions the frame is a linked one: its address is the frame pointer plus the two saved
      words, the saved frame pointer is the lower and the return address the upper of them; on AArch64
      both words are at the frame pointer itself. */
  lemma GapRules()
    ensures var r := DefaultRule(CfiStandard.X86_64);
            CfaReg(r.cfa) == 6 && CfaOff(r.cfa) == 16 && r.fpOff == -16 && r.pcOff == -8
    ensures var r := DefaultRule(I386);
            CfaReg(r.cfa) == 5 && CfaOff(r.cfa) == 8 && r.fpOff == -8 && r.pcOff == -4
    ensures var r := DefaultRule(AARCH64);
            CfaReg(r.cfa) == 29 && CfaOff(r.cfa) == 0 && r.fpOff == 0 && r.pcOff == 8
  {
    UnpackCfa(6, 16);
    UnpackCfa(5, 8);
    UnpackCfa(29, 0);
    hide PackCfa, CfaReg, CfaOff;
  }

  /** At the start of a function only the return address has been pushed, if it is pushed at all. */
  lemma FirstFrames()
    ensures InitialFrame(CfiStandard.X86_64) == Frame(7, 8, DW_SAME_FP, -8)
    ensures InitialFrame(I386) == Frame(4, 4, DW_SAME_FP, -4)
    ensures InitialFrame(AARCH64) == Frame(31, 0, DW_SAME_FP, 0)
  {
  }
}
