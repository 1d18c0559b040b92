/** Call frame instructions (section 6.4.2 of DWARF 5) as dwarf.cpp understands them: decoding
    from bytes, their effect on the rule variables, and the rows a program yields with the single
    saved slot of the parser and with the stack of section 6.4.2.4. */
module Cfi {
  import opened Words
  import opened Leb128

  const DW_REG_PLT: u32 := 128
  const DW_REG_INVALID: u32 := 255
  const DW_SAME_FP: int32 := -0x8000_0000

  /** The constants of the architecture. */
  datatype Target = Target(regFp: u32, regSp: u32, regPc: u32, emptyFrame: int32, linkedFrame: int32,
                           slot: int32, aarch64: bool)

  datatype Align = Align(code: u32, data: int32)

  /** The rule variables. */
  datatype Frame = Frame(cfaReg: u32, cfaOff: int32, fpOff: int32, pcOff: int32)

  datatype Row = Row(loc: u32, frame: Frame)

  datatype Op =
    | Stop                                  // nop and set_loc end the program
    | Unknown
    | Advance(delta: u32)
    | SetOffset(reg: u32, off: int32)
    | SameValue(reg: u32)
    | Remember
    | Restore
    | DefCfa(reg: u32, off: int32)
    | DefCfaRegister(reg: u32)
    | DefCfaOffset(off: int32)
    | DefCfaExpression(len: u32)
    | PcExpression(off: int32)
    | Ignored

  // ---------------------------------------------------------------------------------------
  // Decoding
  // ---------------------------------------------------------------------------------------

  function U(mem: seq<byte>, p: nat): u32 { U32Of(Uleb(mem, p)) }

  function S(mem: seq<byte>, p: nat): int32 { Int32(Sleb(mem, p)) }

  datatype Decoded = Decoded(op: Op, next: nat)

  function Decode(t: Target, a: Align, mem: seq<byte>, p: nat): (d: Decoded)
    ensures d.next > p
  {
    var b := At(mem, p);
    if b >= 64 then DecodeShort(a, mem, b, p + 1) else DecodeLong(t, a, mem, b, p + 1)
  }

  /** Instructions with an operand in the low six bits. */
  function DecodeShort(a: Align, mem: seq<byte>, b: byte, q: nat): (d: Decoded)
    ensures d.next >= q
  {
    if b / 64 == 1 then Decoded(Advance(U32Of(b % 64 * a.code)), q)
    else if b / 64 == 2 then Decoded(SetOffset(b % 64, Int32(U(mem, q) * a.data)), LebEnd(mem, q))
    else Decoded(SameValue(b % 64), q)
  }

  function DecodeLong(t: Target, a: Align, mem: seq<byte>, b: byte, q: nat): (d: Decoded)
    ensures d.next >= q
  {
    var q1 := LebEnd(mem, q);
    var q2 := LebEnd(mem, q1);
    match b
    case 0x00 => Decoded(Stop, q)
    case 0x01 => Decoded(Stop, q)
    case 0x02 => Decoded(Advance(U32Of(At(mem, q) * a.code)), q + 1)
    case 0x03 => Decoded(Advance(U32Of(Word16(mem, q) * a.code)), q + 2)
    case 0x04 => Decoded(Advance(U32Of(Word32(mem, q) * a.code)), q + 4)
    case 0x05 => Decoded(SetOffset(U(mem, q), Int32(U(mem, q1) * a.data)), q2)
    case 0x06 => Decoded(SameValue(U(mem, q)), q1)
    case 0x07 => Decoded(SameValue(U(mem, q)), q1)
    case 0x08 => Decoded(SameValue(U(mem, q)), q1)
    case 0x09 => Decoded(Ignored, q2)
    case 0x0a => Decoded(Remember, q)
    case 0x0b => Decoded(Restore, q)
    case 0x0c => Decoded(DefCfa(U(mem, q), Int32(U(mem, q1))), q2)
    case 0x0d => Decoded(DefCfaRegister(U(mem, q)), q1)
    case 0x0e => Decoded(DefCfaOffset(Int32(U(mem, q))), q1)
    case 0x0f => Decoded(DefCfaExpression(U(mem, q)), q1 + U(mem, q))
    case 0x10 => Decoded(Ignored, q2 + U(mem, q1))
    case 0x11 => Decoded(SetOffset(U(mem, q), Int32(S(mem, q1) * a.data)), q2)
    case 0x12 => Decoded(DefCfa(U(mem, q), Int32(S(mem, q1) * a.data)), q2)
    case 0x13 => Decoded(DefCfaOffset(Int32(S(mem, q) * a.data)), q1)
    case 0x14 => Decoded(Ignored, q2)
    case 0x15 => Decoded(Ignored, q2)
    case 0x16 =>
      if U(mem, q) == t.regPc then
        var v := Expression(t, mem, q2, q2 + U(mem, q1), 0, 0);
        Decoded(PcExpression(v.off), v.next)
      else Decoded(Ignored, q2 + U(mem, q1))
    case 0x2d => Decoded(if t.aarch64 then Ignored else Unknown, q)
    case 0x2e => Decoded(Ignored, q1)
    case _ => Decoded(Unknown, q)
  }

  datatype PcValue = PcValue(off: int32, next: nat)

  function SignedByte(b: byte): int { if b >= 128 then b - 256 else b }

  function SignedWord(w: nat): int { if w >= 0x8000 then w - 0x1_0000 else w }

  /** parseExpression: the offset from the pc that a small expression computes. */
  function Expression(t: Target, mem: seq<byte>, p: nat, end: nat, pcOff: int32, tos: int32): (v: PcValue)
    ensures v.next >= p
    decreases end - p
  {
    if p >= end then PcValue(pcOff, p)
    else
      var b, q := At(mem, p), p + 1;
      if b == 0x70 + t.regPc then Expression(t, mem, LebEnd(mem, q), end, S(mem, q), tos)
      else
        match b
        case 0x08 => Expression(t, mem, q + 1, end, pcOff, At(mem, q))
        case 0x09 => Expression(t, mem, q + 1, end, pcOff, SignedByte(At(mem, q)))
        case 0x0a => Expression(t, mem, q + 2, end, pcOff, Word16(mem, q))
        case 0x0b => Expression(t, mem, q + 2, end, pcOff, SignedWord(Word16(mem, q)))
        case 0x0c => Expression(t, mem, q + 4, end, pcOff, Int32(Word32(mem, q)))
        case 0x0d => Expression(t, mem, q + 4, end, pcOff, Int32(Word32(mem, q)))
        case 0x10 => Expression(t, mem, LebEnd(mem, q), end, pcOff, Int32(U(mem, q)))
        case 0x11 => Expression(t, mem, LebEnd(mem, q), end, pcOff, S(mem, q))
        case 0x1c => Expression(t, mem, q, end, Int32(pcOff - tos), tos)
        case 0x22 => Expression(t, mem, q, end, Int32(pcOff + tos), tos)
        case _ => PcValue(0, end)
  }

  /** The program between two positions, up to and with the instruction that ends it. */
  function Program(t: Target, a: Align, mem: seq<byte>, p: nat, end: nat): seq<Op>
    decreases end - p
  {
    if p >= end then []
    else
      var d := Decode(t, a, mem, p);
      if d.op.Stop? || d.op.Unknown? then [d.op] else [d.op] + Program(t, a, mem, d.next, end)
  }

  // ---------------------------------------------------------------------------------------
  // Effects
  // ---------------------------------------------------------------------------------------

  function InitialFrame(t: Target): Frame {
    var size: int := t.emptyFrame;
    Frame(t.regSp, t.emptyFrame, DW_SAME_FP, Int32(-size))
  }

  /** What an instruction other than those that end, advance, remember or restore does. */
  function Effect(t: Target, f: Frame, op: Op): Frame {
    match op
    case SetOffset(reg, off) =>
      if reg == t.regFp then f.(fpOff := off) else if reg == t.regPc then f.(pcOff := off) else f
    case SameValue(reg) => if reg == t.regFp then f.(fpOff := DW_SAME_FP) else f
    case DefCfa(reg, off) => f.(cfaReg := reg, cfaOff := off)
    case DefCfaRegister(reg) => f.(cfaReg := reg)
    case DefCfaOffset(off) => f.(cfaOff := off)
    case DefCfaExpression(len) =>
      f.(cfaReg := if len == 11 then DW_REG_PLT else DW_REG_INVALID, cfaOff := t.slot)
    case PcExpression(off) => if off != 0 then f.(fpOff := Int32(2 * off + 1)) else f
    case _ => f
  }

  /** The rows with one saved slot. An unknown instruction ends the program without a last row. */
  function RowsSlot(t: Target, ops: seq<Op>, loc: u32, f: Frame, saved: Frame): seq<Row> {
    if ops == [] then [Row(loc, f)]
    else
      match ops[0]
      case Stop => [Row(loc, f)]
      case Unknown => []
      case Advance(d) => [Row(loc, f)] + RowsSlot(t, ops[1..], U32Of(loc + d), f, saved)
      case Remember => RowsSlot(t, ops[1..], loc, f, f)
      case Restore => RowsSlot(t, ops[1..], loc, saved, saved)
      case op => RowsSlot(t, ops[1..], loc, Effect(t, f, op), saved)
  }

  /** The rows with the stack of section 6.4.2.4; popping an empty stack has no meaning there and
      leaves the rules alone here. */
  function RowsStack(t: Target, ops: seq<Op>, loc: u32, f: Frame, stack: seq<Frame>): seq<Row> {
    if ops == [] then [Row(loc, f)]
    else
      match ops[0]
      case Stop => [Row(loc, f)]
      case Unknown => []
      case Advance(d) => [Row(loc, f)] + RowsStack(t, ops[1..], U32Of(loc + d), f, stack)
      case Remember => RowsStack(t, ops[1..], loc, f, stack + [f])
      case Restore =>
        if stack == [] then RowsStack(t, ops[1..], loc, f, stack)
        else RowsStack(t, ops[1..], loc, stack[|stack| - 1], stack[..|stack| - 1])
      case op => RowsStack(t, ops[1..], loc, Effect(t, f, op), stack)
  }

  lemma ProgramStep(t: Target, a: Align, mem: seq<byte>, p: nat, end: nat)
    requires p < end
    ensures var ops, d := Program(t, a, mem, p, end), Decode(t, a, mem, p);
            && |ops| > 0 && ops[0] == d.op
            && ops[1..] == if d.op.Stop? || d.op.Unknown? then [] else Program(t, a, mem, d.next, end)
  {
  }

  lemma ProgramEnd(t: Target, a: Align, mem: seq<byte>, p: nat)
    ensures Program(t, a, mem, p, p) == []
  {
  }

  lemma ProgramOver(t: Target, a: Align, mem: seq<byte>, p: nat, end: nat)
    requires p >= end
    ensures Program(t, a, mem, p, end) == []
  {
  }

  lemma RowsEnd(t: Target, loc: u32, f: Frame, saved: Frame)
    ensures RowsSlot(t, [], loc, f, saved) == [Row(loc, f)]
  {
  }

  lemma RowsStep(t: Target, ops: seq<Op>, loc: u32, f: Frame, saved: Frame)
    requires ops != []
    ensures var op, rest, rows := ops[0], ops[1..], RowsSlot(t, ops, loc, f, saved);
            if op.Stop? then rows == [Row(loc, f)]
            else if op.Unknown? then rows == []
            else if op.Advance? then rows == [Row(loc, f)] + RowsSlot(t, rest, U32Of(loc + op.delta), f, saved)
            else if op.Remember? then rows == RowsSlot(t, rest, loc, f, f)
            else if op.Restore? then rows == RowsSlot(t, rest, loc, saved, saved)
            else rows == RowsSlot(t, rest, loc, Effect(t, f, op), saved)
  {
  }

  // ---------------------------------------------------------------------------------------
  // One slot against a stack
  // ---------------------------------------------------------------------------------------

  /** Remember and restore never nest deeper than one, and every restore has its remember. */
  predicate NestsOnce(ops: seq<Op>, depth: nat) {
    if ops == [] then true
    else
      match ops[0]
      case Remember => depth == 0 && NestsOnce(ops[1..], 1)
      case Restore => depth == 1 && NestsOnce(ops[1..], 0)
      case _ => NestsOnce(ops[1..], depth)
  }

  /** Between any two restores, and before the first, there is a remember. */
  predicate Alternates(ops: seq<Op>, armed: bool) {
    if ops == [] then true
    else
      match ops[0]
      case Remember => Alternates(ops[1..], true)
      case Restore => armed && Alternates(ops[1..], false)
      case _ => Alternates(ops[1..], armed)
  }

  lemma {:induction false} NestsOnceAlternates(ops: seq<Op>, depth: nat)
    requires NestsOnce(ops, depth) && depth <= 1
    ensures Alternates(ops, depth == 1)
  {
    if ops != [] {
      NestsOnceAlternates(ops[1..], if ops[0].Remember? then 1 else if ops[0].Restore? then 0 else depth);
    }
  }

  /** While the slot is armed it is the top of the stack, so both ways give the same rows. */
  lemma {:induction false} SlotIsTopOfStack(t: Target, ops: seq<Op>, loc: u32, f: Frame, saved: Frame,
      stack: seq<Frame>, armed: bool)
    requires Alternates(ops, armed) && (armed ==> stack != [] && stack[|stack| - 1] == saved)
    ensures RowsSlot(t, ops, loc, f, saved) == RowsStack(t, ops, loc, f, stack)
  {
    if ops != [] {
      var rest := ops[1..];
      match ops[0] {
        case Stop =>
        case Unknown =>
        case Advance(d) => SlotIsTopOfStack(t, rest, U32Of(loc + d), f, saved, stack, armed);
        case Remember => SlotIsTopOfStack(t, rest, loc, f, f, stack + [f], true);
        case Restore => SlotIsTopOfStack(t, rest, loc, saved, saved, stack[..|stack| - 1], false);
        case op => SlotIsTopOfStack(t, rest, loc, Effect(t, f, op), saved, stack, armed);
      }
    }
  }

  /** Programs that nest remember and restore at most once yield the rows the standard asks for. */
  lemma OneSlotIsEnough(t: Target, ops: seq<Op>, loc: u32)
    requires NestsOnce(ops, 0)
    ensures var f := InitialFrame(t);
            RowsSlot(t, ops, loc, f, f) == RowsStack(t, ops, loc, f, [])
  {
    NestsOnceAlternates(ops, 0);
    SlotIsTopOfStack(t, ops, loc, InitialFrame(t), InitialFrame(t), [], false);
  }

  /** The remembers and restores of a program, in order. */
  function Marks(ops: seq<Op>): seq<Op> {
    if ops == [] then []
    else (if ops[0].Remember? || ops[0].Restore? then [ops[0]] else []) + Marks(ops[1..])
  }

  predicate OnlyMarks(ops: seq<Op>) {
    forall i :: 0 <= i < |ops| ==> ops[i].Remember? || ops[i].Restore?
  }

  /** Every restore has something to pop. */
  predicate Poppable(marks: seq<Op>, depth: nat) {
    if marks == [] then true
    else if marks[0].Remember? then Poppable(marks[1..], depth + 1)
    else if marks[0].Restore? then depth > 0 && Poppable(marks[1..], depth - 1)
    else Poppable(marks[1..], depth)
  }

  lemma MarksCons(op: Op, ops: seq<Op>)
    ensures Marks([op] + ops) == (if op.Remember? || op.Restore? then [op] else []) + Marks(ops)
  {
    assert ([op] + ops)[1..] == ops;
  }

  lemma {:induction false} MarksOfMarks(ops: seq<Op>)
    requires OnlyMarks(ops)
    ensures Marks(ops) == ops
  {
    if ops != [] {
      MarksOfMarks(ops[1..]);
      assert [ops[0]] + ops[1..] == ops;
    }
  }

  lemma {:induction false} AlternatesByMarks(ops: seq<Op>, armed: bool)
    ensures Alternates(Marks(ops), armed) <==> Alternates(ops, armed)
  {
    if ops != [] {
      var op, rest := ops[0], ops[1..];
      AlternatesByMarks(rest, if op.Remember? then true else if op.Restore? then false else armed);
      if op.Remember? || op.Restore? {
        assert Marks(ops)[1..] == Marks(rest);
      } else {
        assert Marks(ops) == Marks(rest);
      }
    }
  }

  /** A program with the given marks that shows the difference: states one apart in depth have
      different CFA offsets, and the first restore without a remember since the last one is followed
      by an advance. */
  function Revealing(marks: seq<Op>, depth: nat, armed: bool): seq<Op> {
    if marks == [] then []
    else if marks[0].Remember? then
      [DefCfaOffset(depth % 2)] + ([Remember] + Revealing(marks[1..], depth + 1, true))
    else if armed && depth > 0 then [Restore] + Revealing(marks[1..], depth - 1, false)
    else [Restore] + ([Advance(1)] + marks[1..])
  }

  lemma {:induction false} RevealingMarks(marks: seq<Op>, depth: nat, armed: bool)
    requires OnlyMarks(marks)
    ensures Marks(Revealing(marks, depth, armed)) == marks
  {
    if marks != [] {
      var rest := marks[1..];
      if marks[0].Remember? {
        RevealingMarks(rest, depth + 1, true);
        MarksCons(Remember, Revealing(rest, depth + 1, true));
        MarksCons(DefCfaOffset(depth % 2), [Remember] + Revealing(rest, depth + 1, true));
      } else if armed && depth > 0 {
        RevealingMarks(rest, depth - 1, false);
        MarksCons(Restore, Revealing(rest, depth - 1, false));
      } else {
        MarksOfMarks(rest);
        MarksCons(Advance(1), rest);
        MarksCons(Restore, [Advance(1)] + rest);
      }
      assert marks == [marks[0]] + rest;
    }
  }

  /** States one apart in depth differ. */
  predicate ByDepth(stack: seq<Frame>) {
    forall i :: 0 <= i < |stack| ==> stack[i].cfaOff == i % 2
  }

  lemma RowsSlotCons(t: Target, op: Op, ops: seq<Op>, loc: u32, f: Frame, saved: Frame)
    ensures var rows := RowsSlot(t, [op] + ops, loc, f, saved);
            && (op.Remember? ==> rows == RowsSlot(t, ops, loc, f, f))
            && (op.Restore? ==> rows == RowsSlot(t, ops, loc, saved, saved))
            && (op.Advance? ==> rows == [Row(loc, f)] + RowsSlot(t, ops, U32Of(loc + op.delta), f, saved))
            && (op.DefCfaOffset? ==> rows == RowsSlot(t, ops, loc, f.(cfaOff := op.off), saved))
  {
    RowsStep(t, [op] + ops, loc, f, saved);
    hide RowsSlot, U32Of;
    assert ([op] + ops)[1..] == ops;
  }

  lemma RowsStackCons(t: Target, op: Op, ops: seq<Op>, loc: u32, f: Frame, stack: seq<Frame>)
    ensures var rows := RowsStack(t, [op] + ops, loc, f, stack);
            && (op.Remember? ==> rows == RowsStack(t, ops, loc, f, stack + [f]))
            && (op.Restore? && stack != [] ==> rows == RowsStack(t, ops, loc, stack[|stack| - 1], stack[..|stack| - 1]))
            && (op.Advance? ==> rows == [Row(loc, f)] + RowsStack(t, ops, U32Of(loc + op.delta), f, stack))
            && (op.DefCfaOffset? ==> rows == RowsStack(t, ops, loc, f.(cfaOff := op.off), stack))
  {
    assert ([op] + ops)[1..] == ops;
  }

  lemma {:induction false} RevealingDiffers(t: Target, marks: seq<Op>, loc: u32, f: Frame, saved: Frame,
      stack: seq<Frame>, armed: bool)
    requires OnlyMarks(marks) && Poppable(marks, |stack|) && !Alternates(marks, armed) && ByDepth(stack)
    requires armed ==> stack != [] && stack[|stack| - 1] == saved
    requires !armed && stack != [] ==> stack[|stack| - 1].cfaOff != saved.cfaOff
    ensures var ops := Revealing(marks, |stack|, armed);
            RowsSlot(t, ops, loc, f, saved) != RowsStack(t, ops, loc, f, stack)
  {
    var rest, depth := marks[1..], |stack|;
    hide RowsSlot, RowsStack;
    if marks[0].Remember? {
      var g := f.(cfaOff := depth % 2);
      var ops := Revealing(rest, depth + 1, true);
      RevealingDiffers(t, rest, loc, g, g, stack + [g], true);
      RowsSlotCons(t, Remember, ops, loc, g, saved);
      RowsStackCons(t, Remember, ops, loc, g, stack);
      RowsSlotCons(t, DefCfaOffset(depth % 2), [Remember] + ops, loc, f, saved);
      RowsStackCons(t, DefCfaOffset(depth % 2), [Remember] + ops, loc, f, stack);
    } else if armed {
      var ops := Revealing(rest, depth - 1, false);
      RevealingDiffers(t, rest, loc, saved, saved, stack[..depth - 1], false);
      RowsSlotCons(t, Restore, ops, loc, f, saved);
      RowsStackCons(t, Restore, ops, loc, f, stack);
    } else {
      var top := stack[depth - 1];
      RowsSlotCons(t, Advance(1), rest, loc, saved, saved);
      RowsStackCons(t, Advance(1), rest, loc, top, stack[..depth - 1]);
      RowsSlotCons(t, Restore, [Advance(1)] + rest, loc, f, saved);
      RowsStackCons(t, Restore, [Advance(1)] + rest, loc, f, stack);
      assert RowsSlot(t, Revealing(marks, depth, armed), loc, f, saved)[0] == Row(loc, saved);
      assert RowsStack(t, Revealing(marks, depth, armed), loc, f, stack)[0] == Row(loc, top);
    }
  }

  ghost predicate SlotSuffices(t: Target, marks: seq<Op>, loc: u32) {
    var f := InitialFrame(t);
    forall ops: seq<Op> :: Marks(ops) == marks ==> RowsSlot(t, ops, loc, f, f) == RowsStack(t, ops, loc, f, [])
  }

  /** Exactly when one slot is enough: all programs with given remembers and restores yield the rows
      of the stack if and only if there is a remember before every restore, since the last one. */
  lemma OneSlotExact(t: Target, marks: seq<Op>, loc: u32)
    requires OnlyMarks(marks) && Poppable(marks, 0)
    ensures SlotSuffices(t, marks, loc) <==> Alternates(marks, false)
  {
    var f := InitialFrame(t);
    if Alternates(marks, false) {
      forall ops: seq<Op> | Marks(ops) == marks
        ensures RowsSlot(t, ops, loc, f, f) == RowsStack(t, ops, loc, f, [])
      {
        AlternatesByMarks(ops, false);
        SlotIsTopOfStack(t, ops, loc, f, f, [], false);
      }
    } else {
      RevealingMarks(marks, 0, false);
      RevealingDiffers(t, marks, loc, f, f, [], false);
    }
  }

  /** Nested twice, the outer state is lost. */
  lemma TwoLevelsLoseOne(t: Target, loc: u32)
    requires t.emptyFrame != 16
    ensures var ops := [Remember, DefCfaOffset(16), Remember, Restore, Restore];
            var f := InitialFrame(t);
            RowsSlot(t, ops, loc, f, f) != RowsStack(t, ops, loc, f, [])
  {
    var f := InitialFrame(t);
    var g := f.(cfaOff := 16);
    var o5: seq<Op> := [];
    var o4, o3, o2, o1 := [Restore], [Restore, Restore], [Remember, Restore, Restore],
        [DefCfaOffset(16), Remember, Restore, Restore];
    var ops := [Remember, DefCfaOffset(16), Remember, Restore, Restore];
    assert ops[1..] == o1 && o1[1..] == o2 && o2[1..] == o3 && o3[1..] == o4 && o4[1..] == o5;
    assert RowsSlot(t, o5, loc, g, g) == [Row(loc, g)];
    assert RowsSlot(t, o4, loc, g, g) == [Row(loc, g)];
    assert RowsSlot(t, o3, loc, g, g) == [Row(loc, g)];
    assert [f] + [g] == [f, g] && [f, g][..1] == [f] && [f][..0] == [];
    assert RowsSlot(t, o2, loc, g, f) == [Row(loc, g)];
    assert RowsSlot(t, o1, loc, f, f) == [Row(loc, g)];
    assert RowsSlot(t, ops, loc, f, f) == [Row(loc, g)];
    assert RowsStack(t, o5, loc, f, []) == [Row(loc, f)];
    assert RowsStack(t, o4, loc, g, [f]) == [Row(loc, f)];
    assert RowsStack(t, o3, loc, g, [f, g]) == [Row(loc, f)];
    assert [] + [f] == [f];
    assert RowsStack(t, o2, loc, g, [f]) == [Row(loc, f)];
    assert RowsStack(t, o1, loc, f, [f]) == [Row(loc, f)];
    assert [Row(loc, g)][0] != [Row(loc, f)][0];
  }
}
