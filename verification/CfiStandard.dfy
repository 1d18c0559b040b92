/** Call frame instructions as section 6.4.2 of DWARF 5 defines them, for the three things an unwinder
    asks for: the canonical frame address, the frame pointer and the return address. The rows of the
    parser are compared with the rows of the standard, and the comparison is exact: it says for which
    instructions, which initial rules and which nesting the parser is right. */
module CfiStandard {
  import opened Words
  import opened Cfi
  import opened ExpressionStack
  import opened CfiEncoding

  /** An expression for the frame address is known to the parser by its length only. */
  datatype CfaRule = NoCfa | RegOff(reg: nat, off: int) | CfaExpression(eleven: bool)

  datatype RegRule =
    | RuleUndefined
    | RuleSame
    | RuleAtCfa(off: int)
    | RuleValAtCfa(off: int)
    | RuleInReg(reg: nat)
    | RuleAtExpression
    | RulePcPlus(off: int)
    | RuleExpression

  datatype Rules = Rules(cfa: CfaRule, fp: RegRule, pc: RegRule)

  datatype StdRow = StdRow(loc: u32, rules: Rules)

  // ---------------------------------------------------------------------------------------
  // The standard
  // ---------------------------------------------------------------------------------------

  function SetRule(t: Target, s: Rules, reg: nat, rule: RegRule): Rules {
    if reg == t.regFp then s.(fp := rule) else if reg == t.regPc then s.(pc := rule) else s
  }

  /** Back to the rule that the initial instructions gave. */
  function RestoreInitial(t: Target, init: Rules, s: Rules, reg: nat): Rules {
    if reg == t.regFp then s.(fp := init.fp) else if reg == t.regPc then s.(pc := init.pc) else s
  }

  function WithCfa(s: Rules, reg: nat, off: int): Rules {
    s.(cfa := RegOff(reg, off))
  }

  /** The value of an expression for the return address. */
  function PcRule(terms: seq<Term>): RegRule {
    match Evaluate(terms, [])
    case None => RuleExpression
    case Some(stack) =>
      if stack != [] && stack[|stack| - 1].pcs == 1 then RulePcPlus(stack[|stack| - 1].off) else RuleExpression
  }

  predicate Advances(i: Insn) {
    i.AdvanceLoc? || i.AdvanceLoc1? || i.AdvanceLoc2? || i.AdvanceLoc4?
  }

  function Delta(a: Align, i: Insn): u32
    requires Advances(i)
  {
    U32Of(i.n * a.code)
  }

  /** The instructions that set rules. Changing half of a frame address that is not a register and
      an offset has no meaning. */
  function Applied(t: Target, a: Align, init: Rules, s: Rules, i: Insn): Option<Rules> {
    match i
    case Offset(reg, n) => Some(SetRule(t, s, reg, RuleAtCfa(Int32(n * a.data))))
    case OffsetExtended(reg, n) => Some(SetRule(t, s, reg, RuleAtCfa(Int32(n * a.data))))
    case OffsetExtendedSf(reg, k) => Some(SetRule(t, s, reg, RuleAtCfa(Int32(k * a.data))))
    case RestoreReg(reg) => Some(RestoreInitial(t, init, s, reg))
    case RestoreExtended(reg) => Some(RestoreInitial(t, init, s, reg))
    case Undefined(reg) => Some(SetRule(t, s, reg, RuleUndefined))
    case SameValueReg(reg) => Some(SetRule(t, s, reg, RuleSame))
    case Register(reg, n) => Some(SetRule(t, s, reg, RuleInReg(n)))
    case ValOffset(reg, n) => Some(SetRule(t, s, reg, RuleValAtCfa(Int32(n * a.data))))
    case ValOffsetSf(reg, k) => Some(SetRule(t, s, reg, RuleValAtCfa(Int32(k * a.data))))
    case ExpressionBlock(reg, _) => Some(SetRule(t, s, reg, RuleAtExpression))
    case ValExpression(reg, _) => Some(SetRule(t, s, reg, RuleExpression))
    case ValExpressionPc(terms) => Some(SetRule(t, s, t.regPc, PcRule(terms)))
    case DefCfaRule(reg, n) => Some(WithCfa(s, reg, Int32(n)))
    case DefCfaSf(reg, k) => Some(WithCfa(s, reg, Int32(k * a.data)))
    case DefCfaReg(reg) => if s.cfa.RegOff? then Some(WithCfa(s, reg, s.cfa.off)) else None
    case DefCfaOff(n) => if s.cfa.RegOff? then Some(WithCfa(s, s.cfa.reg, Int32(n))) else None
    case DefCfaOffSf(k) => if s.cfa.RegOff? then Some(WithCfa(s, s.cfa.reg, Int32(k * a.data))) else None
    case DefCfaBlock(block) => Some(s.(cfa := CfaExpression(|block| == 11)))
    case _ => Some(s)
  }

  function Push(row: StdRow, rows: Option<seq<StdRow>>): Option<seq<StdRow>> {
    if rows.Some? then Some([row] + rows.value) else None
  }

  /** The rows of a program, or None if the standard gives it no meaning. */
  function StdRows(t: Target, a: Align, code: seq<Insn>, loc: u32, init: Rules, s: Rules, stack: seq<Rules>):
      Option<seq<StdRow>>
    requires AllSane(t, code)
  {
    if code == [] then Some([StdRow(loc, s)])
    else
      var i, rest := code[0], code[1..];
      if Advances(i) then Push(StdRow(loc, s), StdRows(t, a, rest, U32Of(loc + Delta(a, i)), init, s, stack))
      else if i.SetLoc? then Push(StdRow(loc, s), StdRows(t, a, rest, SetLocOf(t, i), init, s, stack))
      else if i.RememberState? then StdRows(t, a, rest, loc, init, s, stack + [s])
      else if i.RestoreState? then
        if stack == [] then None
        else StdRows(t, a, rest, loc, init, stack[|stack| - 1], stack[..|stack| - 1])
      else
        match Applied(t, a, init, s, i)
        case None => None
        case Some(s') => StdRows(t, a, rest, loc, init, s', stack)
  }

  function SetLocOf(t: Target, i: Insn): u32
    requires Sane(t, i) && i.SetLoc?
  {
    i.loc
  }

  /** What the initial instructions of a common entry give: a callee-saved frame pointer is unchanged,
      and so is a return address that is in a register. */
  function InitialRules(t: Target, a: Align, cie: seq<Insn>, s: Rules): Option<Rules> {
    if cie == [] then Some(s)
    else
      match Applied(t, a, s, s, cie[0])
      case None => None
      case Some(s') => InitialRules(t, a, cie[1..], s')
  }

  function Blank(t: Target): Rules {
    Rules(NoCfa, RuleSame, if t.emptyFrame == 0 then RuleSame else RuleUndefined)
  }

  // ---------------------------------------------------------------------------------------
  // The parser's rows, read
  // ---------------------------------------------------------------------------------------

  /** What the rule variables say. An odd `fpOff` is the return address relative to the pc; on a target
      without a pushed return address, offset 0 says that it is still in its register. */
  function ReadFrame(t: Target, f: Frame): Rules {
    var cfa := if f.cfaReg == DW_REG_PLT then CfaExpression(true)
               else if f.cfaReg == DW_REG_INVALID then CfaExpression(false)
               else RegOff(f.cfaReg, f.cfaOff);
    if f.fpOff % 2 == 1 then Rules(cfa, RuleSame, RulePcPlus((f.fpOff - 1) / 2))
    else Rules(cfa, ReadFp(f.fpOff), ReadPc(t, f.pcOff))
  }

  function ReadFp(fpOff: int): RegRule {
    if fpOff == DW_SAME_FP then RuleSame else RuleAtCfa(fpOff)
  }

  function ReadPc(t: Target, pcOff: int): RegRule {
    if t.emptyFrame == 0 && pcOff == 0 then RuleSame else RuleAtCfa(pcOff)
  }

  predicate Shown(t: Target, rows: seq<Row>, std: seq<StdRow>) {
    |rows| == |std| && forall k :: 0 <= k < |rows| ==> ShownRow(t, rows[k], std[k])
  }

  predicate ShownRow(t: Target, row: Row, std: StdRow) {
    row.loc == std.loc && ReadFrame(t, row.frame) == std.rules
  }

  /** Offsets that are not taken for something else. */
  predicate PlainOffset(t: Target, reg: nat, off: int) {
    && (reg == t.regFp ==> off % 2 == 0 && off != DW_SAME_FP)
    && (reg == t.regPc ==> !(t.emptyFrame == 0 && off == 0))
  }

  predicate PlainCfa(reg: nat) {
    reg != DW_REG_PLT && reg != DW_REG_INVALID
  }

  predicate Plain(t: Target, a: Align, i: Insn) {
    match i
    case Offset(reg, n) => PlainOffset(t, reg, Int32(n * a.data))
    case OffsetExtended(reg, n) => PlainOffset(t, reg, Int32(n * a.data))
    case OffsetExtendedSf(reg, k) => PlainOffset(t, reg, Int32(k * a.data))
    case DefCfaRule(reg, _) => PlainCfa(reg)
    case DefCfaSf(reg, _) => PlainCfa(reg)
    case DefCfaReg(reg) => PlainCfa(reg)
    case _ => true
  }

  predicate AllPlain(t: Target, a: Align, code: seq<Insn>) {
    forall k :: 0 <= k < |code| ==> Plain(t, a, code[k])
  }

  /** The instructions that decide: all but advances, offsets, frame addresses and argument sizes. */
  predicate Telling(i: Insn) {
    match i
    case RestoreReg(_) => true
    case RestoreExtended(_) => true
    case Undefined(_) => true
    case SameValueReg(_) => true
    case Register(_, _) => true
    case RememberState => true
    case RestoreState => true
    case ExpressionBlock(_, _) => true
    case ValOffset(_, _) => true
    case ValOffsetSf(_, _) => true
    case ValExpression(_, _) => true
    case ValExpressionPc(_) => true
    case NegateRaState => true
    case SetLoc(_) => true
    case Nop => true
    case _ => false
  }

  /** Those that the parser takes as the standard means them, in every program: restoring and keeping
      registers other than the return address; anything else only for registers that are neither the
      frame pointer nor the return address. */
  predicate Harmless(t: Target, i: Insn) {
    match i
    case RestoreReg(reg) => reg != t.regPc
    case RestoreExtended(reg) => reg != t.regPc
    case SameValueReg(reg) => reg != t.regPc
    case Undefined(reg) => reg != t.regFp && reg != t.regPc
    case Register(reg, _) => reg != t.regFp && reg != t.regPc
    case ExpressionBlock(reg, _) => reg != t.regFp && reg != t.regPc
    case ValOffset(reg, _) => reg != t.regFp && reg != t.regPc
    case ValOffsetSf(reg, _) => reg != t.regFp && reg != t.regPc
    case ValExpression(reg, _) => reg != t.regFp && reg != t.regPc
    case ValExpressionPc(_) => false
    case NegateRaState => t.aarch64
    case SetLoc(_) => false
    case Nop => false
    case _ => true
  }

  predicate AllHarmless(t: Target, code: seq<Insn>) {
    forall k :: 0 <= k < |code| ==> Harmless(t, code[k])
  }

  // ---------------------------------------------------------------------------------------
  // Where the parser is right
  // ---------------------------------------------------------------------------------------

  predicate Even(f: Frame) {
    f.fpOff % 2 == 0
  }

  predicate SetsRules(i: Insn) {
    !Advances(i) && !i.SetLoc? && !i.RememberState? && !i.RestoreState?
  }

  /** One instruction: the parser's effect reads as the standard's. */
  lemma EffectMeets(t: Target, a: Align, init: Rules, i: Insn, f: Frame)
    requires t.regFp != t.regPc && Sane(t, i) && Plain(t, a, i) && Harmless(t, i) && SetsRules(i)
    requires Even(f) && init.fp == RuleSame
    ensures var op, r := AsParsed(t, a, i), Applied(t, a, init, ReadFrame(t, f), i);
            && !op.Stop? && !op.Unknown? && !op.Advance? && !op.Remember? && !op.Restore?
            && Even(Effect(t, f, op))
            && (r.Some? ==> r.value == ReadFrame(t, Effect(t, f, op)))
  {
    hide Int32, TermsBytes, Evaluate, Accumulate;
  }

  lemma ParsedFirst(t: Target, a: Align, code: seq<Insn>)
    requires AllSane(t, code) && code != []
    ensures Sane(t, code[0]) && AllSane(t, code[1..])
    ensures var ops := AllParsed(t, a, code);
            ops != [] && ops[0] == AsParsed(t, a, code[0]) && ops[1..] == AllParsed(t, a, code[1..])
  {
  }

  lemma ShownCons(t: Target, row: Row, rows: seq<Row>, std: StdRow, stds: seq<StdRow>)
    requires ShownRow(t, row, std) && Shown(t, rows, stds)
    ensures Shown(t, [row] + rows, [std] + stds)
  {
  }

  lemma MarksAsParsed(t: Target, a: Align, i: Insn)
    requires Sane(t, i)
    ensures AsParsed(t, a, i).Remember? <==> i.RememberState?
    ensures AsParsed(t, a, i).Restore? <==> i.RestoreState?
    ensures Advances(i) ==> AsParsed(t, a, i) == Advance(Delta(a, i))
  {
  }

  lemma {:induction false} ParserMeets(t: Target, a: Align, init: Rules, code: seq<Insn>, loc: u32, f: Frame,
      saved: Frame,
      stack: seq<Rules>, armed: bool)
    requires t.regFp != t.regPc && AllSane(t, code) && AllPlain(t, a, code) && AllHarmless(t, code)
    requires Alternates(AllParsed(t, a, code), armed) && init.fp == RuleSame && Even(f) && Even(saved)
    requires armed ==> stack != [] && stack[|stack| - 1] == ReadFrame(t, saved)
    ensures var r := StdRows(t, a, code, loc, init, ReadFrame(t, f), stack);
            r.Some? ==> Shown(t, RowsSlot(t, AllParsed(t, a, code), loc, f, saved), r.value)
    decreases |code|
  {
    if code != [] {
      var i, rest := code[0], code[1..];
      assert Plain(t, a, i) && Harmless(t, i);
      ParsedFirst(t, a, code);
      MarksAsParsed(t, a, i);
      RowsStep(t, AllParsed(t, a, code), loc, f, saved);
      assert AllPlain(t, a, rest) && AllHarmless(t, rest);
      hide AllPlain, AllHarmless, AllSane, AsParsed, AllParsed, ReadFrame, RowsSlot, Plain;
      if Advances(i) {
        var loc' := U32Of(loc + Delta(a, i));
        ParserMeets(t, a, init, rest, loc', f, saved, stack, armed);
        var r := StdRows(t, a, rest, loc', init, ReadFrame(t, f), stack);
        if r.Some? {
          ShownCons(t, Row(loc, f), RowsSlot(t, AllParsed(t, a, rest), loc', f, saved), StdRow(loc, ReadFrame(t, f)),
              r.value);
        }
      } else if i.RememberState? {
        ParserMeets(t, a, init, rest, loc, f, f, stack + [ReadFrame(t, f)], true);
      } else if i.RestoreState? {
        ParserMeets(t, a, init, rest, loc, saved, saved, stack[..|stack| - 1], false);
      } else {
        EffectMeets(t, a, init, i, f);
        ParserMeets(t, a, init, rest, loc, Effect(t, f, AsParsed(t, a, i)), saved, stack, armed);
      }
    }
  }

  // ---------------------------------------------------------------------------------------
  // Where it is not
  // ---------------------------------------------------------------------------------------

  /** The factor for offsets is even, as for any stack, and offsets by one or two units are small. */
  predicate SaneAlign(a: Align) {
    a.data % 2 == 0 && a.data != 0 && -0x10_0000 < a.data < 0x10_0000
  }

  /** The telling instructions of a program, in order. */
  function Shape(code: seq<Insn>): seq<Insn> {
    if code == [] then []
    else (if Telling(code[0]) then [code[0]] else []) + Shape(code[1..])
  }

  predicate OnlyTelling(code: seq<Insn>) {
    forall k :: 0 <= k < |code| ==> Telling(code[k])
  }

  lemma ShapeCons(i: Insn, code: seq<Insn>)
    ensures Shape([i] + code) == (if Telling(i) then [i] else []) + Shape(code)
  {
    assert ([i] + code)[1..] == code;
  }

  lemma {:induction false} ShapeOfTelling(code: seq<Insn>)
    requires OnlyTelling(code)
    ensures Shape(code) == code
  {
    if code != [] {
      ShapeOfTelling(code[1..]);
      assert [code[0]] + code[1..] == code;
    }
  }

  /** Neither the offset of the return address at the start nor 0. */
  function Units(t: Target, a: Align): nat {
    var size: int := t.emptyFrame;
    if a.data != Int32(-size) then 1 else 2
  }

  /** The register whose rule the parser gets wrong. */
  function Victim(t: Target, i: Insn): Option<u32> {
    match i
    case ValExpressionPc(_) => Some(t.regFp)
    case NegateRaState => None
    case SetLoc(_) => None
    case Nop => None
    case RestoreReg(reg) => Some(t.regPc)
    case RestoreExtended(reg) => Some(t.regPc)
    case SameValueReg(reg) => Some(t.regPc)
    case Undefined(reg) => Some(if reg == t.regFp then t.regFp else t.regPc)
    case Register(reg, _) => Some(if reg == t.regFp then t.regFp else t.regPc)
    case ExpressionBlock(reg, _) => Some(if reg == t.regFp then t.regFp else t.regPc)
    case ValOffset(reg, _) => Some(if reg == t.regFp then t.regFp else t.regPc)
    case ValOffsetSf(reg, _) => Some(if reg == t.regFp then t.regFp else t.regPc)
    case ValExpression(reg, _) => Some(if reg == t.regFp then t.regFp else t.regPc)
    case _ => None
  }

  /** Its rule is set to a plain offset first. */
  function Prelude(t: Target, a: Align, i: Insn): (code: seq<Insn>)
    ensures |code| <= 1 && AllSane(t, code)
  {
    var v := Victim(t, i);
    if v.Some? then [OffsetExtended(v.value, Units(t, a))] else []
  }

  /** A program with the given telling instructions that shows the first thing the parser gets wrong. */
  function Exposing(t: Target, a: Align, shape: seq<Insn>, depth: nat, armed: bool): (code: seq<Insn>)
    requires AllSane(t, shape)
    ensures AllSane(t, code)
  {
    if shape == [] then []
    else
      var i, rest := shape[0], shape[1..];
      if i.RememberState? then
        [DefCfaRule(0, depth % 2)] + ([RememberState] + Exposing(t, a, rest, depth + 1, true))
      else if i.RestoreState? then
        if armed && depth > 0 then [RestoreState] + Exposing(t, a, rest, depth - 1, false)
        else [RestoreState] + ([AdvanceLoc(1)] + rest)
      else if Harmless(t, i) then [i] + Exposing(t, a, rest, depth, armed)
      else Prelude(t, a, i) + ([i] + ([AdvanceLoc(1)] + rest))
  }

  lemma PlainUnits(t: Target, a: Align, reg: nat)
    requires SaneAlign(a)
    ensures var k := Int32(Units(t, a) * a.data);
            var size: int := t.emptyFrame;
            k == Units(t, a) * a.data && k != 0 && k % 2 == 0 && k != DW_SAME_FP && k != Int32(-size)
    ensures Plain(t, a, OffsetExtended(reg, Units(t, a)))
  {
  }

  lemma PlainCons(t: Target, a: Align, i: Insn, code: seq<Insn>)
    requires Plain(t, a, i) && AllPlain(t, a, code)
    ensures AllPlain(t, a, [i] + code)
  {
  }

  /** A plain program with the given telling instructions. */
  predicate Fits(t: Target, a: Align, code: seq<Insn>, shape: seq<Insn>) {
    Shape(code) == shape && AllPlain(t, a, code)
  }

  lemma FitsTelling(t: Target, a: Align, i: Insn, code: seq<Insn>, shape: seq<Insn>)
    requires Fits(t, a, code, shape) && Telling(i)
    ensures Fits(t, a, [i] + code, [i] + shape)
  {
    PlainNow(t, a, i);
    ShapeCons(i, code);
    PlainCons(t, a, i, code);
  }

  lemma FitsFree(t: Target, a: Align, i: Insn, code: seq<Insn>, shape: seq<Insn>)
    requires Fits(t, a, code, shape) && !Telling(i) && Plain(t, a, i)
    ensures Fits(t, a, [i] + code, shape)
  {
    ShapeCons(i, code);
    PlainCons(t, a, i, code);
  }

  lemma FitsAsIs(t: Target, a: Align, code: seq<Insn>)
    requires OnlyTelling(code)
    ensures Fits(t, a, code, code)
  {
    ShapeOfTelling(code);
  }

  lemma {:induction false} ExposingFits(t: Target, a: Align, shape: seq<Insn>, depth: nat, armed: bool)
    requires AllSane(t, shape) && OnlyTelling(shape) && SaneAlign(a)
    ensures Fits(t, a, Exposing(t, a, shape, depth, armed), shape)
  {
    if shape == [] {
      FitsAsIs(t, a, []);
    } else {
      var i, rest := shape[0], shape[1..];
      assert OnlyTelling(rest) && Telling(i) && AllSane(t, rest);
      hide AllSane, OnlyTelling, Fits, SaneAlign, Prelude, Harmless, Telling;
      if i.RememberState? {
        ExposingFits(t, a, rest, depth + 1, true);
        RememberFits(t, a, depth % 2, Exposing(t, a, rest, depth + 1, true), rest);
      } else if i.RestoreState? && armed && depth > 0 {
        ExposingFits(t, a, rest, depth - 1, false);
        FitsTelling(t, a, i, Exposing(t, a, rest, depth - 1, false), rest);
      } else if !i.RestoreState? && Harmless(t, i) {
        ExposingFits(t, a, rest, depth, armed);
        FitsTelling(t, a, i, Exposing(t, a, rest, depth, armed), rest);
      } else {
        ShowingFits(t, a, i, rest);
        PreludeFits(t, a, i, [i] + ([AdvanceLoc(1)] + rest), [i] + rest);
      }
      hide Exposing;
      assert [i] + rest == shape;
    }
  }

  lemma RememberFits(t: Target, a: Align, reg: nat, code: seq<Insn>, shape: seq<Insn>)
    requires Fits(t, a, code, shape) && reg < 2
    ensures Fits(t, a, [DefCfaRule(0, reg)] + ([RememberState] + code), [RememberState] + shape)
  {
    PlainNow(t, a, RememberState);
    hide Fits, Plain;
    FitsTelling(t, a, RememberState, code, shape);
    FitsFree(t, a, DefCfaRule(0, reg), [RememberState] + code, [RememberState] + shape);
  }

  lemma ShowingFits(t: Target, a: Align, i: Insn, rest: seq<Insn>)
    requires Telling(i) && OnlyTelling(rest)
    ensures Fits(t, a, [i] + ([AdvanceLoc(1)] + rest), [i] + rest)
  {
    PlainNow(t, a, i);
    FitsAsIs(t, a, rest);
    hide Fits, Plain, OnlyTelling;
    FitsFree(t, a, AdvanceLoc(1), rest, rest);
    FitsTelling(t, a, i, [AdvanceLoc(1)] + rest, rest);
  }

  lemma PlainNow(t: Target, a: Align, i: Insn)
    requires Telling(i)
    ensures Plain(t, a, i) && Plain(t, a, AdvanceLoc(1)) && Plain(t, a, DefCfaRule(0, 0)) && Plain(t, a, DefCfaRule(0,
        1))
    ensures Plain(t, a, RememberState) && Plain(t, a, RestoreState)
  {
  }

  lemma PreludeFits(t: Target, a: Align, i: Insn, code: seq<Insn>, shape: seq<Insn>)
    requires SaneAlign(a) && Fits(t, a, code, shape)
    ensures Fits(t, a, Prelude(t, a, i) + code, shape)
  {
    hide Fits;
    if Victim(t, i).Some? {
      PlainUnits(t, a, Victim(t, i).value);
      FitsFree(t, a, OffsetExtended(Victim(t, i).value, Units(t, a)), code, shape);
    } else {
      assert Prelude(t, a, i) + code == code;
    }
  }

  // ---------------------------------------------------------------------------------------
  // Both readings, instruction by instruction
  // ---------------------------------------------------------------------------------------

  lemma ParsedCons(t: Target, a: Align, i: Insn, code: seq<Insn>)
    requires Sane(t, i) && AllSane(t, code)
    ensures AllSane(t, [i] + code) && AllParsed(t, a, [i] + code) == [AsParsed(t, a, i)] + AllParsed(t, a, code)
  {
    assert ([i] + code)[1..] == code;
  }

  function SlotRows(t: Target, a: Align, code: seq<Insn>, loc: u32, f: Frame, saved: Frame): seq<Row>
    requires AllSane(t, code)
  {
    RowsSlot(t, AllParsed(t, a, code), loc, f, saved)
  }

  lemma SlotCons(t: Target, a: Align, i: Insn, code: seq<Insn>, loc: u32, f: Frame, saved: Frame)
    requires Sane(t, i) && AllSane(t, code)
    ensures AllSane(t, [i] + code)
    ensures var op, rows := AsParsed(t, a, i), SlotRows(t, a, [i] + code, loc, f, saved);
            if op.Stop? then rows == [Row(loc, f)]
            else if op.Unknown? then rows == []
            else if op.Advance? then rows == [Row(loc, f)] + SlotRows(t, a, code, U32Of(loc + op.delta), f, saved)
            else if op.Remember? then rows == SlotRows(t, a, code, loc, f, f)
            else if op.Restore? then rows == SlotRows(t, a, code, loc, saved, saved)
            else rows == SlotRows(t, a, code, loc, Effect(t, f, op), saved)
  {
    hide AsParsed, RowsSlot;
    ParsedCons(t, a, i, code);
    hide AllParsed;
    var op, ops := AsParsed(t, a, i), AllParsed(t, a, code);
    RowsStep(t, [op] + ops, loc, f, saved);
    assert ([op] + ops)[1..] == ops;
  }

  lemma StdCons(t: Target, a: Align, i: Insn, code: seq<Insn>, loc: u32, init: Rules, s: Rules, stack: seq<Rules>)
    requires Sane(t, i) && AllSane(t, code)
    ensures AllSane(t, [i] + code)
    ensures var r := StdRows(t, a, [i] + code, loc, init, s, stack);
            if Advances(i) then r == Push(StdRow(loc, s), StdRows(t, a, code, U32Of(loc + Delta(a, i)), init, s, stack))
            else if i.SetLoc? then r == Push(StdRow(loc, s), StdRows(t, a, code, i.loc, init, s, stack))
            else if i.RememberState? then r == StdRows(t, a, code, loc, init, s, stack + [s])
            else if i.RestoreState? then
              r == if stack == [] then None
                   else StdRows(t, a, code, loc, init, stack[|stack| - 1], stack[..|stack| - 1])
            else
              var s' := Applied(t, a, init, s, i);
              r == if s'.None? then None else StdRows(t, a, code, loc, init, s'.value, stack)
  {
    assert ([i] + code)[1..] == code;
  }

  lemma TellingApplies(t: Target, a: Align, init: Rules, s: Rules, i: Insn)
    requires Telling(i)
    ensures Applied(t, a, init, s, i).Some? && Applied(t, a, init, s, i).value.cfa == s.cfa
  {
  }

  /** Telling instructions always have a meaning, if there is something to pop. */
  lemma {:induction false} TellingHasRows(t: Target, a: Align, code: seq<Insn>, loc: u32, init: Rules, s: Rules,
      stack: seq<Rules>)
    requires AllSane(t, code) && OnlyTelling(code) && Poppable(AllParsed(t, a, code), |stack|)
    ensures var r := StdRows(t, a, code, loc, init, s, stack); r.Some? && |r.value| >= 1
    decreases |code|
  {
    if code != [] {
      var i, rest := code[0], code[1..];
      ParsedFirst(t, a, code);
      MarksAsParsed(t, a, i);
      assert OnlyTelling(rest) && Telling(i);
      hide AllSane, AllParsed, AsParsed;
      TellingApplies(t, a, init, s, i);
      hide Applied;
      if i.SetLoc? {
        TellingHasRows(t, a, rest, SetLocOf(t, i), init, s, stack);
      } else if i.RememberState? {
        TellingHasRows(t, a, rest, loc, init, s, stack + [s]);
      } else if i.RestoreState? {
        TellingHasRows(t, a, rest, loc, init, stack[|stack| - 1], stack[..|stack| - 1]);
      } else {
        TellingHasRows(t, a, rest, loc, init, Applied(t, a, init, s, i).value, stack);
      }
    }
  }

  /** States one apart in depth have different frame addresses. */
  predicate ByDepth(stack: seq<Rules>) {
    forall k :: 0 <= k < |stack| ==> stack[k].cfa == RegOff(0, k % 2)
  }

  /** An instruction that is not harmless, after its prelude, leaves rules that read differently. */
  lemma HarmShows(t: Target, a: Align, init: Rules, i: Insn, f: Frame)
    requires t.regFp != t.regPc && SaneAlign(a) && Sane(t, i) && Telling(i) && !Harmless(t, i) && Even(f)
    requires init == ReadFrame(t, InitialFrame(t)) && Victim(t, i).Some?
    ensures var first := OffsetExtended(Victim(t, i).value, Units(t, a));
            var op := AsParsed(t, a, i);
            var s1 := Applied(t, a, init, ReadFrame(t, f), first);
            var f1 := Effect(t, f, AsParsed(t, a, first));
            && SetsRules(i) && !op.Stop? && !op.Unknown? && !op.Advance? && !op.Remember? && !op.Restore?
            && s1 == Some(ReadFrame(t, f1))
            && Applied(t, a, init, s1.value, i).Some?
            && Applied(t, a, init, s1.value, i).value != ReadFrame(t, Effect(t, f1, op))
  {
    PlainUnits(t, a, 0);
    if i.ValExpressionPc? {
      var off: int := Accumulate(i.terms, 0, 0);
      Int32Parity(2 * off + 1);
    }
    hide TermsBytes, Evaluate, Accumulate, Int32;
  }

  /** The rows of a program, both ways. */
  ghost predicate Met(t: Target, a: Align, code: seq<Insn>, loc: u32, init: Rules, f: Frame, saved: Frame, s: Rules,
      stack: seq<Rules>)
  {
    AllSane(t, code)
    && var r := StdRows(t, a, code, loc, init, s, stack);
       r.Some? ==> Shown(t, SlotRows(t, a, code, loc, f, saved), r.value)
  }

  /** Rows that start differently. */
  lemma FirstRowDiffers(t: Target, a: Align, rest: seq<Insn>, loc: u32, init: Rules, f: Frame, saved: Frame, s: Rules,
      stack: seq<Rules>)
    requires AllSane(t, rest) && OnlyTelling(rest) && Poppable(AllParsed(t, a, rest), |stack|)
    requires ReadFrame(t, f) != s
    ensures AllSane(t, [AdvanceLoc(1)] + rest)
    ensures !Met(t, a, [AdvanceLoc(1)] + rest, loc, init, f, saved, s, stack)
  {
    hide AllSane, AllParsed, RowsSlot, Poppable, OnlyTelling, ReadFrame;
    var code := [AdvanceLoc(1)] + rest;
    SlotCons(t, a, AdvanceLoc(1), rest, loc, f, saved);
    StdCons(t, a, AdvanceLoc(1), rest, loc, init, s, stack);
    TellingHasRows(t, a, rest, U32Of(loc + Delta(a, AdvanceLoc(1))), init, s, stack);
    var r := StdRows(t, a, code, loc, init, s, stack);
    assert r.value[0] == StdRow(loc, s);
    assert SlotRows(t, a, code, loc, f, saved)[0] == Row(loc, f);
  }

  lemma StopsEarly(t: Target, a: Align, init: Rules, s: Rules, i: Insn)
    requires Sane(t, i) && Telling(i) && !Harmless(t, i) && Victim(t, i).None? && !i.RememberState? && !i.RestoreState?
    ensures AsParsed(t, a, i).Stop? || AsParsed(t, a, i).Unknown?
    ensures !Advances(i) && (i.SetLoc? || SetsRules(i)) && Applied(t, a, init, s, i) == Some(s) && Sane(t,
        AdvanceLoc(1))
  {
  }

  /** A parser that stops too early. */
  lemma StoppedTooEarly(t: Target, a: Align, i: Insn, rest: seq<Insn>, loc: u32, init: Rules, f: Frame, saved: Frame,
      s: Rules, stack: seq<Rules>)
    requires Sane(t, i) && Telling(i) && !Harmless(t, i) && Victim(t, i).None? && !i.RememberState? && !i.RestoreState?
    requires AllSane(t, rest) && OnlyTelling(rest) && Poppable(AllParsed(t, a, rest), |stack|)
    ensures AllSane(t, [i] + ([AdvanceLoc(1)] + rest))
    ensures !Met(t, a, [i] + ([AdvanceLoc(1)] + rest), loc, init, f, saved, s, stack)
  {
    var next := [AdvanceLoc(1)] + rest;
    StopsEarly(t, a, init, s, i);
    var loc' := if i.SetLoc? then SetLocOf(t, i) else loc;
    hide AllSane, AllParsed, RowsSlot, StdRows, AsParsed, Harmless, Victim, Telling, OnlyTelling, Poppable, Applied,
      SlotRows;
    TwoRowsAtLeast(t, a, rest, loc', init, s, stack);
    StdCons(t, a, i, next, loc, init, s, stack);
    SlotCons(t, a, i, next, loc, f, saved);
    var r := StdRows(t, a, [i] + next, loc, init, s, stack);
    assert r.Some? && |r.value| >= 2;
    assert |SlotRows(t, a, [i] + next, loc, f, saved)| <= 1;
  }

  lemma TwoRowsAtLeast(t: Target, a: Align, rest: seq<Insn>, loc: u32, init: Rules, s: Rules, stack: seq<Rules>)
    requires AllSane(t, rest) && OnlyTelling(rest) && Poppable(AllParsed(t, a, rest), |stack|)
    ensures AllSane(t, [AdvanceLoc(1)] + rest)
    ensures var r := StdRows(t, a, [AdvanceLoc(1)] + rest, loc, init, s, stack); r.Some? && |r.value| >= 2
  {
    hide AllSane, AllParsed, OnlyTelling, Poppable;
    TellingHasRows(t, a, rest, U32Of(loc + Delta(a, AdvanceLoc(1))), init, s, stack);
    StdCons(t, a, AdvanceLoc(1), rest, loc, init, s, stack);
  }

  /** A rule that reads differently. */
  lemma RuleDiffers(t: Target, a: Align, i: Insn, rest: seq<Insn>, loc: u32, init: Rules, f: Frame, saved: Frame,
      stack: seq<Rules>)
    requires t.regFp != t.regPc && SaneAlign(a) && Even(f) && init == ReadFrame(t, InitialFrame(t))
    requires Sane(t, i) && Telling(i) && !Harmless(t, i) && Victim(t, i).Some?
    requires AllSane(t, rest) && OnlyTelling(rest) && Poppable(AllParsed(t, a, rest), |stack|)
    ensures var code := Prelude(t, a, i) + ([i] + ([AdvanceLoc(1)] + rest));
            AllSane(t, code) && !Met(t, a, code, loc, init, f, saved, ReadFrame(t, f), stack)
  {
    var first := OffsetExtended(Victim(t, i).value, Units(t, a));
    var s := ReadFrame(t, f);
    HarmShows(t, a, init, i, f);
    var f1 := Effect(t, f, AsParsed(t, a, first));
    var s1 := ReadFrame(t, f1);
    var f2, s2 := Effect(t, f1, AsParsed(t, a, i)), Applied(t, a, init, s1, i).value;
    var tail := [AdvanceLoc(1)] + rest;
    assert Sane(t, first) && AsParsed(t, a, first).SetOffset? && SetsRules(first);
    FirstRowDiffers(t, a, rest, loc, init, f2, saved, s2, stack);
    hide AllSane, AllParsed, RowsSlot, StdRows, ReadFrame, Effect, AsParsed, Applied, Poppable, OnlyTelling, Shown;
    SlotCons(t, a, i, tail, loc, f1, saved);
    StdCons(t, a, i, tail, loc, init, s1, stack);
    SlotCons(t, a, first, [i] + tail, loc, f, saved);
    StdCons(t, a, first, [i] + tail, loc, init, s, stack);
  }

  lemma {:induction false} Exposed(t: Target, a: Align, init: Rules, shape: seq<Insn>, loc: u32, f: Frame, saved: Frame,
      stack: seq<Rules>, armed: bool)
    requires t.regFp != t.regPc && SaneAlign(a) && init == ReadFrame(t, InitialFrame(t)) && Even(f) && Even(saved)
    requires AllSane(t, shape) && OnlyTelling(shape) && Poppable(AllParsed(t, a, shape), |stack|)
    requires ByDepth(stack) && (armed ==> stack != [] && stack[|stack| - 1] == ReadFrame(t, saved))
    requires !armed && stack != [] ==> stack[|stack| - 1].cfa != ReadFrame(t, saved).cfa
    requires !Alternates(AllParsed(t, a, shape), armed) || !AllHarmless(t, shape)
    ensures !Met(t, a, Exposing(t, a, shape, |stack|, armed), loc, init, f, saved, ReadFrame(t, f), stack)
    decreases |shape|, 1
  {
    var i, rest := shape[0], shape[1..];
    ParsedFirst(t, a, shape);
    MarksAsParsed(t, a, i);
    assert OnlyTelling(rest) && Telling(i);
    HarmlessFirst(t, shape);
    hide AllSane, OnlyTelling, AllHarmless, AllParsed, AsParsed, RowsSlot, StdRows, Shown, SlotRows, Met, ReadFrame;
    if i.RememberState? {
      ExposedRemember(t, a, init, rest, loc, f, saved, stack);
    } else if i.RestoreState? && armed {
      ExposedRestore(t, a, init, rest, loc, f, saved, stack);
    } else if i.RestoreState? {
      UnarmedRestore(t, a, init, rest, loc, f, saved, ReadFrame(t, f), stack);
    } else if Harmless(t, i) {
      ExposedHarmless(t, a, init, i, rest, loc, f, saved, stack, armed);
    } else if Victim(t, i).Some? {
      RuleDiffers(t, a, i, rest, loc, init, f, saved, stack);
    } else {
      StoppedTooEarly(t, a, i, rest, loc, init, f, saved, ReadFrame(t, f), stack);
      assert [] + ([i] + ([AdvanceLoc(1)] + rest)) == [i] + ([AdvanceLoc(1)] + rest);
    }
  }

  lemma RestoreIsSane(t: Target, a: Align)
    ensures Sane(t, RestoreState) && AsParsed(t, a, RestoreState) == Restore && Sane(t, AdvanceLoc(1))
  {
  }

  lemma ExposedRestore(t: Target, a: Align, init: Rules, rest: seq<Insn>, loc: u32, f: Frame, saved: Frame,
      stack: seq<Rules>)
    requires t.regFp != t.regPc && SaneAlign(a) && init == ReadFrame(t, InitialFrame(t)) && Even(f) && Even(saved)
    requires AllSane(t, rest) && OnlyTelling(rest) && stack != [] && Poppable(AllParsed(t, a, rest), |stack| - 1)
    requires ByDepth(stack) && stack[|stack| - 1] == ReadFrame(t, saved)
    requires !Alternates(AllParsed(t, a, rest), false) || !AllHarmless(t, rest)
    ensures var code := [RestoreState] + Exposing(t, a, rest, |stack| - 1, false);
            !Met(t, a, code, loc, init, f, saved, ReadFrame(t, f), stack)
    decreases |rest| + 1, 0
  {
    hide AllSane, OnlyTelling, AllHarmless, AllParsed, AsParsed, RowsSlot, StdRows, Shown, SlotRows, ReadFrame,
        Exposing,
      Sane, Alternates, Poppable, SaneAlign, InitialFrame, Applied;
    var top, front := |stack| - 1, stack[..|stack| - 1];
    RestoreIsSane(t, a);
    if front != [] {
      assert stack[top].cfa == RegOff(0, top % 2) && stack[top - 1].cfa == RegOff(0, (top - 1) % 2);
    }
    var code := Exposing(t, a, rest, top, false);
    Exposed(t, a, init, rest, loc, saved, saved, front, false);
    SlotCons(t, a, RestoreState, code, loc, f, saved);
    StdCons(t, a, RestoreState, code, loc, init, ReadFrame(t, f), stack);
  }

  lemma UnarmedRestore(t: Target, a: Align, init: Rules, rest: seq<Insn>, loc: u32, f: Frame, saved: Frame, s: Rules,
      stack: seq<Rules>)
    requires AllSane(t, rest) && OnlyTelling(rest) && stack != [] && Poppable(AllParsed(t, a, rest), |stack| - 1)
    requires stack[|stack| - 1] != ReadFrame(t, saved)
    ensures !Met(t, a, [RestoreState] + ([AdvanceLoc(1)] + rest), loc, init, f, saved, s, stack)
  {
    hide AllSane, OnlyTelling, AllParsed, AsParsed, RowsSlot, StdRows, Shown, SlotRows, ReadFrame, Sane, Poppable,
        Applied;
    RestoreIsSane(t, a);
    FirstRowDiffers(t, a, rest, loc, init, saved, saved, stack[|stack| - 1], stack[..|stack| - 1]);
    SlotCons(t, a, RestoreState, [AdvanceLoc(1)] + rest, loc, f, saved);
    StdCons(t, a, RestoreState, [AdvanceLoc(1)] + rest, loc, init, s, stack);
  }

  lemma ExposedHarmless(t: Target, a: Align, init: Rules, i: Insn, rest: seq<Insn>, loc: u32, f: Frame, saved: Frame,
      stack: seq<Rules>, armed: bool)
    requires t.regFp != t.regPc && SaneAlign(a) && init == ReadFrame(t, InitialFrame(t)) && Even(f) && Even(saved)
    requires Sane(t, i) && Telling(i) && Harmless(t, i) && !i.RememberState? && !i.RestoreState?
    requires AllSane(t, rest) && OnlyTelling(rest) && Poppable(AllParsed(t, a, rest), |stack|)
    requires ByDepth(stack) && (armed ==> stack != [] && stack[|stack| - 1] == ReadFrame(t, saved))
    requires !armed && stack != [] ==> stack[|stack| - 1].cfa != ReadFrame(t, saved).cfa
    requires !Alternates(AllParsed(t, a, rest), armed) || !AllHarmless(t, rest)
    ensures !Met(t, a, [i] + Exposing(t, a, rest, |stack|, armed), loc, init, f, saved, ReadFrame(t, f), stack)
    decreases |rest| + 1, 0
  {
    var code, s := Exposing(t, a, rest, |stack|, armed), ReadFrame(t, f);
    PlainNow(t, a, i);
    assert SetsRules(i) && init.fp == RuleSame;
    EffectMeets(t, a, init, i, f);
    TellingApplies(t, a, init, s, i);
    hide AllSane, OnlyTelling, AllHarmless, AllParsed, AsParsed, RowsSlot, StdRows, Shown, SlotRows, ReadFrame,
        Exposing,
      Sane, Alternates, Poppable, SaneAlign, Applied, Effect, Harmless, Plain, Telling;
    Exposed(t, a, init, rest, loc, Effect(t, f, AsParsed(t, a, i)), saved, stack, armed);
    SlotCons(t, a, i, code, loc, f, saved);
    StdCons(t, a, i, code, loc, init, s, stack);
  }

  lemma HarmlessFirst(t: Target, code: seq<Insn>)
    requires code != []
    ensures AllHarmless(t, code) <==> Harmless(t, code[0]) && AllHarmless(t, code[1..])
  {
    if Harmless(t, code[0]) && AllHarmless(t, code[1..]) {
      forall k | 0 <= k < |code| ensures Harmless(t, code[k]) {
        if k > 0 {
          assert code[k] == code[1..][k - 1];
        }
      }
    }
  }

  lemma DefineMeets(t: Target, a: Align, init: Rules, f: Frame, off: nat)
    requires off < 2
    ensures var define, g := DefCfaRule(0, off), f.(cfaReg := 0, cfaOff := off);
            && Sane(t, define) && Sane(t, RememberState) && AsParsed(t, a, RememberState) == Remember
            && AsParsed(t, a, define).DefCfa? && Effect(t, f, AsParsed(t, a, define)) == g
            && Applied(t, a, init, ReadFrame(t, f), define) == Some(ReadFrame(t, g))
            && ReadFrame(t, g).cfa == RegOff(0, off)
  {
  }

  lemma ExposedRemember(t: Target, a: Align, init: Rules, rest: seq<Insn>, loc: u32, f: Frame, saved: Frame,
      stack: seq<Rules>)
    requires t.regFp != t.regPc && SaneAlign(a) && init == ReadFrame(t, InitialFrame(t)) && Even(f) && Even(saved)
    requires AllSane(t, rest) && OnlyTelling(rest) && Poppable(AllParsed(t, a, rest), |stack| + 1) && ByDepth(stack)
    requires !Alternates(AllParsed(t, a, rest), true) || !AllHarmless(t, rest)
    ensures var code := [DefCfaRule(0, |stack| % 2)] + ([RememberState] + Exposing(t, a, rest, |stack| + 1, true));
            !Met(t, a, code, loc, init, f, saved, ReadFrame(t, f), stack)
    decreases |rest| + 1, 0
  {
    var depth, s := |stack|, ReadFrame(t, f);
    var define := DefCfaRule(0, depth % 2);
    var g := f.(cfaReg := 0, cfaOff := depth % 2);
    var code := Exposing(t, a, rest, depth + 1, true);
    hide ReadFrame, AllSane, OnlyTelling, AllHarmless, AllParsed, AsParsed, Effect, RowsSlot, StdRows, Shown, SlotRows,
      Exposing, Applied, Sane, InitialFrame, Alternates, Poppable, SaneAlign;
    DefineMeets(t, a, init, f, depth % 2);
    Exposed(t, a, init, rest, loc, g, g, stack + [ReadFrame(t, g)], true);
    SlotCons(t, a, RememberState, code, loc, g, saved);
    StdCons(t, a, RememberState, code, loc, init, ReadFrame(t, g), stack);
    SlotCons(t, a, define, [RememberState] + code, loc, f, saved);
    StdCons(t, a, define, [RememberState] + code, loc, init, s, stack);
  }

  // ---------------------------------------------------------------------------------------
  // Exactly when
  // ---------------------------------------------------------------------------------------

  lemma {:induction false} ByShape(t: Target, a: Align, code: seq<Insn>, armed: bool)
    requires AllSane(t, code)
    ensures AllSane(t, Shape(code))
    ensures AllHarmless(t, Shape(code)) ==> AllHarmless(t, code)
    ensures Alternates(AllParsed(t, a, Shape(code)), armed) ==> Alternates(AllParsed(t, a, code), armed)
    decreases |code|
  {
    if code != [] {
      var i, rest := code[0], code[1..];
      ParsedFirst(t, a, code);
      MarksAsParsed(t, a, i);
      HarmlessFirst(t, code);
      ByShape(t, a, rest, if i.RememberState? then true else if i.RestoreState? then false else armed);
      if Telling(i) {
        ParsedCons(t, a, i, Shape(rest));
        HarmlessFirst(t, [i] + Shape(rest));
        assert ([i] + Shape(rest))[1..] == Shape(rest);
        assert ([AsParsed(t, a, i)] + AllParsed(t, a, Shape(rest)))[1..] == AllParsed(t, a, Shape(rest));
      } else {
        assert Shape(code) == Shape(rest);
      }
      hide AllHarmless, AllParsed, AsParsed, AllSane;
    }
  }

  /** The parser is right about all plain programs with these telling instructions, where the initial
      instructions give the rules `init`. */
  ghost predicate MeetsStandard(t: Target, a: Align, init: Rules, shape: seq<Insn>, loc: u32) {
    var f := InitialFrame(t);
    forall code: seq<Insn> :: AllSane(t, code) && Fits(t, a, code, shape) ==> Met(t, a, code, loc, init, f, f, init, [])
  }

  /** If and only if the rules at the start are those the parser takes for granted, there is a remember
      before every restore since the last one, and no instruction of the list is one the parser
      misunderstands. */
  lemma ParserExact(t: Target, a: Align, init: Rules, shape: seq<Insn>, loc: u32)
    requires t.regFp != t.regPc && SaneAlign(a)
    requires AllSane(t, shape) && OnlyTelling(shape) && Poppable(AllParsed(t, a, shape), 0)
    ensures MeetsStandard(t, a, init, shape, loc)
            <==> init == ReadFrame(t, InitialFrame(t)) && Alternates(AllParsed(t, a, shape), false) && AllHarmless(t,
                shape)
  {
    var f := InitialFrame(t);
    assert Even(f);
    if init != ReadFrame(t, f) {
      FitsAsIs(t, a, shape);
      FitsFree(t, a, AdvanceLoc(1), shape, shape);
      FirstRowDiffers(t, a, shape, loc, init, f, f, init, []);
    } else if Alternates(AllParsed(t, a, shape), false) && AllHarmless(t, shape) {
      forall code: seq<Insn> | AllSane(t, code) && Fits(t, a, code, shape) ensures Met(t, a, code, loc, init, f, f,
          init, []) {
        RightProgram(t, a, code, loc);
      }
    } else {
      ExposingFits(t, a, shape, 0, false);
      Exposed(t, a, init, shape, loc, f, f, [], false);
    }
  }

  lemma RightProgram(t: Target, a: Align, code: seq<Insn>, loc: u32)
    requires t.regFp != t.regPc && AllSane(t, code) && AllPlain(t, a, code) && AllSane(t, Shape(code))
    requires Alternates(AllParsed(t, a, Shape(code)), false) && AllHarmless(t, Shape(code))
    ensures var f := InitialFrame(t); Met(t, a, code, loc, ReadFrame(t, f), f, f, ReadFrame(t, f), [])
  {
    ByShape(t, a, code, false);
    ParserMeets(t, a, ReadFrame(t, InitialFrame(t)), code, loc, InitialFrame(t), InitialFrame(t), [], false);
  }

  // ---------------------------------------------------------------------------------------
  // Padding, and programs in memory
  // ---------------------------------------------------------------------------------------

  function Nops(n: nat): (code: seq<Insn>)
    ensures |code| == n && forall k :: 0 <= k < n ==> code[k] == Nop
  {
    seq(n, k => Nop)
  }

  lemma {:induction false} NopsHaveOneRow(t: Target, a: Align, n: nat, loc: u32, f: Frame, saved: Frame, init: Rules,
      s: Rules,
      stack: seq<Rules>)
    ensures AllSane(t, Nops(n))
    ensures SlotRows(t, a, Nops(n), loc, f, saved) == [Row(loc, f)]
    ensures StdRows(t, a, Nops(n), loc, init, s, stack) == Some([StdRow(loc, s)])
  {
    if n > 0 {
      NopsHaveOneRow(t, a, n - 1, loc, f, saved, init, s, stack);
      assert Nops(n) == [Nop] + Nops(n - 1);
      SlotCons(t, a, Nop, Nops(n - 1), loc, f, saved);
      StdCons(t, a, Nop, Nops(n - 1), loc, init, s, stack);
    }
  }

  /** The nops that fill up a program change nothing: for the standard they do nothing, and the parser
      stops where nothing is left to do. */
  lemma {:induction false} PaddingKeepsRows(t: Target, a: Align, code: seq<Insn>, n: nat, loc: u32, f: Frame,
      saved: Frame,
      init: Rules, s: Rules, stack: seq<Rules>)
    requires AllSane(t, code)
    ensures AllSane(t, code + Nops(n))
    ensures SlotRows(t, a, code + Nops(n), loc, f, saved) == SlotRows(t, a, code, loc, f, saved)
    ensures StdRows(t, a, code + Nops(n), loc, init, s, stack) == StdRows(t, a, code, loc, init, s, stack)
    decreases |code|, 1
  {
    if code == [] {
      NopsHaveOneRow(t, a, n, loc, f, saved, init, s, stack);
      assert code + Nops(n) == Nops(n);
    } else {
      PaddingOfFirst(t, a, code[0], code[1..], n, loc, f, saved, init, s, stack);
      assert [code[0]] + code[1..] == code && [code[0]] + (code[1..] + Nops(n)) == code + Nops(n);
    }
  }

  lemma PaddingOfFirst(t: Target, a: Align, i: Insn, rest: seq<Insn>, n: nat, loc: u32, f: Frame, saved: Frame,
      init: Rules, s: Rules, stack: seq<Rules>)
    requires Sane(t, i) && AllSane(t, rest)
    ensures AllSane(t, [i] + rest) && AllSane(t, [i] + (rest + Nops(n)))
    ensures SlotRows(t, a, [i] + (rest + Nops(n)), loc, f, saved) == SlotRows(t, a, [i] + rest, loc, f, saved)
    ensures StdRows(t, a, [i] + (rest + Nops(n)), loc, init, s, stack) == StdRows(t, a, [i] + rest, loc, init, s, stack)
    decreases |rest| + 1, 0
  {
    var op := AsParsed(t, a, i);
    MarksAsParsed(t, a, i);
    var loc' := if Advances(i) then U32Of(loc + Delta(a, i)) else if i.SetLoc? then SetLocOf(t, i) else loc;
    var f' := if i.RestoreState? then saved
              else if i.RememberState? || Advances(i) then f else Effect(t, f, op);
    var saved' := if i.RememberState? then f else saved;
    var applied := Applied(t, a, init, s, i);
    var s' := if i.RestoreState? then (if stack == [] then s else stack[|stack| - 1])
              else if SetsRules(i) && applied.Some? then applied.value else s;
    var stack' := if i.RememberState? then stack + [s]
                  else if i.RestoreState? && stack != [] then stack[..|stack| - 1] else stack;
    PaddingKeepsRows(t, a, rest, n, loc', f', saved', init, s', stack');
    hide AllSane, AsParsed, Applied, RowsSlot, SlotRows;
    SlotCons(t, a, i, rest, loc, f, saved);
    SlotCons(t, a, i, rest + Nops(n), loc, f, saved);
    StdCons(t, a, i, rest, loc, init, s, stack);
    StdCons(t, a, i, rest + Nops(n), loc, init, s, stack);
  }

  /** From bytes to the standard: a plain program in memory, filled up with nops, without an
      instruction the parser misunderstands and with a remember before every restore, is parsed to
      rows that read as the rows of the standard. */
  lemma CodeMeetsStandard(t: Target, a: Align, mem: seq<byte>, p: nat, code: seq<Insn>, n: nat, loc: u32)
    requires t.regFp != t.regPc && AllSane(t, code) && AllPlain(t, a, code) && AllHarmless(t, code)
    requires Alternates(AllParsed(t, a, code), false)
    requires AllSane(t, code + Nops(n)) && StandsAt(mem, p, Code(t, code + Nops(n)))
    ensures var f := InitialFrame(t);
            var rows := RowsSlot(t, Program(t, a, mem, p, p + |Code(t, code + Nops(n))|), loc, f, f);
            var std := StdRows(t, a, code + Nops(n), loc, ReadFrame(t, f), ReadFrame(t, f), []);
            std.Some? ==> Shown(t, rows, std.value)
  {
    var f := InitialFrame(t);
    ProgramOfCode(t, a, mem, p, code + Nops(n));
    RowsUpToEnd(t, AllParsed(t, a, code + Nops(n)), loc, f, f);
    PaddingKeepsRows(t, a, code, n, loc, f, f, ReadFrame(t, f), ReadFrame(t, f), []);
    ParserMeets(t, a, ReadFrame(t, f), code, loc, f, f, [], false);
  }

  /** An expression for the return address is read as the standard evaluates it where the frame pointer
      has not been saved, for a base with constants and operators in pairs. */
  lemma PcValueAlone(t: Target, a: Align, init: Rules, f: Frame, base: int32, terms: seq<Term>)
    requires t.regFp != t.regPc && f.fpOff == DW_SAME_FP && Pairs(terms)
    requires var off := Accumulate([Base(base)] + terms, 0, 0); off != 0 && -0x4000_0000 <= off < 0x4000_0000
    ensures var all := [Base(base)] + terms;
            Applied(t, a, init, ReadFrame(t, f), ValExpressionPc(all))
            == Some(ReadFrame(t, Effect(t, f, PcExpression(Accumulate(all, 0, 0)))))
  {
    var all := [Base(base)] + terms;
    var off: int := Accumulate(all, 0, 0);
    PairsAgree(terms, base, 0);
    BaseFirst(base, terms);
    assert Int32(2 * off + 1) == 2 * off + 1;
    hide Accumulate, Evaluate, Int32;
    assert PcRule(all) == RulePcPlus(off);
  }

  // ---------------------------------------------------------------------------------------
  // x86-64
  // ---------------------------------------------------------------------------------------

  const X86_64: Target := Target(6, 7, 16, 8, 16, 8, false)
  const X86_64_ALIGN: Align := Align(1, -8)

  /** The usual common entry gives the rules the parser takes for granted. */
  lemma UsualInitialRules()
    ensures InitialRules(X86_64, X86_64_ALIGN, [DefCfaRule(7, 8), Offset(16, 1)], Blank(X86_64))
            == Some(ReadFrame(X86_64, InitialFrame(X86_64)))
  {
    var cie := [DefCfaRule(7, 8), Offset(16, 1)];
    assert cie[1..] == [Offset(16, 1)] && [Offset(16, 1)][1..] == [];
    assert Int32(8) == 8 && Int32(-8) == -8;
  }

  /** Saving the return address elsewhere and restoring it: the standard is back at -8, the parser
      stays at -16. */
  lemma RestoredReturnAddress(loc: u32)
    ensures var t, a, code := X86_64, X86_64_ALIGN, [Offset(16, 2), RestoreReg(16)];
            var f := InitialFrame(t);
            && AllSane(t, code)
            && (exists r: Row :: SlotRows(t, a, code, loc, f, f) == [r] && r.frame.pcOff == -16)
            && (exists r: StdRow :: StdRows(t, a, code, loc, ReadFrame(t, f), ReadFrame(t, f), []) == Some([r])
                            && r.rules.pc == RuleAtCfa(-8))
  {
    var t, a := X86_64, X86_64_ALIGN;
    var f := InitialFrame(t);
    var s := ReadFrame(t, f);
    assert Int32(-8) == -8 && Int32(-16) == -16;
    var f1, s1 := f.(pcOff := -16), s.(pc := RuleAtCfa(-16));
    var last := [RestoreReg(16)];
    assert last == [RestoreReg(16)] + [] && [Offset(16, 2), RestoreReg(16)] == [Offset(16, 2)] + last;
    SlotCons(t, a, RestoreReg(16), [], loc, f1, f);
    SlotCons(t, a, Offset(16, 2), last, loc, f, f);
    StdCons(t, a, RestoreReg(16), [], loc, s, s1, []);
    StdCons(t, a, Offset(16, 2), last, loc, s, s, []);
    assert SlotRows(t, a, [], loc, f1, f) == [Row(loc, f1)];
    assert StdRows(t, a, [], loc, s, s, []) == Some([StdRow(loc, s)]);
  }
}
