/** Call frame instructions as a compiler writes them (sections 6.4.2 and 7.24 of DWARF 5), and the
    proof that the decoder understands them, wherever they stand in memory. */
module CfiEncoding {
  import opened Words
  import opened Varint
  import opened Leb128
  import opened Cfi
  import opened ExpressionStack

  datatype Insn =
    | AdvanceLoc(n: nat)
    | AdvanceLoc1(n: nat)
    | AdvanceLoc2(n: nat)
    | AdvanceLoc4(n: nat)
    | Offset(reg: nat, n: nat)
    | OffsetExtended(reg: nat, n: nat)
    | OffsetExtendedSf(reg: nat, k: int)
    | RestoreReg(reg: nat)
    | RestoreExtended(reg: nat)
    | Undefined(reg: nat)
    | SameValueReg(reg: nat)
    | Register(reg: nat, n: nat)
    | RememberState
    | RestoreState
    | DefCfaRule(reg: nat, n: nat)
    | DefCfaSf(reg: nat, k: int)
    | DefCfaReg(reg: nat)
    | DefCfaOff(n: nat)
    | DefCfaOffSf(k: int)
    | DefCfaBlock(block: seq<byte>)
    | ExpressionBlock(reg: nat, block: seq<byte>)
    | ValOffset(reg: nat, n: nat)
    | ValOffsetSf(reg: nat, k: int)
    | ArgsSize(n: nat)
    | ValExpression(reg: nat, block: seq<byte>)
    | ValExpressionPc(terms: seq<Term>)       // for the return address, the only one that is evaluated
    | NegateRaState
    | SetLoc(loc: nat)
    | Nop

  predicate IsInt32(k: int) {
    -0x8000_0000 <= k < 0x8000_0000
  }

  /** The operands fit. */
  predicate Sane(t: Target, i: Insn) {
    match i
    case AdvanceLoc(n) => n < 64
    case AdvanceLoc1(n) => n < 256
    case AdvanceLoc2(n) => n < 0x1_0000
    case AdvanceLoc4(n) => n < U32
    case Offset(reg, n) => reg < 64 && n < U32
    case OffsetExtended(reg, n) => reg < U32 && n < U32
    case OffsetExtendedSf(reg, k) => reg < U32 && IsInt32(k)
    case RestoreReg(reg) => reg < 64
    case RestoreExtended(reg) => reg < U32
    case Undefined(reg) => reg < U32
    case SameValueReg(reg) => reg < U32
    case Register(reg, n) => reg < U32 && n < U32
    case RememberState => true
    case RestoreState => true
    case DefCfaRule(reg, n) => reg < U32 && n < U32
    case DefCfaSf(reg, k) => reg < U32 && IsInt32(k)
    case DefCfaReg(reg) => reg < U32
    case DefCfaOff(n) => n < U32
    case DefCfaOffSf(k) => IsInt32(k)
    case DefCfaBlock(block) => |block| < U32
    case ExpressionBlock(reg, block) => reg < U32 && |block| < U32
    case ValOffset(reg, n) => reg < U32 && n < U32
    case ValOffsetSf(reg, k) => reg < U32 && IsInt32(k)
    case ArgsSize(n) => n < U32
    case ValExpression(reg, block) => reg < U32 && reg != t.regPc && |block| < U32
    case ValExpressionPc(terms) => t.regPc <= 0x8f && |TermsBytes(t, terms)| < U32
    case NegateRaState => true
    case SetLoc(loc) => loc < U32
    case Nop => true
  }

  /** The bytes of an expression. */
  function TermBytes(t: Target, term: Term): (s: seq<byte>)
    requires t.regPc <= 0x8f
    ensures |s| >= 1
  {
    match term
    case Base(off) => [0x70 + t.regPc] + SlebBytes(off)
    case Number(v) => [0x11] + SlebBytes(v)
    case Minus => [0x1c]
    case Plus => [0x22]
  }

  function TermsBytes(t: Target, terms: seq<Term>): seq<byte>
    requires t.regPc <= 0x8f
  {
    if terms == [] then [] else TermBytes(t, terms[0]) + TermsBytes(t, terms[1..])
  }

  function Little16(n: nat): (s: seq<byte>)
    requires n < 0x1_0000
    ensures |s| == 2
  {
    [n % 256, n / 256]
  }

  function Little32(n: nat): (s: seq<byte>)
    requires n < U32
    ensures |s| == 4
  {
    Little16(n % 0x1_0000) + Little16(n / 0x1_0000)
  }

  /** The opcode byte. */
  function Opcode(t: Target, i: Insn): byte
    requires Sane(t, i)
  {
    match i
    case AdvanceLoc(n) => 0x40 + n
    case Offset(reg, _) => 0x80 + reg
    case RestoreReg(reg) => 0xc0 + reg
    case AdvanceLoc1(_) => 0x02
    case AdvanceLoc2(_) => 0x03
    case AdvanceLoc4(_) => 0x04
    case OffsetExtended(_, _) => 0x05
    case RestoreExtended(_) => 0x06
    case Undefined(_) => 0x07
    case SameValueReg(_) => 0x08
    case Register(_, _) => 0x09
    case RememberState => 0x0a
    case RestoreState => 0x0b
    case DefCfaRule(_, _) => 0x0c
    case DefCfaReg(_) => 0x0d
    case DefCfaOff(_) => 0x0e
    case DefCfaBlock(_) => 0x0f
    case ExpressionBlock(_, _) => 0x10
    case OffsetExtendedSf(_, _) => 0x11
    case DefCfaSf(_, _) => 0x12
    case DefCfaOffSf(_) => 0x13
    case ValOffset(_, _) => 0x14
    case ValOffsetSf(_, _) => 0x15
    case ArgsSize(_) => 0x2e
    case ValExpression(_, _) => 0x16
    case ValExpressionPc(_) => 0x16
    case NegateRaState => 0x2d
    case SetLoc(_) => 0x01
    case Nop => 0x00
  }

  /** The bytes after the opcode. */
  function Operands(t: Target, i: Insn): seq<byte>
    requires Sane(t, i)
  {
    match i
    case AdvanceLoc(_) => []
    case RestoreReg(_) => []
    case RememberState => []
    case RestoreState => []
    case AdvanceLoc1(n) => [n]
    case AdvanceLoc2(n) => Little16(n)
    case AdvanceLoc4(n) => Little32(n)
    case Offset(_, n) => Var32(n)
    case RestoreExtended(reg) => Var32(reg)
    case Undefined(reg) => Var32(reg)
    case SameValueReg(reg) => Var32(reg)
    case DefCfaReg(reg) => Var32(reg)
    case DefCfaOff(n) => Var32(n)
    case ArgsSize(n) => Var32(n)
    case DefCfaOffSf(k) => SlebBytes(k)
    case OffsetExtended(reg, n) => Var32(reg) + Var32(n)
    case Register(reg, n) => Var32(reg) + Var32(n)
    case DefCfaRule(reg, n) => Var32(reg) + Var32(n)
    case ValOffset(reg, n) => Var32(reg) + Var32(n)
    case OffsetExtendedSf(reg, k) => Var32(reg) + SlebBytes(k)
    case DefCfaSf(reg, k) => Var32(reg) + SlebBytes(k)
    case ValOffsetSf(reg, k) => Var32(reg) + SlebBytes(k)
    case DefCfaBlock(block) => Var32(|block|) + block
    case ExpressionBlock(reg, block) => Var32(reg) + Var32(|block|) + block
    case ValExpression(reg, block) => Var32(reg) + Var32(|block|) + block
    case ValExpressionPc(terms) => Var32(t.regPc) + Var32(|TermsBytes(t, terms)|) + TermsBytes(t, terms)
    case NegateRaState => []
    case SetLoc(loc) => Little32(loc)
    case Nop => []
  }

  function Bytes(t: Target, i: Insn): (s: seq<byte>)
    requires Sane(t, i)
    ensures |s| >= 1
  {
    [Opcode(t, i)] + Operands(t, i)
  }

  /** What the parser takes an instruction for. This is not always what the standard says:
      `CfiStandard` has that, and the exact difference. */
  function AsParsed(t: Target, a: Align, i: Insn): Op
    requires Sane(t, i)
  {
    match i
    case AdvanceLoc(n) => Advance(U32Of(n * a.code))
    case AdvanceLoc1(n) => Advance(U32Of(n * a.code))
    case AdvanceLoc2(n) => Advance(U32Of(n * a.code))
    case AdvanceLoc4(n) => Advance(U32Of(n * a.code))
    case Offset(reg, n) => SetOffset(reg, Int32(n * a.data))
    case OffsetExtended(reg, n) => SetOffset(reg, Int32(n * a.data))
    case OffsetExtendedSf(reg, k) => SetOffset(reg, Int32(k * a.data))
    case RestoreReg(reg) => SameValue(reg)
    case RestoreExtended(reg) => SameValue(reg)
    case Undefined(reg) => SameValue(reg)
    case SameValueReg(reg) => SameValue(reg)
    case RememberState => Remember
    case RestoreState => Restore
    case DefCfaRule(reg, n) => DefCfa(reg, Int32(n))
    case DefCfaSf(reg, k) => DefCfa(reg, Int32(k * a.data))
    case DefCfaReg(reg) => DefCfaRegister(reg)
    case DefCfaOff(n) => DefCfaOffset(Int32(n))
    case DefCfaOffSf(k) => DefCfaOffset(Int32(k * a.data))
    case DefCfaBlock(block) => DefCfaExpression(|block|)
    case Register(_, _) => Ignored
    case ExpressionBlock(_, _) => Ignored
    case ValOffset(_, _) => Ignored
    case ValOffsetSf(_, _) => Ignored
    case ArgsSize(_) => Ignored
    case ValExpression(_, _) => Ignored
    case ValExpressionPc(terms) => PcExpression(Accumulate(terms, 0, 0))
    case NegateRaState => if t.aarch64 then Ignored else Unknown
    case SetLoc(_) => Stop
    case Nop => Stop
  }

  // ---------------------------------------------------------------------------------------
  // Reading numbers in the middle of memory
  // ---------------------------------------------------------------------------------------

  lemma {:induction false} UlebAfter(pre: seq<byte>, s: seq<byte>)
    ensures Uleb(pre + s, |pre|) == Uleb(s, 0) && Sleb(pre + s, |pre|) == Sleb(s, 0)
    ensures LebEnd(pre + s, |pre|) == |pre| + LebEnd(s, 0)
  {
    if pre == [] {
      assert pre + s == s;
    } else {
      var b, rest := pre[0], pre[1..];
      UlebAfter(rest, s);
      assert pre + s == [b] + (rest + s);
      UlebTail(b, rest + s, |rest|);
    }
  }

  /** These bytes are in memory at `p`. */
  ghost predicate StandsAt(mem: seq<byte>, p: nat, s: seq<byte>) {
    p + |s| <= |mem| && mem[p..p + |s|] == s
  }

  lemma StandsInside(mem: seq<byte>, p: nat, s: seq<byte>)
    requires StandsAt(mem, p, s)
    ensures p + |s| <= |mem| && mem == mem[..p] + (s + mem[p + |s|..])
  {
  }

  lemma Split(mem: seq<byte>, p: nat, x: seq<byte>, y: seq<byte>)
    requires StandsAt(mem, p, x + y)
    ensures StandsAt(mem, p, x) && StandsAt(mem, p + |x|, y)
  {
    var s := mem[p..p + |x + y|];
    assert mem[p..p + |x|] == s[..|x|];
    assert mem[p + |x|..p + |x| + |y|] == s[|x|..];
  }

  lemma First(mem: seq<byte>, p: nat, b: byte, s: seq<byte>)
    requires StandsAt(mem, p, [b] + s)
    ensures At(mem, p) == b && StandsAt(mem, p + 1, s)
  {
    Split(mem, p, [b], s);
    assert mem[p..p + 1][0] == mem[p];
  }

  /** An unsigned operand at `q`. */
  lemma ReadU(mem: seq<byte>, q: nat, v: nat)
    requires v < U32 && StandsAt(mem, q, Var32(v))
    ensures U(mem, q) == v && LebEnd(mem, q) == q + |Var32(v)|
  {
    StandsInside(mem, q, Var32(v));
    var pre, s, rest := mem[..q], Var32(v), mem[q + |Var32(v)|..];
    UlebAfter(pre, s + rest);
    UlebOfVar32(v, rest);
    assert |pre| == q;
    hide Uleb, LebEnd, Var32;
  }

  /** A signed operand at `q`. */
  lemma ReadS(mem: seq<byte>, q: nat, k: int)
    requires IsInt32(k) && StandsAt(mem, q, SlebBytes(k))
    ensures S(mem, q) == k && LebEnd(mem, q) == q + |SlebBytes(k)|
  {
    StandsInside(mem, q, SlebBytes(k));
    var pre, s, rest := mem[..q], SlebBytes(k), mem[q + |SlebBytes(k)|..];
    UlebAfter(pre, s + rest);
    SlebOfBytes(k, rest);
    assert |pre| == q;
    hide Sleb, LebEnd, SlebBytes;
  }

  // ---------------------------------------------------------------------------------------
  // Decoding what was encoded
  // ---------------------------------------------------------------------------------------

  lemma DecodeNoOperand(t: Target, a: Align, mem: seq<byte>, p: nat, i: Insn)
    requires Sane(t, i) && StandsAt(mem, p, Bytes(t, i))
    requires i.AdvanceLoc? || i.RestoreReg? || i.RememberState? || i.RestoreState? || i.NegateRaState? || i.Nop?
    ensures Decode(t, a, mem, p) == Decoded(AsParsed(t, a, i), p + |Bytes(t, i)|)
  {
    assert mem[p] == Bytes(t, i)[0];
  }

  lemma DecodeFixed(t: Target, a: Align, mem: seq<byte>, p: nat, i: Insn)
    requires Sane(t, i) && StandsAt(mem, p, Bytes(t, i))
    requires i.AdvanceLoc1? || i.AdvanceLoc2? || i.AdvanceLoc4?
    ensures Decode(t, a, mem, p) == Decoded(AsParsed(t, a, i), p + |Bytes(t, i)|)
  {
    var s := Bytes(t, i);
    assert mem[p] == s[0] && mem[p + 1] == s[1];
    if !i.AdvanceLoc1? {
      assert mem[p + 2] == s[2];
      if i.AdvanceLoc4? {
        assert mem[p + 3] == s[3] && mem[p + 4] == s[4];
      }
    }
  }

  lemma DecodeOne(t: Target, a: Align, mem: seq<byte>, p: nat, i: Insn)
    requires Sane(t, i) && StandsAt(mem, p, Bytes(t, i))
    requires i.Offset? || i.RestoreExtended? || i.Undefined? || i.SameValueReg? || i.DefCfaReg? || i.DefCfaOff?
             || i.ArgsSize? || i.DefCfaOffSf?
    ensures Decode(t, a, mem, p) == Decoded(AsParsed(t, a, i), p + |Bytes(t, i)|)
  {
    hide Uleb, Sleb, LebEnd, Var32, SlebBytes, U, S, Int32, U32Of, StandsAt, At, Expression;
    First(mem, p, Opcode(t, i), Operands(t, i));
    if i.DefCfaOffSf? {
      ReadS(mem, p + 1, i.k);
    } else if i.Offset? || i.DefCfaOff? || i.ArgsSize? {
      ReadU(mem, p + 1, i.n);
    } else {
      ReadU(mem, p + 1, i.reg);
    }
  }

  lemma DecodeTwo(t: Target, a: Align, mem: seq<byte>, p: nat, i: Insn)
    requires Sane(t, i) && StandsAt(mem, p, Bytes(t, i))
    requires i.OffsetExtended? || i.Register? || i.DefCfaRule? || i.ValOffset? || i.OffsetExtendedSf? || i.DefCfaSf?
             || i.ValOffsetSf?
    ensures Decode(t, a, mem, p) == Decoded(AsParsed(t, a, i), p + |Bytes(t, i)|)
  {
    hide Uleb, Sleb, LebEnd, Var32, SlebBytes, U, S, Int32, U32Of, StandsAt, At, Expression;
    First(mem, p, Opcode(t, i), Operands(t, i));
    var q := p + 1 + |Var32(i.reg)|;
    if i.OffsetExtendedSf? || i.DefCfaSf? || i.ValOffsetSf? {
      Split(mem, p + 1, Var32(i.reg), SlebBytes(i.k));
      ReadS(mem, q, i.k);
    } else {
      Split(mem, p + 1, Var32(i.reg), Var32(i.n));
      ReadU(mem, q, i.n);
    }
    ReadU(mem, p + 1, i.reg);
  }

  lemma DecodeBlock(t: Target, a: Align, mem: seq<byte>, p: nat, i: Insn)
    requires Sane(t, i) && StandsAt(mem, p, Bytes(t, i)) && (i.DefCfaBlock? || i.ExpressionBlock? || i.ValExpression?)
    ensures Decode(t, a, mem, p) == Decoded(AsParsed(t, a, i), p + |Bytes(t, i)|)
  {
    hide Uleb, Sleb, LebEnd, Var32, SlebBytes, U, S, Int32, U32Of, StandsAt, At, Expression;
    First(mem, p, Opcode(t, i), Operands(t, i));
    var n := |i.block|;
    if i.DefCfaBlock? {
      Split(mem, p + 1, Var32(n), i.block);
      ReadU(mem, p + 1, n);
    } else {
      Split(mem, p + 1, Var32(i.reg) + Var32(n), i.block);
      Split(mem, p + 1, Var32(i.reg), Var32(n));
      ReadU(mem, p + 1, i.reg);
      ReadU(mem, p + 1 + |Var32(i.reg)|, n);
    }
  }

  /** An expression is evaluated to its last byte. */
  lemma {:induction false} ReadTerms(t: Target, mem: seq<byte>, p: nat, terms: seq<Term>, pcOff: int32, last: int32)
    requires t.regPc <= 0x8f && StandsAt(mem, p, TermsBytes(t, terms))
    ensures var end := p + |TermsBytes(t, terms)|;
            Expression(t, mem, p, end, pcOff, last) == PcValue(Accumulate(terms, pcOff, last), end)
            && Terms(t, mem, p, end) == Some(terms)
    decreases |terms|
  {
    hide StandsAt, TermBytes, TermAt, Expression;
    if terms == [] {
      NoTerms(t, mem, p, pcOff, last);
    } else {
      var term, rest := terms[0], terms[1..];
      var q := p + |TermBytes(t, term)|;
      Split(mem, p, TermBytes(t, term), TermsBytes(t, rest));
      var end := q + |TermsBytes(t, rest)|;
      ReadTerm(t, mem, p, term, end, pcOff, last);
      TermsGoOn(t, mem, p, end);
      hide Terms, TermsBytes;
      match term {
        case Base(off) => ReadTerms(t, mem, q, rest, off, last);
        case Number(v) => ReadTerms(t, mem, q, rest, pcOff, v);
        case Plus => ReadTerms(t, mem, q, rest, Int32(pcOff + last), last);
        case Minus => ReadTerms(t, mem, q, rest, Int32(pcOff - last), last);
      }
      assert [term] + rest == terms;
    }
  }

  lemma NoTerms(t: Target, mem: seq<byte>, p: nat, pcOff: int32, last: int32)
    ensures Expression(t, mem, p, p, pcOff, last) == PcValue(pcOff, p) && Terms(t, mem, p, p) == Some([])
  {
  }

  lemma TermsGoOn(t: Target, mem: seq<byte>, p: nat, end: nat)
    requires p < end && TermAt(t, mem, p).Good?
    ensures var r := TermAt(t, mem, p);
            var rest := Terms(t, mem, r.next, end);
            Terms(t, mem, p, end) == if rest.Some? then Some([r.term] + rest.value) else None
  {
  }

  /** One term of it. */
  lemma ReadTerm(t: Target, mem: seq<byte>, p: nat, term: Term, end: nat, pcOff: int32, last: int32)
    requires t.regPc <= 0x8f && StandsAt(mem, p, TermBytes(t, term)) && p + |TermBytes(t, term)| <= end
    ensures var q := p + |TermBytes(t, term)|;
            && TermAt(t, mem, p) == Good(term, q)
            && Expression(t, mem, p, end, pcOff, last)
               == match term
                  case Base(off) => Expression(t, mem, q, end, off, last)
                  case Number(v) => Expression(t, mem, q, end, pcOff, v)
                  case Plus => Expression(t, mem, q, end, Int32(pcOff + last), last)
                  case Minus => Expression(t, mem, q, end, Int32(pcOff - last), last)
  {
    hide StandsAt, At, Uleb, Sleb, LebEnd, SlebBytes, S, U, Word16, Word32;
    match term {
      case Base(off) =>
        First(mem, p, 0x70 + t.regPc, SlebBytes(off));
        ReadS(mem, p + 1, off);
      case Number(v) =>
        First(mem, p, 0x11, SlebBytes(v));
        ReadS(mem, p + 1, v);
      case Plus =>
        assert TermBytes(t, term) == [0x22] + [];
        First(mem, p, 0x22, []);
      case Minus =>
        assert TermBytes(t, term) == [0x1c] + [];
        First(mem, p, 0x1c, []);
    }
  }

  lemma DecodePcValue(t: Target, a: Align, mem: seq<byte>, p: nat, i: Insn)
    requires Sane(t, i) && StandsAt(mem, p, Bytes(t, i)) && i.ValExpressionPc?
    ensures Decode(t, a, mem, p) == Decoded(AsParsed(t, a, i), p + |Bytes(t, i)|)
  {
    hide Uleb, Sleb, LebEnd, Var32, SlebBytes, U, S, Int32, U32Of, StandsAt, At, Expression, TermsBytes, Accumulate;
    First(mem, p, Opcode(t, i), Operands(t, i));
    var block := TermsBytes(t, i.terms);
    var n := |block|;
    Split(mem, p + 1, Var32(t.regPc) + Var32(n), block);
    Split(mem, p + 1, Var32(t.regPc), Var32(n));
    ReadU(mem, p + 1, t.regPc);
    ReadU(mem, p + 1 + |Var32(t.regPc)|, n);
    ReadTerms(t, mem, p + 1 + |Var32(t.regPc)| + |Var32(n)|, i.terms, 0, 0);
  }

  /** The decoder takes every instruction for what `AsParsed` says, and unless that ends the program
      it stops right after it. */
  lemma DecodeEncoded(t: Target, a: Align, mem: seq<byte>, p: nat, i: Insn)
    requires Sane(t, i) && StandsAt(mem, p, Bytes(t, i))
    ensures Decode(t, a, mem, p).op == AsParsed(t, a, i)
    ensures !AsParsed(t, a, i).Stop? ==> Decode(t, a, mem, p).next == p + |Bytes(t, i)|
  {
    hide Decode, AsParsed, Bytes, Sane;
    match i {
      case AdvanceLoc(_) => DecodeNoOperand(t, a, mem, p, i);
      case RestoreReg(_) => DecodeNoOperand(t, a, mem, p, i);
      case RememberState => DecodeNoOperand(t, a, mem, p, i);
      case RestoreState => DecodeNoOperand(t, a, mem, p, i);
      case NegateRaState => DecodeNoOperand(t, a, mem, p, i);
      case Nop => DecodeNoOperand(t, a, mem, p, i);
      case SetLoc(_) => DecodeSetLoc(t, a, mem, p, i);
      case AdvanceLoc1(_) => DecodeFixed(t, a, mem, p, i);
      case AdvanceLoc2(_) => DecodeFixed(t, a, mem, p, i);
      case AdvanceLoc4(_) => DecodeFixed(t, a, mem, p, i);
      case DefCfaBlock(_) => DecodeBlock(t, a, mem, p, i);
      case ExpressionBlock(_, _) => DecodeBlock(t, a, mem, p, i);
      case ValExpression(_, _) => DecodeBlock(t, a, mem, p, i);
      case ValExpressionPc(_) => DecodePcValue(t, a, mem, p, i);
      case OffsetExtended(_, _) => DecodeTwo(t, a, mem, p, i);
      case Register(_, _) => DecodeTwo(t, a, mem, p, i);
      case DefCfaRule(_, _) => DecodeTwo(t, a, mem, p, i);
      case ValOffset(_, _) => DecodeTwo(t, a, mem, p, i);
      case OffsetExtendedSf(_, _) => DecodeTwo(t, a, mem, p, i);
      case DefCfaSf(_, _) => DecodeTwo(t, a, mem, p, i);
      case ValOffsetSf(_, _) => DecodeTwo(t, a, mem, p, i);
      case _ => DecodeOne(t, a, mem, p, i);
    }
  }

  lemma DecodeSetLoc(t: Target, a: Align, mem: seq<byte>, p: nat, i: Insn)
    requires Sane(t, i) && StandsAt(mem, p, Bytes(t, i)) && i.SetLoc?
    ensures Decode(t, a, mem, p).op == AsParsed(t, a, i) == Stop
  {
    First(mem, p, Opcode(t, i), Operands(t, i));
  }

  predicate AllSane(t: Target, code: seq<Insn>) {
    forall k :: 0 <= k < |code| ==> Sane(t, code[k])
  }

  function Code(t: Target, code: seq<Insn>): seq<byte>
    requires AllSane(t, code)
  {
    if code == [] then [] else Bytes(t, code[0]) + Code(t, code[1..])
  }

  function AllParsed(t: Target, a: Align, code: seq<Insn>): seq<Op>
    requires AllSane(t, code)
  {
    if code == [] then [] else [AsParsed(t, a, code[0])] + AllParsed(t, a, code[1..])
  }

  /** A list of instructions up to and with the first that ends the program. */
  function UpToEnd(ops: seq<Op>): seq<Op> {
    if ops == [] then []
    else if ops[0].Stop? || ops[0].Unknown? then [ops[0]]
    else [ops[0]] + UpToEnd(ops[1..])
  }

  /** Nothing after it matters. */
  lemma {:induction false} RowsUpToEnd(t: Target, ops: seq<Op>, loc: u32, f: Frame, saved: Frame)
    ensures RowsSlot(t, UpToEnd(ops), loc, f, saved) == RowsSlot(t, ops, loc, f, saved)
  {
    if ops != [] {
      var op, rest := ops[0], ops[1..];
      if !(op.Stop? || op.Unknown?) {
        assert UpToEnd(ops)[1..] == UpToEnd(rest);
        if op.Advance? {
          RowsUpToEnd(t, rest, U32Of(loc + op.delta), f, saved);
        } else if op.Remember? {
          RowsUpToEnd(t, rest, loc, f, f);
        } else if op.Restore? {
          RowsUpToEnd(t, rest, loc, saved, saved);
        } else {
          RowsUpToEnd(t, rest, loc, Effect(t, f, op), saved);
        }
      }
    }
  }

  /** A whole program in memory is read as the list of its instructions, up to the one that ends it. */
  lemma {:induction false} ProgramOfCode(t: Target, a: Align, mem: seq<byte>, p: nat, code: seq<Insn>)
    requires AllSane(t, code) && StandsAt(mem, p, Code(t, code))
    ensures Program(t, a, mem, p, p + |Code(t, code)|) == UpToEnd(AllParsed(t, a, code))
    decreases |code|
  {
    hide Program, AsParsed, Bytes, Sane, StandsAt;
    if code == [] {
      ProgramEnd(t, a, mem, p);
    } else {
      hide Code, AllParsed, AllSane;
      CodeFirst(t, a, code);
      ProgramOfFirst(t, a, mem, p, code[0], Code(t, code[1..]));
      UpToEndCons(AsParsed(t, a, code[0]), AllParsed(t, a, code[1..]));
      hide UpToEnd;
      if !AsParsed(t, a, code[0]).Stop? && !AsParsed(t, a, code[0]).Unknown? {
        ProgramOfCode(t, a, mem, p + |Bytes(t, code[0])|, code[1..]);
      }
    }
  }

  lemma UpToEndCons(op: Op, ops: seq<Op>)
    ensures UpToEnd([op] + ops) == if op.Stop? || op.Unknown? then [op] else [op] + UpToEnd(ops)
  {
    assert ([op] + ops)[1..] == ops;
  }

  lemma CodeFirst(t: Target, a: Align, code: seq<Insn>)
    requires AllSane(t, code) && code != []
    ensures Sane(t, code[0]) && AllSane(t, code[1..])
    ensures Code(t, code) == Bytes(t, code[0]) + Code(t, code[1..])
    ensures AllParsed(t, a, code) == [AsParsed(t, a, code[0])] + AllParsed(t, a, code[1..])
  {
  }

  lemma ProgramOfFirst(t: Target, a: Align, mem: seq<byte>, p: nat, i: Insn, rest: seq<byte>)
    requires Sane(t, i) && StandsAt(mem, p, Bytes(t, i) + rest)
    ensures var q, op := p + |Bytes(t, i)|, AsParsed(t, a, i);
            && StandsAt(mem, q, rest)
            && Program(t, a, mem, p, q + |rest|)
               == if op.Stop? || op.Unknown? then [op] else [op] + Program(t, a, mem, q, q + |rest|)
  {
    hide Decode, AsParsed, Bytes, Sane, StandsAt;
    Split(mem, p, Bytes(t, i), rest);
    DecodeEncoded(t, a, mem, p, i);
  }

  /** From a compiler's instructions to rows: if they nest remember and restore at most once, one
      slot and a stack give the same rows, as far as the parser understands the instructions. */
  lemma RowsOfCode(t: Target, a: Align, mem: seq<byte>, p: nat, code: seq<Insn>, loc: u32)
    requires AllSane(t, code) && StandsAt(mem, p, Code(t, code)) && NestsOnce(AllParsed(t, a, code), 0)
    ensures var f := InitialFrame(t);
            RowsSlot(t, Program(t, a, mem, p, p + |Code(t, code)|), loc, f, f)
            == RowsStack(t, AllParsed(t, a, code), loc, f, [])
  {
    ProgramOfCode(t, a, mem, p, code);
    RowsUpToEnd(t, AllParsed(t, a, code), loc, InitialFrame(t), InitialFrame(t));
    OneSlotIsEnough(t, AllParsed(t, a, code), loc);
  }
}
