/** What parseExpression of dwarf.cpp computes. The parser has two variables, one for a value
    relative to the pc and one for the last constant; section 2.5 of DWARF 5 has a stack. This module
    has both and says exactly for which expressions over a pc-relative base they agree. */
module ExpressionStack {
  import opened Words
  import opened Bits
  import opened Leb128
  import opened Cfi

  /** The operations the parser knows: the pc plus an offset, a constant, and two operators. */
  datatype Term = Base(off: int32) | Number(v: int32) | Plus | Minus

  datatype Read = Bad | Good(term: Term, next: nat)

  function TermAt(t: Target, mem: seq<byte>, p: nat): (r: Read)
    ensures r.Good? ==> r.next > p
  {
    var b, q := At(mem, p), p + 1;
    if b == 0x70 + t.regPc then Good(Base(S(mem, q)), LebEnd(mem, q))
    else
      match b
      case 0x08 => Good(Number(At(mem, q)), q + 1)
      case 0x09 => Good(Number(SignedByte(At(mem, q))), q + 1)
      case 0x0a => Good(Number(Word16(mem, q)), q + 2)
      case 0x0b => Good(Number(SignedWord(Word16(mem, q))), q + 2)
      case 0x0c => Good(Number(Int32(Word32(mem, q))), q + 4)
      case 0x0d => Good(Number(Int32(Word32(mem, q))), q + 4)
      case 0x10 => Good(Number(Int32(U(mem, q))), LebEnd(mem, q))
      case 0x11 => Good(Number(S(mem, q)), LebEnd(mem, q))
      case 0x1c => Good(Minus, q)
      case 0x22 => Good(Plus, q)
      case _ => Bad
  }

  /** The terms between two positions, if all are known. */
  function Terms(t: Target, mem: seq<byte>, p: nat, end: nat): Option<seq<Term>>
    decreases end - p
  {
    if p >= end then Some([])
    else
      match TermAt(t, mem, p)
      case Bad => None
      case Good(term, next) =>
        match Terms(t, mem, next, end)
        case None => None
        case Some(rest) => Some([term] + rest)
  }

  /** The two variables of the parser. */
  function Accumulate(terms: seq<Term>, pcOff: int32, last: int32): int32 {
    if terms == [] then pcOff
    else
      match terms[0]
      case Base(off) => Accumulate(terms[1..], off, last)
      case Number(v) => Accumulate(terms[1..], pcOff, v)
      case Plus => Accumulate(terms[1..], Int32(pcOff + last), last)
      case Minus => Accumulate(terms[1..], Int32(pcOff - last), last)
  }

  /** parseExpression accumulates the terms; an unknown operation makes the value 0. */
  lemma {:induction false} ExpressionAccumulates(t: Target, mem: seq<byte>, p: nat, end: nat, pcOff: int32, last: int32)
    ensures var terms := Terms(t, mem, p, end);
            Expression(t, mem, p, end, pcOff, last).off == if terms.Some? then Accumulate(terms.value, pcOff,
                last) else 0
    decreases end - p
  {
    if p < end {
      var r := TermAt(t, mem, p);
      if r.Good? {
        hide At, Uleb, Sleb, LebEnd, Word16, Word32;
        match r.term {
          case Base(off) => ExpressionAccumulates(t, mem, r.next, end, off, last);
          case Number(v) => ExpressionAccumulates(t, mem, r.next, end, pcOff, v);
          case Plus => ExpressionAccumulates(t, mem, r.next, end, Int32(pcOff + last), last);
          case Minus => ExpressionAccumulates(t, mem, r.next, end, Int32(pcOff - last), last);
        }
        var rest := Terms(t, mem, r.next, end);
        if rest.Some? {
          assert ([r.term] + rest.value)[1..] == rest.value;
        }
      }
    }
  }

  // ---------------------------------------------------------------------------------------
  // The stack of section 2.5
  // ---------------------------------------------------------------------------------------

  /** So many times the pc, plus an offset, in 32 bits. */
  datatype Value = Value(pcs: int, off: int32)

  function Evaluate(terms: seq<Term>, stack: seq<Value>): Option<seq<Value>> {
    if terms == [] then Some(stack)
    else
      match terms[0]
      case Base(off) => Evaluate(terms[1..], stack + [Value(1, off)])
      case Number(v) => Evaluate(terms[1..], stack + [Value(0, v)])
      case op =>
        if |stack| < 2 then None
        else
          var n := |stack| - 2;
          Evaluate(terms[1..], stack[..n] + [Combined(op, stack[n], stack[n + 1])])
  }

  function Combined(op: Term, a: Value, b: Value): Value
    requires op.Plus? || op.Minus?
  {
    if op.Plus? then Value(a.pcs + b.pcs, Int32(a.off + b.off)) else Value(a.pcs - b.pcs, Int32(a.off - b.off))
  }

  /** Constants and operators that never lack an operand and leave one value over a base. */
  predicate Complete(terms: seq<Term>, depth: nat) {
    if terms == [] then depth == 1
    else if terms[0].Number? then Complete(terms[1..], depth + 1)
    else if terms[0].Base? then false
    else depth >= 2 && Complete(terms[1..], depth - 1)
  }

  /** A constant and an operator, again and again. */
  predicate Pairs(terms: seq<Term>) {
    terms == []
    || (|terms| >= 2 && terms[0].Number? && (terms[1].Plus? || terms[1].Minus?) && Pairs(terms[2..]))
  }

  /** The same operations with other operands. */
  predicate SameShape(a: seq<Term>, b: seq<Term>) {
    |a| == |b| && forall i :: 0 <= i < |a| ==> SameKind(a[i], b[i])
  }

  predicate SameKind(x: Term, y: Term) {
    (x.Base? <==> y.Base?) && (x.Number? <==> y.Number?) && (x.Plus? <==> y.Plus?)
  }

  /** The variables of the parser have the value of the expression, relative to the pc. */
  predicate Agrees(base: int32, terms: seq<Term>) {
    Evaluate([Base(base)] + terms, []) == Some([Value(1, Accumulate([Base(base)] + terms, 0, 0))])
  }

  lemma BaseFirst(base: int32, terms: seq<Term>)
    ensures Evaluate([Base(base)] + terms, []) == Evaluate(terms, [Value(1, base)])
    ensures Accumulate([Base(base)] + terms, 0, 0) == Accumulate(terms, base, 0)
  {
    assert ([Base(base)] + terms)[1..] == terms;
    assert [] + [Value(1, base)] == [Value(1, base)];
  }

  lemma EvaluateTwo(n: Term, op: Term, terms: seq<Term>, a: Value, last: int32)
    requires n.Number? && (op.Plus? || op.Minus?)
    ensures Evaluate([n, op] + terms, [a]) == Evaluate(terms, [Combined(op, a, Value(0, n.v))])
    ensures Accumulate([n, op] + terms, a.off, last)
            == Accumulate(terms, Combined(op, a, Value(0, n.v)).off, n.v)
  {
    var all := [n, op] + terms;
    assert all[1..] == [op] + terms && all[1..][1..] == terms;
    assert [a] + [Value(0, n.v)] == [a, Value(0, n.v)];
    assert [a, Value(0, n.v)][..0] + [Combined(op, a, Value(0, n.v))] == [Combined(op, a, Value(0, n.v))];
    assert Evaluate(all[1..], [a, Value(0, n.v)]) == Evaluate(terms, [Combined(op, a, Value(0, n.v))]);
    assert Accumulate(all[1..], a.off, n.v) == Accumulate(terms, Combined(op, a, Value(0, n.v)).off, n.v);
  }

  lemma {:induction false} PairsAgree(terms: seq<Term>, off: int32, last: int32)
    requires Pairs(terms)
    ensures Evaluate(terms, [Value(1, off)]) == Some([Value(1, Accumulate(terms, off, last))])
  {
    if terms != [] {
      var n, op, rest := terms[0], terms[1], terms[2..];
      EvaluateTwo(n, op, rest, Value(1, off), last);
      PairsAgree(rest, Combined(op, Value(1, off), Value(0, n.v)).off, n.v);
      assert terms == [n, op] + rest;
    }
  }

  lemma {:induction false} ShapeKeepsPairs(terms: seq<Term>, shape: seq<Term>)
    requires SameShape(terms, shape) && Pairs(shape)
    ensures Pairs(terms)
  {
    if shape != [] {
      assert SameKind(terms[0], shape[0]) && SameKind(terms[1], shape[1]);
      ShapeKeepsPairs(terms[2..], shape[2..]);
    }
  }

  // ---------------------------------------------------------------------------------------
  // Two constants in a row
  // ---------------------------------------------------------------------------------------

  /** All constants 0. */
  function Zeros(terms: seq<Term>): (z: seq<Term>)
    ensures |z| == |terms|
    ensures forall i :: 0 <= i < |terms| ==> z[i] == if terms[i].Number? then Number(0) else terms[i]
  {
    seq(|terms|, i requires 0 <= i < |terms| => if terms[i].Number? then Number(0) else terms[i])
  }

  /** All constants 0, except the first that another constant follows, which is 1. */
  function OneOdd(shape: seq<Term>): seq<Term> {
    if |shape| >= 2 && shape[0].Number? && !shape[1].Number? then [Number(0), shape[1]] + OneOdd(shape[2..])
    else if shape == [] then []
    else [Number(1)] + Zeros(shape[1..])
  }

  lemma {:induction false} OneOddShape(shape: seq<Term>)
    requires Complete(shape, 1)
    ensures SameShape(OneOdd(shape), shape)
  {
    if shape != [] && |shape| >= 2 && !shape[1].Number? {
      OneOddShape(shape[2..]);
      var tail := OneOdd(shape[2..]);
      forall i | 0 <= i < |shape| ensures SameKind(([Number(0), shape[1]] + tail)[i], shape[i]) {
        if i >= 2 {
          assert SameKind(tail[i - 2], shape[2..][i - 2]);
        }
      }
    }
  }

  function Sum(stack: seq<Value>): int {
    if stack == [] then 0 else Sum(stack[..|stack| - 1]) + stack[|stack| - 1].off
  }

  lemma SumPush(stack: seq<Value>, v: Value)
    ensures Sum(stack + [v]) == Sum(stack) + v.off
  {
    assert (stack + [v])[..|stack|] == stack;
  }

  /** Operators keep the parity of the sum of the stack. */
  lemma CombineParity(op: Term, front: seq<Value>, a: Value, b: Value)
    requires op.Plus? || op.Minus?
    ensures Sum(front + [Combined(op, a, b)]) % 2 == Sum(front + [a] + [b]) % 2
  {
    hide Sum, Int32;
    SumPush(front, Combined(op, a, b));
    SumPush(front, a);
    SumPush(front + [a], b);
    var x: int, y: int, z: int := Sum(front), a.off, b.off;
    Int32Parity(y + z);
    Int32Parity(y - z);
  }

  lemma Int32Parity(x: int)
    ensures Int32(x) % 2 == x % 2
  {
    DivMod(x + 0x8000_0000, U32);
  }

  lemma {:induction false} ZerosKeepParity(terms: seq<Term>, stack: seq<Value>)
    requires Complete(terms, |stack|)
    ensures var r := Evaluate(Zeros(terms), stack);
            r.Some? && |r.value| == 1 && Sum(r.value) % 2 == Sum(stack) % 2
    decreases |terms|
  {
    if terms != [] {
      var rest := terms[1..];
      assert Zeros(terms)[1..] == Zeros(rest);
      EvaluateStep(Zeros(terms), stack);
      hide Evaluate, Sum, Zeros, Combined;
      if terms[0].Number? {
        SumPush(stack, Value(0, 0));
        ZerosKeepParity(rest, stack + [Value(0, 0)]);
      } else {
        var n := |stack| - 2;
        CombineTop(terms[0], stack);
        ZerosKeepParity(rest, stack[..n] + [Combined(terms[0], stack[n], stack[n + 1])]);
      }
    }
  }

  lemma EvaluateStep(terms: seq<Term>, stack: seq<Value>)
    requires terms != []
    ensures var op, rest, r, n := terms[0], terms[1..], Evaluate(terms, stack), |stack| - 2;
            if op.Base? then r == Evaluate(rest, stack + [Value(1, op.off)])
            else if op.Number? then r == Evaluate(rest, stack + [Value(0, op.v)])
            else if n < 0 then r.None?
            else r == Evaluate(rest, stack[..n] + [Combined(op, stack[n], stack[n + 1])])
  {
  }

  lemma CombineTop(op: Term, stack: seq<Value>)
    requires (op.Plus? || op.Minus?) && |stack| >= 2
    ensures var n := |stack| - 2;
            Sum(stack[..n] + [Combined(op, stack[n], stack[n + 1])]) % 2 == Sum(stack) % 2
  {
    hide Sum, Combined;
    var n := |stack| - 2;
    var front, a, b := stack[..n], stack[n], stack[n + 1];
    assert front + [a] + [b] == stack;
    CombineParity(op, front, a, b);
  }

  lemma {:induction false} ZerosAccumulate(terms: seq<Term>, off: int32)
    requires forall i :: 0 <= i < |terms| ==> !terms[i].Base?
    ensures Accumulate(Zeros(terms), off, 0) == off
  {
    if terms != [] {
      assert Zeros(terms)[1..] == Zeros(terms[1..]);
      ZerosAccumulate(terms[1..], off);
    }
  }

  lemma {:induction false} CompleteHasNoBase(terms: seq<Term>, depth: nat)
    requires Complete(terms, depth)
    ensures forall i :: 0 <= i < |terms| ==> !terms[i].Base?
  {
    if terms != [] {
      CompleteHasNoBase(terms[1..], if terms[0].Number? then depth + 1 else depth - 1);
      forall i | 0 <= i < |terms| ensures !terms[i].Base? {
        if i > 0 {
          assert terms[i] == terms[1..][i - 1];
        }
      }
    }
  }

  /** The odd constant is lost to the parser but not to the stack. */
  lemma {:induction false} OneOddDiffers(shape: seq<Term>, off: int32)
    requires Complete(shape, 1) && !Pairs(shape)
    ensures Evaluate(OneOdd(shape), [Value(1, off)]) != Some([Value(1, Accumulate(OneOdd(shape), off, 0))])
    decreases |shape|
  {
    var odd := OneOdd(shape);
    if !shape[1].Number? {
      var rest := shape[2..];
      EvaluateTwo(Number(0), shape[1], OneOdd(rest), Value(1, off), 0);
      OneOddDiffers(rest, off);
    } else {
      var rest := shape[1..];
      assert odd[1..] == Zeros(rest);
      var stack := [Value(1, off)] + [Value(0, 1)];
      SumPush([], Value(1, off));
      SumPush([Value(1, off)], Value(0, 1));
      assert [] + [Value(1, off)] == [Value(1, off)];
      ZerosKeepParity(rest, stack);
      LostAtOnce(rest, off);
      assert Evaluate(odd, [Value(1, off)]) == Evaluate(Zeros(rest), stack);
      SumPush([], Value(1, Accumulate(odd, off, 0)));
      assert [] + [Value(1, Accumulate(odd, off, 0))] == [Value(1, Accumulate(odd, off, 0))];
    }
  }

  lemma LostAtOnce(rest: seq<Term>, off: int32)
    requires Complete(rest, 2) && rest != [] && rest[0].Number?
    ensures Accumulate([Number(1)] + Zeros(rest), off, 0) == off
  {
    var z := Zeros(rest);
    assert ([Number(1)] + z)[1..] == z;
    assert z[1..] == Zeros(rest[1..]);
    CompleteHasNoBase(rest, 2);
    ZerosAccumulate(rest[1..], off);
  }

  /** Exactly for which expressions over a base the parser is right: all expressions of a shape that
      leaves one value have the value the parser accumulates if and only if the shape is a constant
      and an operator, again and again. */
  lemma ParserEvaluatesPairs(shape: seq<Term>)
    requires Complete(shape, 1)
    ensures (forall base: int32, terms: seq<Term> :: SameShape(terms, shape) ==> Agrees(base, terms)) <==> Pairs(shape)
  {
    if Pairs(shape) {
      forall base: int32, terms: seq<Term> | SameShape(terms, shape) ensures Agrees(base, terms) {
        ShapeKeepsPairs(terms, shape);
        PairsAgree(terms, base, 0);
        BaseFirst(base, terms);
      }
    } else {
      OneOddShape(shape);
      OneOddDiffers(shape, 0);
      BaseFirst(0, OneOdd(shape));
      assert !Agrees(0, OneOdd(shape));
    }
  }
}
