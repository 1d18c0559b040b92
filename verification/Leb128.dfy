/** The LEB128 readers of dwarf.h, against section 7.6 of DWARF 5. Memory is a sequence of bytes;
    bytes past its end read as zero. */
module Leb128 {
  import opened Words
  import opened Bits
  import opened Varint

  function At(mem: seq<byte>, p: nat): byte {
    if p < |mem| then mem[p] else 0
  }

  /** The unsigned number at `p`: seven bits per byte, least significant first. */
  function Uleb(mem: seq<byte>, p: nat): nat
    decreases |mem| - p
  {
    if At(mem, p) < 128 then At(mem, p) else At(mem, p) - 128 + 128 * Uleb(mem, p + 1)
  }

  /** The signed number at `p`: the sign is bit 6 of the last byte. */
  function Sleb(mem: seq<byte>, p: nat): int
    decreases |mem| - p
  {
    if At(mem, p) < 64 then At(mem, p)
    else if At(mem, p) < 128 then At(mem, p) - 128
    else At(mem, p) - 128 + 128 * Sleb(mem, p + 1)
  }

  /** The position after the number at `p`. */
  function LebEnd(mem: seq<byte>, p: nat): (q: nat)
    ensures p < q
    decreases |mem| - p
  {
    if At(mem, p) < 128 then p + 1 else LebEnd(mem, p + 1)
  }

  /** b & 0x7f */
  function Low7(b: byte): (x: nat)
    ensures x < 128
  {
    b % 128
  }

  lemma LebStep(mem: seq<byte>, p: nat)
    ensures var b := At(mem, p);
            && Uleb(mem, p) == Low7(b) + 128 * (if b < 128 then 0 else Uleb(mem, p + 1))
            && Sleb(mem, p) == Low7(b) + 128 * (if b < 64 then 0 else if b < 128 then -1 else Sleb(mem, p + 1))
            && LebEnd(mem, p) == (if b < 128 then p + 1 else LebEnd(mem, p + 1))
            && (p >= |mem| ==> b < 128)
  {
  }

  // ---------------------------------------------------------------------------------------
  // 32-bit arithmetic
  // ---------------------------------------------------------------------------------------

  /** x << s in 32 bits. A shift by 32 or more, which the language leaves undefined, gives 0. */
  function Shl32(x: nat, s: nat): (r: nat)
    ensures r < U32
  {
    (x * Pow2(s)) % U32
  }

  lemma Pow2Is32()
    ensures Pow2(32) == U32
  {
    assert Pow2(8) == 256;
    Pow2Sum(8, 8);
    Pow2Sum(16, 16);
  }

  lemma ShiftMod(x: nat, p: nat, q: nat)
    requires p > 0 && q > 0
    ensures (x * p) % (p * q) == (x % q) * p && p * q > 0 && (x % q) * p <= p * q - p
  {
    DivMod(x, q);
    var a, r := x / q, x % q;
    Distribute(a, q, r, p);
    MulAtLeast(p, q);
    assert q * p == p * q;
    Last(p, q, r);
    RemainderUnique(x * p, p * q, a, r * p);
  }

  lemma Distribute(a: int, q: int, r: int, p: int)
    ensures (a * q + r) * p == a * (p * q) + r * p
  {
  }

  lemma Last(p: nat, q: nat, r: nat)
    requires r < q
    ensures r * p <= p * q - p
  {
    MulMonotone(r, q - 1, p);
    Distribute(q - 1, 1, 1, p);
    assert ((q - 1) * 1 + 1) * p == q * p == p * q;
  }

  lemma {:induction false} MulMonotone(k: nat, n: nat, p: nat)
    requires k <= n
    ensures k * p <= n * p
    decreases n
  {
    if k < n {
      MulMonotone(k, n - 1, p);
      assert n * p == (n - 1) * p + p;
    }
  }

  /** A shifted value in 32 bits is a multiple of 2^s that leaves room for s more bits. */
  lemma ShlMultiple(x: nat, s: nat) returns (k: nat)
    ensures Shl32(x, s) == k * Pow2(s) && (s <= 32 ==> Shl32(x, s) + Pow2(s) <= U32)
    ensures k <= x
  {
    if s < 32 {
      Pow2Is32();
      Pow2Sum(s, 32 - s);
      var p, q := Pow2(s), Pow2(32 - s);
      k := x % q;
      hide Pow2;
      ShiftMod(x, p, q);
      RemAtMost(x, q);
    } else {
      ShlZero(x, s);
      if s == 32 {
        Pow2Is32();
      }
      k := 0;
    }
  }

  lemma RemAtMost(x: nat, q: nat)
    requires q > 0
    ensures x % q <= x
  {
    if x < q {
      RemainderUnique(x, q, 0, x);
    } else {
      DivMod(x, q);
    }
  }

  /** One step of the readers: or-ing in seven more bits. */
  lemma OrSeven(result: nat, x: nat, s: nat)
    requires x < 128 && result < Pow2(s) && result < U32
    ensures Or(result, Shl32(x, s)) == result + Shl32(x, s) < U32
    ensures Or(result, Shl32(x, s)) < Pow2(s + 7)
  {
    var k := ShlMultiple(x, s);
    OrAbove(result, k, s);
    Pow2Sum(7, s);
    assert Pow2(7) == 128;
    var p, y := Pow2(s), Shl32(x, s);
    hide Pow2, Shl32, Or;
    MulMonotone(k, 127, p);
    if s > 32 {
      ShlZero(x, s);
    }
  }

  lemma ShlZero(x: nat, s: nat)
    requires s >= 32
    ensures Shl32(x, s) == 0
  {
    Pow2Is32();
    Pow2Sum(32, s - 32);
    var y := x * Pow2(s - 32);
    assert x * Pow2(s) == y * U32;
    RemainderShift(0, U32, y);
  }

  /** What has been read plus what is still to come, modulo 2^32. */
  ghost function Reading(result: nat, s: nat, rest: int): nat {
    U32Of(result + Pow2(s) * rest)
  }

  lemma ReadSeven(result: nat, x: nat, s: nat, rest: int)
    ensures Reading(result, s, x + 128 * rest) == Reading(result + Shl32(x, s), s + 7, rest)
  {
    Pow2Sum(7, s);
    assert Pow2(7) == 128;
    var p := Pow2(s);
    assert Pow2(s + 7) == 128 * p;
    hide Pow2;
    var z, xp := p * rest, x * p;
    Distribute(128, rest, x, p);
    assert p * (x + 128 * rest) == 128 * z + xp;
    Distribute(128, p, 0, rest);
    assert (128 * p) * rest == 128 * z;
    Fold(result + 128 * z, xp);
  }

  lemma Fold(y: int, z: nat)
    ensures U32Of(y + z) == U32Of(y + z % U32)
  {
    DivMod(z, U32);
    RemainderShift(y + z % U32, U32, z / U32);
  }

  // ---------------------------------------------------------------------------------------
  // The readers
  // ---------------------------------------------------------------------------------------

  class Reader {
    const mem: seq<byte>
    var ptr: nat

    constructor (mem: seq<byte>)
      ensures this.mem == mem && ptr == 0
    {
      this.mem := mem;
      ptr := 0;
    }

    method Get8() returns (b: byte)
      modifies this
      ensures b == At(mem, old(ptr)) && ptr == old(ptr) + 1
    {
      b := At(mem, ptr);
      ptr := ptr + 1;
    }

    /** Little-endian. */
    method Get16() returns (v: nat)
      modifies this
      ensures v == Word16(mem, old(ptr)) && ptr == old(ptr) + 2
    {
      v := Word16(mem, ptr);
      ptr := ptr + 2;
    }

    method Get32() returns (v: nat)
      modifies this
      ensures v == Word32(mem, old(ptr)) && ptr == old(ptr) + 4
    {
      v := Word32(mem, ptr);
      ptr := ptr + 4;
    }

    /** getLeb */
    method GetLeb() returns (result: nat)
      modifies this
      ensures result == U32Of(Uleb(mem, old(ptr))) && ptr == LebEnd(mem, old(ptr))
    {
      result := 0;
      var shift: nat := 0;
      hide U32Of, Shl32, Pow2, Or, Reading, Low7, Uleb, LebEnd;
      ReadNothing(Uleb(mem, ptr));
      while true
        invariant result < U32 && result < Pow2(shift)
        invariant Reading(result, shift, Uleb(mem, ptr)) == U32Of(Uleb(mem, old(ptr)))
        invariant LebEnd(mem, ptr) == LebEnd(mem, old(ptr))
        decreases |mem| - ptr
      {
        LebStep(mem, ptr);
        var b := Get8();
        OrSeven(result, Low7(b), shift);
        ReadSeven(result, Low7(b), shift, if b < 128 then 0 else Uleb(mem, ptr));
        result := Or(result, Shl32(Low7(b), shift));
        if b < 128 {
          ReadAll(result, shift + 7);
          return;
        }
        shift := shift + 7;
      }
    }

    /** getSLeb: the sign bit of the last byte is extended, unless 32 bits are complete. */
    method GetSLeb() returns (v: int)
      modifies this
      ensures v == Int32(Sleb(mem, old(ptr))) && ptr == LebEnd(mem, old(ptr))
    {
      var result: nat, shift: nat := 0, 0;
      hide U32Of, Shl32, Pow2, Or, Reading, Low7, Int32, Sleb, LebEnd;
      ReadNothing(Sleb(mem, ptr));
      while true
        invariant result < U32 && result < Pow2(shift)
        invariant Reading(result, shift, Sleb(mem, ptr)) == U32Of(Sleb(mem, old(ptr)))
        invariant LebEnd(mem, ptr) == LebEnd(mem, old(ptr))
        decreases |mem| - ptr
      {
        LebStep(mem, ptr);
        var b := Get8();
        OrSeven(result, Low7(b), shift);
        ReadSeven(result, Low7(b), shift, if b < 64 then 0 else if b < 128 then -1 else Sleb(mem, ptr));
        result := Or(result, Shl32(Low7(b), shift));
        shift := shift + 7;
        if b < 128 {
          ReadAll(result, shift);
          if b >= 64 && shift < 32 {
            SignExtend(result, shift);
            result := Or(result, Shl32(U32 - 1, shift));
          } else if b >= 64 {
            NothingAbove(result, shift);
          }
          SameSigned(result, Sleb(mem, old(ptr)));
          return Int32(result);
        }
      }
    }

    /** skipLeb */
    method SkipLeb()
      modifies this
      ensures ptr == LebEnd(mem, old(ptr))
    {
      var b := Get8();
      while b >= 128
        invariant ptr > 0 && b == At(mem, ptr - 1)
        invariant (if b >= 128 then LebEnd(mem, ptr) else ptr) == LebEnd(mem, old(ptr))
        decreases |mem| + 1 - ptr
      {
        b := Get8();
      }
    }
  }

  function Word16(mem: seq<byte>, p: nat): (v: nat)
    ensures v < 0x1_0000
  {
    var a: nat, b: nat := At(mem, p), At(mem, p + 1);
    a + 256 * b
  }

  function Word32(mem: seq<byte>, p: nat): (v: nat)
    ensures v < U32
  {
    Word16(mem, p) + 0x1_0000 * Word16(mem, p + 2)
  }

  /** Or-ing in all ones above bit `s` subtracts 2^s in 32 bits. */
  lemma SignExtend(result: nat, s: nat)
    requires result < Pow2(s) && s < 32
    ensures Or(result, Shl32(U32 - 1, s)) < U32
    ensures U32Of(Or(result, Shl32(U32 - 1, s))) == Reading(result, s, -1)
  {
    ShlOnes(s);
    var k := ShlMultiple(U32 - 1, s);
    OrAbove(result, k, s);
    var p := Pow2(s);
    hide Pow2, Or, Shl32;
    RemainderShift(result - p, U32, 1);
  }

  lemma ShlOnes(s: nat)
    requires s < 32
    ensures Shl32(U32 - 1, s) == U32 - Pow2(s)
  {
    Pow2Is32();
    Pow2Monotone(s, 31);
    assert Pow2(32) == 2 * Pow2(31);
    var p := Pow2(s);
    assert p <= 0x8000_0000;
    hide Pow2;
    assert (U32 - 1) * p == (p - 1) * U32 + (U32 - p);
    RemainderUnique((U32 - 1) * p, U32, p - 1, U32 - p);
  }

  lemma ReadNothing(v: int)
    ensures Reading(0, 0, v) == U32Of(v) && Pow2(0) == 1
  {
  }

  lemma ReadAll(result: nat, s: nat)
    requires result < U32
    ensures Reading(result, s, 0) == U32Of(result) == result
  {
  }

  lemma SameSigned(x: int, y: int)
    requires U32Of(x) == U32Of(y)
    ensures Int32(x) == Int32(y)
  {
  }

  lemma NothingAbove(result: nat, s: nat)
    requires s >= 32
    ensures Reading(result, s, -1) == U32Of(result)
  {
    Pow2Is32();
    Pow2Sum(32, s - 32);
    var q := Pow2(s - 32);
    assert Pow2(s) * -1 == -q * U32;
    RemainderShift(result, U32, -q);
  }

  // ---------------------------------------------------------------------------------------
  // Against the encoders
  // ---------------------------------------------------------------------------------------

  /** The signed encoding of section 7.6: the shortest one whose last byte has the sign. */
  function SlebBytes(v: int): (s: seq<byte>)
    ensures |s| >= 1
    decreases if v >= 0 then v else -v
  {
    if 0 <= v < 64 then [v]
    else if -64 <= v < 0 then [v + 128]
    else [v % 128 + 128] + SlebBytes(v / 128)
  }

  lemma AtTail(b: byte, s: seq<byte>, p: nat)
    ensures At([b] + s, p + 1) == At(s, p)
  {
  }

  /** A number is read the same after a byte is put in front of it. */
  lemma {:induction false} UlebTail(b: byte, s: seq<byte>, p: nat)
    ensures Uleb([b] + s, p + 1) == Uleb(s, p) && LebEnd([b] + s, p + 1) == LebEnd(s, p) + 1
    ensures Sleb([b] + s, p + 1) == Sleb(s, p)
    decreases |s| - p
  {
    AtTail(b, s, p);
    if At(s, p) >= 128 {
      UlebTail(b, s, p + 1);
    }
  }

  /** getLeb inverts the minimal encoding. */
  lemma {:induction false} UlebOfVar32(v: nat, rest: seq<byte>)
    ensures Uleb(Var32(v) + rest, 0) == v && LebEnd(Var32(v) + rest, 0) == |Var32(v)|
  {
    if v >= 128 {
      UlebOfVar32(v / 128, rest);
      var tail := Var32(v / 128) + rest;
      assert Var32(v) + rest == [v % 128 + 128] + tail;
      UlebTail(v % 128 + 128, tail, 0);
    }
  }

  /** getLeb inverts the padded five-byte encoding. */
  lemma UlebOfPadded(v: nat, rest: seq<byte>)
    requires v < U32
    ensures Uleb(Padded32(v) + rest, 0) == v && LebEnd(Padded32(v) + rest, 0) == 5
  {
    var a, b, c, d: nat := v / 0x80, v / 0x4000, v / 0x20_0000, v / 0x1000_0000;
    var s4: seq<byte> := [d] + rest;
    UlebMore(c, s4, 1);
    UlebMore(b, [More(c)] + s4, 2);
    UlebMore(a, [More(b)] + ([More(c)] + s4), 3);
    UlebMore(v, [More(a)] + ([More(b)] + ([More(c)] + s4)), 4);
    assert Padded32(v) + rest == [More(v)] + ([More(a)] + ([More(b)] + ([More(c)] + s4)));
  }

  lemma UlebMore(v: nat, s: seq<byte>, n: nat)
    requires Uleb(s, 0) == v / 128 && LebEnd(s, 0) == n
    ensures Uleb([More(v)] + s, 0) == v && LebEnd([More(v)] + s, 0) == n + 1
  {
    UlebTail(More(v), s, 0);
  }

  /** getSLeb inverts the signed encoding, for every integer; those of 32 bits take at most five
      bytes. */
  lemma {:induction false} SlebOfBytes(v: int, rest: seq<byte>)
    ensures Sleb(SlebBytes(v) + rest, 0) == v && LebEnd(SlebBytes(v) + rest, 0) == |SlebBytes(v)|
    decreases if v >= 0 then v else -v
  {
    if v < -64 || v >= 64 {
      SlebOfBytes(v / 128, rest);
      var tail := SlebBytes(v / 128) + rest;
      assert SlebBytes(v) + rest == [v % 128 + 128] + tail;
      UlebTail(v % 128 + 128, tail, 0);
    }
  }

  lemma SlebLength(v: int)
    requires -0x8000_0000 <= v < 0x8000_0000
    ensures |SlebBytes(v)| <= 5
  {
    var a := v / 128;
    var b := a / 128;
    var c := b / 128;
    var d := c / 128;
    assert -64 <= d < 64;
    assert |SlebBytes(d)| == 1;
    assert |SlebBytes(c)| <= 2;
    assert |SlebBytes(b)| <= 3;
    assert |SlebBytes(a)| <= 4;
  }

  /** Every 32-bit value survives being written and read, in each of the three encodings. */
  lemma ReadersInvert(u: nat, v: int, rest: seq<byte>)
    requires u < U32 && -0x8000_0000 <= v < 0x8000_0000
    ensures U32Of(Uleb(Var32(u) + rest, 0)) == u && LebEnd(Var32(u) + rest, 0) == |Var32(u)| <= 5
    ensures U32Of(Uleb(Padded32(u) + rest, 0)) == u && LebEnd(Padded32(u) + rest, 0) == 5
    ensures Int32(Sleb(SlebBytes(v) + rest, 0)) == v && LebEnd(SlebBytes(v) + rest, 0) == |SlebBytes(v)| <= 5
  {
    hide Uleb, Sleb, LebEnd, Var32, Padded32, SlebBytes;
    assert U32Of(u) == u && Int32(v) == v;
    hide U32Of, Int32;
    UlebOfVar32(u, rest);
    UlebOfPadded(u, rest);
    SlebOfBytes(v, rest);
    SlebLength(v);
    SameBytes(u);
  }
}
