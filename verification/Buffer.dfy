/** The byte buffer of buffers.h: every put writes at the offset and advances it. The bounds are
    those the code asserts. */
module Buffer {
  import opened Words
  import opened Varint

  /** Network byte order. */
  function Big32(v: nat): (s: seq<byte>)
    requires v < U32
    ensures |s| == 4
  {
    [v / 256 / 256 / 256, v / 256 / 256 % 256, v / 256 % 256, v % 256]
  }

  function FromBig32(s: seq<byte>): nat
    requires |s| == 4
  {
    var a: nat, b: nat, c: nat, d: nat := s[0], s[1], s[2], s[3];
    ((a * 256 + b) * 256 + c) * 256 + d
  }

  lemma Big32RoundTrip(v: nat)
    requires v < U32
    ensures FromBig32(Big32(v)) == v
  {
    var x, y := v / 256, v / 256 / 256;
    assert y / 256 * 256 + y % 256 == y;
    assert y * 256 + x % 256 == x;
    assert x * 256 + v % 256 == v;
  }

  class Buffer {
    const data: array<byte>
    const limit: nat
    var offset: nat

    ghost predicate Valid()
      reads this
    {
      offset <= limit <= data.Length
    }

    ghost function Contents(): seq<byte>
      reads this, data
      requires Valid()
    {
      data[..offset]
    }

    constructor (limit: nat)
      ensures Valid() && this.limit == limit && fresh(data) && Contents() == []
    {
      data := new byte[limit](i => 0);
      this.limit := limit;
      offset := 0;
    }

    method Reset()
      requires Valid()
      modifies this
      ensures Valid() && Contents() == []
    {
      offset := 0;
    }

    /** Reserves bytes without writing them; returns the position before. */
    method Skip(delta: nat) returns (here: nat)
      requires Valid() && offset + delta < limit
      modifies this
      ensures Valid() && here == old(offset) && offset == here + delta
      ensures Contents()[..here] == old(Contents())
    {
      here := offset;
      offset := here + delta;
    }

    method Put8(v: byte)
      requires Valid() && offset < limit
      modifies this, data
      ensures Valid() && Contents() == old(Contents()) + [v] && offset == old(offset) + 1
      ensures forall i :: offset <= i < data.Length ==> data[i] == old(data[i])
    {
      data[offset] := v;
      offset := offset + 1;
    }

    /** Writing over a byte that was reserved. */
    method Put8At(at: nat, v: byte)
      requires Valid() && at < offset
      modifies data
      ensures Valid() && Contents() == old(Contents())[at := v]
    {
      data[at] := v;
    }

    method Put32(v: nat)
      requires Valid() && v < U32 && offset + 4 < limit
      modifies this, data
      ensures Valid() && Contents() == old(Contents()) + Big32(v) && offset == old(offset) + 4
    {
      Put8(v / 256 / 256 / 256);
      Put8(v / 256 / 256 % 256);
      Put8(v / 256 % 256);
      Put8(v % 256);
    }

    /** The minimal form. */
    method PutVar32(value: nat)
      requires Valid() && value < U32 && offset + 5 < limit
      modifies this, data
      ensures Valid() && Contents() == old(Contents()) + Var32(value)
    {
      SameBytes(value);
      var v := value;
      while v > 0x7f
        invariant Valid() && offset + |Var32(v)| == old(offset) + |Var32(value)|
        invariant Contents() + Var32(v) == old(Contents()) + Var32(value)
      {
        Put8(More(v));
        v := v / 128;
      }
      Put8(v);
    }

    /** The padded form, written over five reserved bytes. */
    method PutVar32At(at: nat, v: nat)
      requires Valid() && v < U32 && at + 5 <= offset
      modifies data
      ensures Valid() && Contents() == old(Contents())[..at] + Padded32(v) + old(Contents())[at + 5..]
    {
      data[at] := More(v);
      data[at + 1] := More(v / 0x80);
      data[at + 2] := More(v / 0x4000);
      data[at + 3] := More(v / 0x20_0000);
      data[at + 4] := v / 0x1000_0000 % 256;
    }

    /** The rest of an encoding is still to be written: what is there already and the encoding of
        `v` in at most `k` bytes make up `all`. */
    ghost predicate Owes(v: nat, k: nat, all: seq<byte>)
      reads this, data
    {
      Valid() && k >= 1 && v < Bound(k) && offset + k < limit && Contents() + Enc(v, k) == all
    }

    /** A byte that announces another. */
    method PutMore(v: nat, ghost k: nat, ghost all: seq<byte>)
      requires Owes(v, k, all) && k > 1 && v >= 128
      modifies this, data
      ensures Owes(v / 128, k - 1, all)
    {
      BoundNext(v, k);
      assert Enc(v, k) == [More(v)] + Enc(v / 128, k - 1);
      hide Bound, Enc, More;
      Put8(More(v));
    }

    method PutTwo(v: nat, ghost k: nat, ghost all: seq<byte>) returns (w: nat)
      requires Owes(v, k, all) && k > 2 && v >= 128 * 128
      modifies this, data
      ensures w == v / 128 / 128 && Owes(w, k - 2, all)
    {
      hide Owes;
      PutMore(v, k, all);
      PutMore(v / 128, k - 1, all);
      w := v / 128 / 128;
    }

    /** The byte that completes the value. */
    method PutLast(v: byte, ghost k: nat, ghost all: seq<byte>)
      requires Owes(v, k, all) && (k == 1 || v < 128)
      modifies this, data
      ensures Valid() && Contents() == all
    {
      Put8(v);
    }

    /** The 64-bit form, three bytes per turn while the value is long. After nine bytes there is
        nothing left to write; the ninth then carries eight bits, its top bit being set already. */
    method PutVar64(value: nat)
      requires Valid() && value < U64 && offset + 9 < limit
      modifies this, data
      ensures Valid() && Contents() == old(Contents()) + Var64(value)
    {
      BoundNine();
      ghost var all := Contents() + Var64(value);
      ghost var k: nat := 9;
      assert Owes(value, k, all);
      hide Owes, Enc, Var64, Bound, Contents, Valid, More;
      var v: nat, iter := value, 0;
      while v > 0x1fffff
        invariant 0 <= iter <= 2 && k == 9 - 3 * iter && Owes(v, k, all)
      {
        v := PutTwo(v, k, all);
        iter := iter + 1;
        if iter == 3 {
          NinthByte(this, v, all);
          PutLast(More(v), 1, all);
          return;
        }
        PutMore(v, k - 2, all);
        v := v / 128;
        k := k - 3;
      }
      ShortRest(v, k);
      while v > 0x7f
        invariant k >= 1 && 2 * v < Bound(k) && Owes(v, k, all)
      {
        BoundHalves(v, k);
        PutMore(v, k, all);
        v := v / 128;
        k := k - 1;
      }
      PutLast(v, k, all);
    }
  }

  lemma BoundNext(v: nat, k: nat)
    requires k > 1 && v < Bound(k)
    ensures v / 128 < Bound(k - 1)
  {
  }

  lemma BoundHalves(v: nat, k: nat)
    requires k >= 1 && v >= 128 && 2 * v < Bound(k)
    ensures k > 1 && 2 * (v / 128) < Bound(k - 1)
  {
  }

  lemma {:induction false} ShortRest(v: nat, k: nat)
    requires v <= 0x1fffff && k >= 3
    ensures 2 * v < Bound(k)
  {
    if k > 3 {
      ShortRest(v, k - 1);
    } else {
      assert Bound(3) == 128 * 128 * 256;
    }
  }

  /** The top bit of a full ninth byte is set already. */
  lemma NinthByte(b: Buffer, v: nat, all: seq<byte>)
    requires b.Owes(v, 1, all) && v >= 128
    ensures v < 256 && More(v) == v
  {
  }
}
