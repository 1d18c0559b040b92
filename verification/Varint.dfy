/** The variable-length integers of the recording format: seven bits per byte, least significant
    first, the top bit saying that more follows; a 64-bit value takes at most nine bytes, of which
    the ninth carries eight bits. This module has the encodings as values and their decoder;
    Buffer.dfy has the loops that write them. */
module Varint {

  import opened Words

  /** `b | 0x80`. */
  function OrMsb(b: byte): (r: byte)
    ensures r == b % 128 + 128
  {
    if b >= 128 then b else b + 128
  }

  /** (char)v | 0x80. */
  function More(v: nat): (r: byte)
    ensures r == v % 128 + 128
  {
    assert v % 256 % 128 == v % 128;
    OrMsb(v % 256)
  }

  /** One more than the largest value that fits in `k` bytes when the last one is full. */
  function Bound(k: nat): (b: nat)
    requires k >= 1
    ensures b >= 256
  {
    if k == 1 then 256 else 128 * Bound(k - 1)
  }

  lemma BoundNine()
    ensures Bound(9) == U64
  {
    assert Bound(3) == 128 * 128 * 256;
    assert Bound(6) == 128 * 128 * 128 * Bound(3);
  }

  /** The encoding of a value in at most `k` bytes. */
  function Enc(v: nat, k: nat): (s: seq<byte>)
    requires k >= 1 && v < Bound(k)
    ensures 1 <= |s| <= k
  {
    if k == 1 || v < 128 then [v] else [v % 128 + 128] + Enc(v / 128, k - 1)
  }

  function Var64(v: nat): (s: seq<byte>)
    requires v < U64
    ensures 1 <= |s| <= 9
  {
    BoundNine();
    Enc(v, 9)
  }

  /** The encoding without a bound on its length. */
  function Var32(v: nat): (s: seq<byte>)
    ensures |s| >= 1
  {
    if v < 128 then [v] else [v % 128 + 128] + Var32(v / 128)
  }

  datatype Decoded = Truncated | Value(value: nat, length: nat)

  /** Reading a value of at most `k` bytes from the front of `s`. */
  function Dec(s: seq<byte>, k: nat): (d: Decoded)
    requires k >= 1
    ensures d.Value? ==> 1 <= d.length <= k && d.length <= |s|
  {
    if |s| == 0 then Truncated
    else if k == 1 || s[0] < 128 then Value(s[0], 1)
    else
      match Dec(s[1..], k - 1)
      case Truncated => Truncated
      case Value(v, n) => Value(s[0] - 128 + 128 * v, n + 1)
  }

  /** Decoding returns the value and consumes exactly its bytes, whatever follows. */
  lemma {:induction false} RoundTrip(v: nat, k: nat, rest: seq<byte>)
    requires k >= 1 && v < Bound(k)
    ensures Dec(Enc(v, k) + rest, k) == Value(v, |Enc(v, k)|)
  {
    if k > 1 && v >= 128 {
      RoundTrip(v / 128, k - 1, rest);
      assert (Enc(v, k) + rest)[1..] == Enc(v / 128, k - 1) + rest;
    }
  }

  lemma Var64RoundTrip(v: nat, rest: seq<byte>)
    requires v < U64
    ensures Dec(Var64(v) + rest, 9) == Value(v, |Var64(v)|)
  {
    BoundNine();
    RoundTrip(v, 9, rest);
  }

  /** No byte string that decodes to the value is shorter than its encoding. */
  lemma {:induction false} EncIsShortest(v: nat, k: nat, s: seq<byte>)
    requires k >= 1 && v < Bound(k) && Dec(s, k).Value? && Dec(s, k).value == v
    ensures |Enc(v, k)| <= Dec(s, k).length
  {
    if k > 1 && v >= 128 {
      assert Dec(s[1..], k - 1).value == v / 128;
      EncIsShortest(v / 128, k - 1, s[1..]);
    }
  }

  lemma Var64IsShortest(v: nat, s: seq<byte>)
    requires v < U64 && Dec(s, 9).Value? && Dec(s, 9).value == v
    ensures |Var64(v)| <= Dec(s, 9).length <= 9
  {
    BoundNine();
    EncIsShortest(v, 9, s);
  }

  /** While the last byte is not needed in full, the two encodings agree. */
  lemma {:induction false} EncIsVar32(v: nat, k: nat)
    requires k >= 1 && 2 * v < Bound(k)
    ensures Enc(v, k) == Var32(v)
    ensures |Var32(v)| <= k
  {
    if k > 1 && v >= 128 {
      EncIsVar32(v / 128, k - 1);
    }
  }

  /** Values below 2^32 have the same bytes in both forms, at most five of them. */
  lemma SameBytes(v: nat)
    requires v < U32
    ensures Var64(v) == Var32(v) && |Var32(v)| <= 5
    ensures v < 128 ==> |Var32(v)| == 1
  {
    BoundNine();
    EncIsVar32(v, 9);
    assert Bound(3) == 128 * 128 * 256;
    assert Bound(5) == 128 * 128 * Bound(3);
    EncIsVar32(v, 5);
  }

  /** The agreement stops exactly where the ninth byte has to be full. */
  lemma SameBytesIff(v: nat)
    requires v < U64
    ensures Var64(v) == Var32(v) <==> v < 0x8000_0000_0000_0000
  {
    BoundNine();
    if 2 * v < U64 {
      EncIsVar32(v, 9);
    } else {
      LongerVar32(v, 9);
    }
  }

  lemma {:induction false} LongerVar32(v: nat, k: nat)
    requires k >= 1 && 2 * v >= Bound(k)
    ensures |Var32(v)| > k
  {
    if k > 1 {
      LongerVar32(v / 128, k - 1);
    }
  }

  /** The five bytes that putVar32(offset, v) writes over a reserved space. */
  function Padded32(v: nat): (s: seq<byte>)
    requires v < U32
    ensures |s| == 5
  {
    [More(v), More(v / 0x80), More(v / 0x4000), More(v / 0x20_0000), v / 0x1000_0000 % 256]
  }

  /** The padded form reads back as the same value and always takes five bytes. */
  lemma PaddedRoundTrip(v: nat, rest: seq<byte>)
    requires v < U32
    ensures Dec(Padded32(v) + rest, 9) == Value(v, 5)
  {
    var a, b, c, d: nat := v / 0x80, v / 0x4000, v / 0x20_0000, v / 0x1000_0000;
    assert a / 128 == b && b / 128 == c && c / 128 == d < 128;
    var s4: seq<byte> := [d] + rest;
    assert Dec(s4, 5) == Value(d, 1);
    assert Padded32(v) + rest == [More(v)] + ([More(a)] + ([More(b)] + ([More(c)] + s4)));
    hide Dec, More, Padded32;
    MoreStep(c, s4, 6, 1);
    MoreStep(b, [More(c)] + s4, 7, 2);
    MoreStep(a, [More(b)] + ([More(c)] + s4), 8, 3);
    MoreStep(v, [More(a)] + ([More(b)] + ([More(c)] + s4)), 9, 4);
  }

  lemma MoreStep(v: nat, s: seq<byte>, k: nat, n: nat)
    requires k > 1 && Dec(s, k - 1) == Value(v / 128, n)
    ensures Dec([More(v)] + s, k) == Value(v, n + 1)
  {
    assert ([More(v)] + s)[1..] == s;
  }
}
