/** Powers of two and bitwise operations on natural numbers, bit by bit. */
module Bits {

  function Pow2(k: nat): (p: nat)
    ensures p > 0
  {
    if k == 0 then 1 else 2 * Pow2(k - 1)
  }

  lemma {:induction false} Pow2Monotone(j: nat, k: nat)
    requires j <= k
    ensures Pow2(j) <= Pow2(k)
    decreases k
  {
    if j < k {
      Pow2Monotone(j, k - 1);
    }
  }

  lemma {:induction false} Pow2Sum(j: nat, k: nat)
    ensures Pow2(j + k) == Pow2(j) * Pow2(k)
  {
    if j > 0 {
      Pow2Sum(j - 1, k);
      assert Pow2(j) * Pow2(k) == 2 * (Pow2(j - 1) * Pow2(k));
    }
  }

  /** Bit `i` of `w`. */
  predicate Bit(w: nat, i: nat) {
    if i == 0 then w % 2 == 1 else Bit(w / 2, i - 1)
  }

  function And(x: nat, y: nat): nat {
    if x == 0 || y == 0 then 0
    else (if x % 2 == 1 && y % 2 == 1 then 1 else 0) + 2 * And(x / 2, y / 2)
  }

  function Or(x: nat, y: nat): nat
    decreases x + y
  {
    if x == 0 then y
    else if y == 0 then x
    else (if x % 2 == 1 || y % 2 == 1 then 1 else 0) + 2 * Or(x / 2, y / 2)
  }

  /** Or-ing something in above the bits in use is adding it. */
  lemma {:induction false} OrAbove(x: nat, y: nat, k: nat)
    requires x < Pow2(k)
    ensures Or(x, y * Pow2(k)) == x + y * Pow2(k)
  {
    if k > 0 && x > 0 && y > 0 {
      var p := Pow2(k - 1);
      OrAbove(x / 2, y, k - 1);
      assert Pow2(k) == 2 * p && p > 0;
      hide Pow2, Or;
      MulAtLeast(y, p);
      Double(y, p);
      OrStep(x, y * p);
    }
  }

  lemma Double(y: nat, p: nat)
    ensures y * (2 * p) == 2 * (y * p)
  {
  }

  lemma OrStep(x: nat, z: nat)
    requires x > 0 && z > 0
    ensures Or(x, 2 * z) == x % 2 + 2 * Or(x / 2, z)
  {
    assert (2 * z) / 2 == z && (2 * z) % 2 == 0;
  }

  /** Masking with 2^k - 1 keeps the remainder modulo 2^k. */
  lemma {:induction false} MaskIsRemainder(x: nat, k: nat)
    ensures And(x, Pow2(k) - 1) == x % Pow2(k)
    decreases k
  {
    if k == 0 {
      assert x % 1 == 0;
    } else {
      var p, y := Pow2(k - 1), x / 2;
      assert Pow2(k) == 2 * p;
      MaskIsRemainder(y, k - 1);
      hide Pow2, And;
      HalfRemainder(x, p);
      MaskStep(x, p);
      var r := y % p;
      assert And(y, p - 1) == r;
    }
  }

  lemma MaskStep(x: nat, p: nat)
    requires p > 0
    ensures And(x, 2 * p - 1) == x % 2 + 2 * And(x / 2, p - 1)
  {
    assert (2 * p - 1) / 2 == p - 1 && (2 * p - 1) % 2 == 1;
  }

  lemma HalfRemainder(x: nat, p: nat)
    requires p > 0
    ensures x % (2 * p) == x % 2 + 2 * ((x / 2) % p)
  {
    var q, r := (x / 2) / p, (x / 2) % p;
    DivMod(x / 2, p);
    assert q * (2 * p) == 2 * (q * p);
    RemainderUnique(x, 2 * p, q, x % 2 + 2 * r);
  }

  lemma MulAtLeast(k: int, d: int)
    requires k >= 1 && d >= 0
    ensures k * d >= d
  {
    assert (k - 1) * d >= 0;
  }

  lemma DivMod(x: int, d: int)
    requires d > 0
    ensures x == (x / d) * d + x % d && 0 <= x % d < d
  {
  }

  lemma SameMultiple(a: int, b: int, d: int)
    requires d > 0 && -d < (a - b) * d < d
    ensures a == b
  {
    if a > b {
      MulAtLeast(a - b, d);
    } else if a < b {
      MulAtLeast(b - a, d);
    }
  }

  /** Quotient and remainder are determined by their defining equation. */
  lemma RemainderUnique(x: int, d: int, q: int, r: int)
    requires d > 0 && x == q * d + r && 0 <= r < d
    ensures x % d == r && x / d == q
  {
    DivMod(x, d);
    assert (q - x / d) * d == q * d - (x / d) * d;
    SameMultiple(q, x / d, d);
  }

  /** Adding a multiple of the divisor keeps the remainder. */
  lemma RemainderShift(x: int, d: int, q: int)
    requires d > 0
    ensures (x + q * d) % d == x % d
  {
    DivMod(x, d);
    assert (x / d + q) * d == (x / d) * d + q * d;
    RemainderUnique(x + q * d, d, x / d + q, x % d);
  }

  /** The remainder, as a function of its own so that proofs can treat it as a symbol. */
  function Rem(x: nat, d: nat): (r: nat)
    requires d > 0
    ensures r < d
  {
    DivMod(x, d);
    x % d
  }

  function Quot(x: nat, d: nat): nat
    requires d > 0
  {
    x / d
  }

  function Times(a: nat, b: nat): nat { a * b }

  lemma RemainderAdd(x: nat, y: nat, d: nat)
    requires d > 0
    ensures Rem(Rem(x, d) + y, d) == Rem(x + y, d)
  {
    DivMod(x, d);
    RemainderShift(x % d + y, d, x / d);
  }

  lemma TimesMonotone(n: nat, a: nat, b: nat)
    requires a <= b
    ensures Times(n, a) <= Times(n, b)
  {
    assert n * b == n * a + n * (b - a);
  }

  lemma RemSmall(x: nat, d: nat)
    requires x < d
    ensures Rem(x, d) == x
  {
  }

  // ---------------------------------------------------------------------------------------
  // Bit by bit
  // ---------------------------------------------------------------------------------------

  lemma BitOfZero(k: nat)
    ensures !Bit(0, k)
  {
  }

  lemma {:induction false} BitOfOr(x: nat, y: nat, k: nat)
    ensures Bit(Or(x, y), k) <==> Bit(x, k) || Bit(y, k)
    decreases k
  {
    BitOfZero(k);
    if x != 0 && y != 0 {
      var z := Or(x, y);
      assert z / 2 == Or(x / 2, y / 2);
      assert z % 2 == 1 <==> x % 2 == 1 || y % 2 == 1;
      if k > 0 {
        BitOfOr(x / 2, y / 2, k - 1);
      }
    }
  }

  lemma {:induction false} BitOfAnd(x: nat, y: nat, k: nat)
    ensures Bit(And(x, y), k) <==> Bit(x, k) && Bit(y, k)
    decreases k
  {
    BitOfZero(k);
    if x != 0 && y != 0 {
      var z := And(x, y);
      assert z / 2 == And(x / 2, y / 2);
      assert z % 2 == 1 <==> x % 2 == 1 && y % 2 == 1;
      if k > 0 {
        BitOfAnd(x / 2, y / 2, k - 1);
      }
    }
  }

  lemma {:induction false} BitOfPow2(i: nat, k: nat)
    ensures Bit(Pow2(i), k) <==> i == k
  {
    if i == 0 {
      BitOfZero(if k > 0 then k - 1 else 0);
    } else {
      var p := Pow2(i - 1);
      assert Pow2(i) == 2 * p && Pow2(i) / 2 == p;
      if k > 0 {
        BitOfPow2(i - 1, k - 1);
      }
    }
  }

  /** All bits below `n` flipped. */
  function Complement(x: nat, n: nat): nat
    requires x < Pow2(n)
  {
    Pow2(n) - 1 - x
  }

  lemma {:induction false} BitOfComplement(x: nat, n: nat, k: nat)
    requires x < Pow2(n) && k < n
    ensures Bit(Complement(x, n), k) <==> !Bit(x, k)
  {
    var y := Complement(x, n);
    var p := Pow2(n - 1);
    assert y == 2 * p - 1 - x;
    assert y % 2 == 1 <==> x % 2 == 0;
    if k > 0 {
      assert y / 2 == p - 1 - x / 2;
      BitOfComplement(x / 2, n - 1, k - 1);
    }
  }

  lemma {:induction false} NoHighBits(x: nat, n: nat, k: nat)
    requires x < Pow2(n) && n <= k
    ensures !Bit(x, k)
  {
    if n == 0 {
      BitOfZero(k);
    } else {
      NoHighBits(x / 2, n - 1, k - 1);
    }
  }

  /** A nonzero number has its lowest set bit here. */
  function Ctz(w: nat): (k: nat)
    requires w > 0
    ensures Bit(w, k)
  {
    if w % 2 == 1 then 0 else 1 + Ctz(w / 2)
  }

  lemma {:induction false} CtzIsLowest(w: nat, k: nat)
    requires w > 0 && k < Ctz(w)
    ensures !Bit(w, k)
  {
    if k > 0 {
      CtzIsLowest(w / 2, k - 1);
    }
  }

  /** w & (w - 1) clears the lowest set bit and no other. */
  lemma {:induction false} ClearLowest(w: nat, k: nat)
    requires w > 0
    ensures Bit(And(w, w - 1), k) <==> Bit(w, k) && k != Ctz(w)
    decreases w
  {
    BitOfAnd(w, w - 1, k);
    if w % 2 == 1 {
      assert (w - 1) / 2 == w / 2 && (w - 1) % 2 == 0;
    } else if k > 0 {
      assert (w - 1) / 2 == w / 2 - 1;
      BitOfAnd(w / 2, w / 2 - 1, k - 1);
      ClearLowest(w / 2, k - 1);
    }
  }

  lemma {:induction false} AndAtMost(x: nat, y: nat)
    ensures And(x, y) <= x && And(x, y) <= y
  {
    if x != 0 && y != 0 {
      AndAtMost(x / 2, y / 2);
    }
  }

  lemma {:induction false} OrBelow(x: nat, y: nat, n: nat)
    requires x < Pow2(n) && y < Pow2(n)
    ensures Or(x, y) < Pow2(n)
  {
    if x != 0 && y != 0 {
      OrBelow(x / 2, y / 2, n - 1);
    }
  }

  /** Testing one bit with a mask. */
  lemma {:induction false} TestBit(w: nat, i: nat)
    ensures And(w, Pow2(i)) != 0 <==> Bit(w, i)
  {
    if w == 0 {
      BitOfZero(i);
    } else if i > 0 {
      var p := Pow2(i - 1);
      assert Pow2(i) == 2 * p && Pow2(i) / 2 == p;
      TestBit(w / 2, i - 1);
    } else {
      assert And(w, 1) == w % 2 + 2 * And(w / 2, 0);
    }
  }
}
