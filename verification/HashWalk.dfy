/** Which bits of a key's hash choose its row at each level of the dictionary: the hash is rotated by the
    row bits from level to level, so level `l` uses the row bits from position `l * rowBits` on, around
    the 32-bit word. */
module HashWalk {
  import opened Bits
  import opened DictTree

  lemma {:induction false} BitAbove(x: nat, y: nat, s: nat, k: nat)
    requires x < Pow2(s)
    ensures Bit(x + y * Pow2(s), k) <==> if k < s then Bit(x, k) else Bit(y, k - s)
    decreases s
  {
    if s > 0 {
      var p := Pow2(s - 1);
      assert Pow2(s) == 2 * p;
      HalfOfSum(x, y, p);
      hide Pow2;
      if k > 0 {
        BitAbove(x / 2, y, s - 1, k - 1);
      }
    }
  }

  lemma HalfOfSum(x: nat, y: nat, p: nat)
    ensures y * (2 * p) == 2 * (y * p)
    ensures var w := x + y * (2 * p); w % 2 == x % 2 && w / 2 == x / 2 + y * p
  {
    Double(y, p);
  }

  lemma Parts(h: nat, b: nat)
    requires h < Pow2(32) && b <= 32
    ensures var n := Pow2(b);
            && h == Rem(h, n) + Quot(h, n) * n && Rem(h, n) < n && Quot(h, n) < Pow2(32 - b)
  {
    var n, m := Pow2(b), Pow2(32 - b);
    DivMod(h, n);
    Pow2Sum(b, 32 - b);
    if Quot(h, n) >= m {
      MulLarger(Quot(h, n), m, n);
    }
  }

  lemma MulLarger(q: nat, m: nat, n: nat)
    requires q >= m
    ensures q * n >= n * m
  {
    assert q * n == m * n + (q - m) * n;
  }

  /** Rotating moves every bit down by the row bits, the lowest ones to the top. */
  lemma RotateBits(cfg: Config, h: nat, k: nat)
    requires cfg.rowBits <= 32 && h < Pow2(32) && k < 32
    ensures Rotate(cfg, h) < Pow2(32)
    ensures Bit(Rotate(cfg, h), k) <==> Bit(h, (k + cfg.rowBits) % 32)
  {
    var b := cfg.rowBits;
    var low, high, j, w := Rem(h, Pow2(b)), Quot(h, Pow2(b)), (k + b) % 32, Rotate(cfg, h);
    assert j == if k + b < 32 then k + b else k + b - 32;
    RotateParts(cfg, h);
    hide *;
    BitOfComposed(w, high, low, 32 - b, k);
    BitOfComposed(h, low, high, b, j);
    if k + b < 32 {
      assert j - b == k;
    } else {
      assert k - (32 - b) == j;
    }
  }

  /** `w` has `x` in its low `s` bits and `y` above. */
  predicate Composed(w: nat, x: nat, y: nat, s: nat) {
    w == x + y * Pow2(s) && x < Pow2(s)
  }

  lemma BitOfComposed(w: nat, x: nat, y: nat, s: nat, k: nat)
    requires Composed(w, x, y, s)
    ensures Bit(w, k) <==> if k < s then Bit(x, k) else Bit(y, k - s)
  {
    BitAbove(x, y, s, k);
  }

  lemma RotateParts(cfg: Config, h: nat)
    requires cfg.rowBits <= 32 && h < Pow2(32)
    ensures var n, m := Pow2(cfg.rowBits), Pow2(32 - cfg.rowBits);
            var low, high := Rem(h, n), Quot(h, n);
            && Composed(h, low, high, cfg.rowBits) && Composed(Rotate(cfg, h), high, low, 32 - cfg.rowBits)
            && Rotate(cfg, h) < Pow2(32) && low < n && high < m
  {
    var n, m := Pow2(cfg.rowBits), Pow2(32 - cfg.rowBits);
    Parts(h, cfg.rowBits);
    Pow2Sum(32 - cfg.rowBits, cfg.rowBits);
    TopFits(Quot(h, n), Rem(h, n), m, n);
    hide Pow2, Rem, Quot;
  }

  lemma TopFits(high: nat, low: nat, m: nat, n: nat)
    requires high < m && low < n
    ensures high + low * m < m * n
  {
    assert m * n == low * m + (n - low) * m;
    MulAtLeast(n - low, m);
  }

  lemma {:induction false} HashBits(cfg: Config, key: Key, level: nat, k: nat)
    requires cfg.rowBits <= 32 && cfg.hash(key) < Pow2(32) && k < 32
    ensures HashAt(cfg, key, level) < Pow2(32)
    ensures Bit(HashAt(cfg, key, level), k) <==> Bit(cfg.hash(key), (k + level * cfg.rowBits) % 32)
  {
    hide Pow2, Rotate;
    if level > 0 {
      var k' := (k + cfg.rowBits) % 32;
      HashBits(cfg, key, level - 1, k');
      RotateBits(cfg, HashAt(cfg, key, level - 1), k);
      assert (k' + (level - 1) * cfg.rowBits) % 32 == (k + level * cfg.rowBits) % 32 by {
        Around(k, cfg.rowBits, level);
      }
    }
  }

  lemma Around(k: nat, b: nat, level: nat)
    requires level > 0
    ensures ((k + b) % 32 + (level - 1) * b) % 32 == (k + level * b) % 32
  {
    assert level * b == b + (level - 1) * b;
    var rest := (level - 1) * b;
    RemainderShift((k + b) % 32 + rest, 32, (k + b) / 32);
    DivMod(k + b, 32);
  }

  /** The row of a key at a level is made of these bits of its hash, and no others. */
  lemma RowBits(cfg: Config, key: Key, level: nat, k: nat)
    requires cfg.rowBits <= 32 && cfg.hash(key) < Pow2(32)
    ensures Bit(RowAt(cfg, key, level), k)
        <==> k < cfg.rowBits && Bit(cfg.hash(key), (k + level * cfg.rowBits) % 32)
  {
    var b, h := cfg.rowBits, HashAt(cfg, key, level);
    if k < b {
      HashBits(cfg, key, level, k);
      Parts(h, b);
      assert Composed(h, Rem(h, Pow2(b)), Quot(h, Pow2(b)), b);
      hide Pow2, Rem, Quot, HashAt, Bit, Composed;
      BitOfComposed(h, Rem(h, Pow2(b)), Quot(h, Pow2(b)), b, k);
    } else {
      hide Pow2, HashAt, Rem, Bit;
      NoHighBits(Rem(h, Pow2(b)), b, k);
    }
  }
}
