/** Masking an address: bitwise "and" of naturals, and what clearing one bit does. */
module Bits {
  function Pow2(k: nat): (p: nat)
    ensures p > 0
  {
    if k == 0 then 1 else 2 * Pow2(k - 1)
  }

  function And(x: nat, y: nat): nat {
    if x == 0 || y == 0 then 0
    else 2 * And(x / 2, y / 2) + if x % 2 == 1 && y % 2 == 1 then 1 else 0
  }

  lemma {:induction false} AndOnes(x: nat, w: nat)
    requires x < Pow2(w)
    ensures And(x, Pow2(w) - 1) == x
    decreases w
  {
    if x > 0 {
      assert w > 0 && (Pow2(w) - 1) / 2 == Pow2(w - 1) - 1;
      AndOnes(x / 2, w - 1);
    }
  }

  lemma DivHalf(x: nat, p: nat)
    requires p > 0
    ensures x / 2 / p == x / (2 * p)
  {
    var q, r := x / 2 / p, x / 2 % p;
    assert x / 2 == q * p + r;
    assert x == (2 * p) * q + (2 * r + x % 2) by {
      assert (2 * p) * q == 2 * (q * p);
    }
    QuotientUnique(x, 2 * p, q, 2 * r + x % 2);
  }

  lemma QuotientUnique(x: nat, d: nat, q: nat, r: nat)
    requires d > 0 && x == d * q + r && r < d
    ensures x / d == q
  {
    var k := x / d - q;
    assert d * k == d * (x / d) - d * q;
    Small(d, k);
  }

  lemma Small(d: int, k: int)
    requires -d < d * k < d
    ensures k == 0
  {
  }

  lemma AndOdd(x: nat, m: nat)
    ensures And(x, 2 * m + 1) == 2 * And(x / 2, m) + x % 2
  {
    assert (2 * m + 1) / 2 == m && (2 * m + 1) % 2 == 1;
  }

  lemma AndEven(x: nat, m: nat)
    ensures And(x, 2 * m) == 2 * And(x / 2, m)
  {
    assert 2 * m / 2 == m && 2 * m % 2 == 0;
  }

  function Bit(x: nat, k: nat): nat { if k == 0 then x % 2 else Bit(x / 2, k - 1) }

  lemma {:induction false} BitIs(x: nat, k: nat)
    ensures Bit(x, k) == x / Pow2(k) % 2
    decreases k
  {
    if k > 0 {
      BitIs(x / 2, k - 1);
      DivHalf(x, Pow2(k - 1));
    }
  }

  lemma {:induction false} AndNotBitFrom(x: nat, k: nat, w: nat)
    requires k < w && x < Pow2(w) && Pow2(k) < Pow2(w)
    ensures And(x, Pow2(w) - 1 - Pow2(k)) == if Bit(x, k) == 1 then x - Pow2(k) else x
    decreases w
  {
    if k == 0 {
      AndEven(x, Pow2(w - 1) - 1);
      AndOnes(x / 2, w - 1);
    } else {
      AndNotBitFrom(x / 2, k - 1, w - 1);
      AndOdd(x, Pow2(w - 1) - 1 - Pow2(k - 1));
    }
  }

  /** A mask with bit `k` clear clears bit `k`. */
  lemma AndNotBit(x: nat, k: nat, w: nat)
    requires k < w && x < Pow2(w)
    ensures Pow2(k) < Pow2(w)
    ensures And(x, Pow2(w) - 1 - Pow2(k)) == if x / Pow2(k) % 2 == 1 then x - Pow2(k) else x
  {
    Pow2Less(k, w);
    AndNotBitFrom(x, k, w);
    BitIs(x, k);
  }

  lemma {:induction false} Pow2Less(k: nat, w: nat)
    requires k < w
    ensures Pow2(k) < Pow2(w) && 2 * Pow2(k) <= Pow2(w)
    decreases w
  {
    if k < w - 1 {
      Pow2Less(k, w - 1);
    }
  }

  lemma MultipleOf(x: nat, d: nat) returns (m: nat)
    requires d > 0 && x % d == 0
    ensures x == d * m
  {
    m := x / d;
  }

  lemma SizeBit(size: nat, m: nat, r: nat)
    requires size > 0 && r <= size
    ensures ((2 * size) * m + r) / size % 2 == 1 <==> r == size
  {
    var pos := (2 * size) * m + r;
    if r == size {
      assert pos == size * (2 * m + 1);
      QuotientUnique(pos, size, 2 * m + 1, 0);
    } else {
      assert pos == size * (2 * m) + r;
      QuotientUnique(pos, size, 2 * m, r);
    }
  }

  /** With a buffer aligned to twice its power-of-two size, clearing the size bit of a position at most one
  past the end brings just that one back to the beginning. */
  lemma AlignedWrap(buf: nat, k: nat, pos: nat, w: nat)
    requires k < w && buf % (2 * Pow2(k)) == 0
    requires buf <= pos <= buf + Pow2(k) && pos < Pow2(w)
    ensures Pow2(k) < Pow2(w)
    ensures And(pos, Pow2(w) - 1 - Pow2(k)) == if pos == buf + Pow2(k) then buf else pos
  {
    AndNotBit(pos, k, w);
    var m := MultipleOf(buf, 2 * Pow2(k));
    SizeBit(Pow2(k), m, pos - buf);
  }
}
