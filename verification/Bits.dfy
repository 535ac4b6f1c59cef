/**
  Machine-word operations on natural numbers: powers of two, bitwise or, bit tests and
  the two's-complement casts the codec relies on.
 */
module Bits {

  const TWO31 := 0x8000_0000
  const TWO32 := 0x1_0000_0000
  const TWO63 := 0x8000_0000_0000_0000
  const TWO64 := 0x1_0000_0000_0000_0000

  function Pow2(k: nat): (p: int)
    ensures p >= 1
  {
    if k == 0 then 1 else 2 * Pow2(k - 1)
  }

  lemma {:induction false} Pow2Add(a: nat, b: nat)
    ensures Pow2(a + b) == Pow2(a) * Pow2(b)
  {
    if a == 0 {
    } else {
      Pow2Add(a - 1, b);
      assert Pow2(a + b) == 2 * Pow2((a - 1) + b);
    }
  }

  lemma {:induction false} Pow2Monotone(a: nat, b: nat)
    requires a <= b
    ensures Pow2(a) <= Pow2(b)
  {
    if a < b {
      Pow2Monotone(a, b - 1);
    }
  }

  lemma Pow2Plus7(k: nat)
    ensures Pow2(k + 7) == 128 * Pow2(k)
  {
    Pow2Add(7, k);
    assert Pow2(7) == 128;
  }

  /** Bitwise or of two unsigned words. */
  function Or(x: nat, y: nat): nat
    decreases x + y
  {
    if x == 0 && y == 0 then 0
    else (if x % 2 == 1 || y % 2 == 1 then 1 else 0) + 2 * Or(x / 2, y / 2)
  }

  /** Bit `k` of an unsigned word. */
  predicate Bit(w: nat, k: nat) {
    if k == 0 then w % 2 == 1 else Bit(w / 2, k - 1)
  }

  lemma {:induction false} OrZero(y: nat)
    ensures Or(0, y) == y
    decreases y
  {
    if y == 0 {
    } else {
      OrZero(y / 2);
    }
  }

  /** Or-ing in a word that is shifted past the bits already used is addition. */
  lemma {:induction false} OrDisjoint(x: nat, y: nat, k: nat)
    requires x < Pow2(k)
    ensures Or(x, y * Pow2(k)) == x + y * Pow2(k)
    decreases k
  {
    if k == 0 {
      OrZero(y);
    } else {
      var z := y * Pow2(k);
      assert z == 2 * (y * Pow2(k - 1));
      OrDisjoint(x / 2, y, k - 1);
      if x == 0 && z == 0 {
      } else {
        assert z / 2 == y * Pow2(k - 1) && z % 2 == 0;
      }
    }
  }

  lemma {:induction false} BitOr(x: nat, y: nat, k: nat)
    ensures Bit(Or(x, y), k) <==> Bit(x, k) || Bit(y, k)
    decreases k
  {
    if x == 0 && y == 0 {
      BitZero(k);
    } else {
      var o := Or(x, y);
      var low := if x % 2 == 1 || y % 2 == 1 then 1 else 0;
      assert o == low + 2 * Or(x / 2, y / 2);
      if k == 0 {
      } else {
        assert o / 2 == Or(x / 2, y / 2);
        BitOr(x / 2, y / 2, k - 1);
      }
    }
  }

  lemma {:induction false} BitZero(k: nat)
    ensures !Bit(0, k)
    decreases k
  {
    if k > 0 {
      BitZero(k - 1);
    }
  }

  lemma {:induction false} BitPow2(j: nat, k: nat)
    ensures Bit(Pow2(j), k) <==> j == k
    decreases k
  {
    if j == 0 {
      if k > 0 { BitZero(k - 1); }
    } else if k == 0 {
    } else {
      assert Pow2(j) / 2 == Pow2(j - 1);
      BitPow2(j - 1, k - 1);
    }
  }

  lemma {:induction false} OrBound(x: nat, y: nat, n: nat)
    requires x < Pow2(n) && y < Pow2(n)
    ensures Or(x, y) < Pow2(n)
    decreases n
  {
    if x == 0 && y == 0 {
    } else {
      OrBound(x / 2, y / 2, n - 1);
    }
  }

  lemma {:induction false} OnesBit(n: nat, k: nat)
    requires k < n
    ensures Bit(Pow2(n) - 1, k)
    decreases n
  {
    if k > 0 {
      assert (Pow2(n) - 1) / 2 == Pow2(n - 1) - 1;
      OnesBit(n - 1, k - 1);
    }
  }

  /** A word below 2^n in which each of the low n bits is set is 2^n - 1. */
  lemma {:induction false} AllOnes(w: nat, n: nat)
    requires w < Pow2(n)
    requires forall k: nat :: k < n ==> Bit(w, k)
    ensures w == Pow2(n) - 1
    decreases n
  {
    if n > 0 {
      assert Bit(w, 0);
      forall k: nat | k < n - 1 ensures Bit(w / 2, k) {
        assert Bit(w, k + 1);
      }
      AllOnes(w / 2, n - 1);
    }
  }

  lemma {:induction false} HighBitClear(w: nat, n: nat, k: nat)
    requires w < Pow2(n) && k >= n
    ensures !Bit(w, k)
    decreases n
  {
    if n == 0 {
      BitZero(k);
    } else {
      HighBitClear(w / 2, n - 1, k - 1);
    }
  }

  lemma MulAtLeast(a: int, m: int)
    requires a >= 1 && m >= 1
    ensures a * m >= m
  {
  }

  /** A quotient and a remainder in range are the quotient and the remainder. */
  lemma DivModUnique(x: int, q: int, r: int, m: int)
    requires m >= 1 && x == q * m + r && 0 <= r < m
    ensures x / m == q && x % m == r
  {
    var d := x / m;
    var e := x % m;
    assert x == d * m + e;
    assert (d - q) * m == d * m - q * m;
    assert (q - d) * m == q * m - d * m;
    if d > q {
      MulAtLeast(d - q, m);
    } else if d < q {
      MulAtLeast(q - d, m);
    }
  }

  lemma Widths()
    ensures Pow2(7) == 0x80 && Pow2(8) == 0x100 && Pow2(15) == 0x8000 && Pow2(16) == 0x1_0000
    ensures Pow2(31) == TWO31 && Pow2(32) == TWO32 && Pow2(63) == TWO63 && Pow2(64) == TWO64
  {
    assert Pow2(7) == 0x80 && Pow2(8) == 0x100;
    Pow2Add(7, 8);
    assert Pow2(15) == 0x8000 && Pow2(16) == 0x1_0000;
    Pow2Add(15, 16);
    assert Pow2(31) == TWO31 && Pow2(32) == 2 * Pow2(31);
    Pow2Add(31, 32);
    assert Pow2(63) == TWO63 && Pow2(64) == 2 * Pow2(63);
  }
}
