/**
 Bits of naturals, counted from the lowest: what a hash table directory is addressed by.
 */
module HashBits {

  function Pow2(n: nat): (p: nat)
    ensures p >= 1
  {
    if n == 0 then 1 else 2 * Pow2(n - 1)
  }

  // Bit n of x: whether x & (1 << n) is not zero.
  predicate Bit(x: nat, n: nat) {
    if n == 0 then x % 2 == 1 else Bit(x / 2, n - 1)
  }

  // x and y have the same d low bits.
  ghost predicate Agree(x: nat, y: nat, d: nat) {
    forall n: nat :: n < d ==> Bit(x, n) == Bit(y, n)
  }

  // The d low bits of x: x & ((1 << d) - 1).
  function Low(x: nat, d: nat): (r: nat)
    ensures r < Pow2(d)
  {
    x % Pow2(d)
  }

  lemma AgreeHalf(x: nat, y: nat, d: nat)
    requires d > 0
    ensures Agree(x, y, d) <==> x % 2 == y % 2 && Agree(x / 2, y / 2, d - 1)
  {
    if Agree(x, y, d) {
      assert Bit(x, 0) == Bit(y, 0);
      forall n: nat | n < d - 1 ensures Bit(x / 2, n) == Bit(y / 2, n) {
        assert Bit(x, n + 1) == Bit(y, n + 1);
      }
    }
    if x % 2 == y % 2 && Agree(x / 2, y / 2, d - 1) {
      forall n: nat | n < d ensures Bit(x, n) == Bit(y, n) {
        if n > 0 {
          assert Bit(x / 2, n - 1) == Bit(y / 2, n - 1);
        }
      }
    }
  }

  lemma LowHalf(x: nat, d: nat)
    requires d > 0
    ensures Low(x, d) % 2 == x % 2 && Low(x, d) / 2 == Low(x / 2, d - 1)
  {
    var p, q := Pow2(d - 1), x / (2 * Pow2(d - 1));
    var r := x % (2 * p);
    assert x == 2 * p * q + r;
    assert x / 2 == p * q + r / 2;
    Quotient(x / 2, p, q, r / 2);
  }

  lemma AtLeast(p: int, d: int)
    requires p >= 0
    ensures d >= 1 ==> p * d >= p
    ensures d <= -1 ==> p * d <= -p
  {
    if d >= 1 {
      assert p * (d - 1) >= 0;
    } else if d <= -1 {
      assert p * (-1 - d) >= 0;
    }
  }

  lemma Quotient(x: nat, p: nat, q: nat, r: nat)
    requires p > 0 && r < p && x == p * q + r
    ensures x % p == r
  {
    var q2, r2 := x / p, x % p;
    AtLeast(p, q2 - q);
    assert p * (q2 - q) == p * q2 - p * q == r - r2;
  }

  lemma {:induction false} LowAgrees(x: nat, d: nat)
    ensures Agree(Low(x, d), x, d)
  {
    if d > 0 {
      LowHalf(x, d);
      LowAgrees(x / 2, d - 1);
      AgreeHalf(Low(x, d), x, d);
    }
  }

  // Numbers of d bits that agree on all of them are equal.
  lemma {:induction false} AgreeSame(x: nat, y: nat, d: nat)
    requires x < Pow2(d) && y < Pow2(d) && Agree(x, y, d)
    ensures x == y
  {
    if d > 0 {
      AgreeHalf(x, y, d);
      AgreeSame(x / 2, y / 2, d - 1);
    }
  }

  lemma AgreeMore(x: nat, y: nat, d: nat)
    ensures Agree(x, y, d + 1) <==> Agree(x, y, d) && Bit(x, d) == Bit(y, d)
  {
    if Agree(x, y, d + 1) {
      assert Bit(x, d) == Bit(y, d);
    }
  }

  // The upper half of a doubled directory repeats the lower half, with the next bit set.
  lemma {:induction false} UpperHalf(x: nat, d: nat)
    requires Pow2(d) <= x < 2 * Pow2(d)
    ensures Agree(x, x - Pow2(d), d) && Bit(x, d)
  {
    if d > 0 {
      UpperHalf(x / 2, d - 1);
      AgreeHalf(x, x - Pow2(d), d);
    }
  }

  // The number that differs from x in bit d alone.
  function Flip(x: nat, d: nat): nat {
    if d == 0 then (if x % 2 == 1 then x - 1 else x + 1) else 2 * Flip(x / 2, d - 1) + x % 2
  }

  lemma {:induction false} FlipsBit(x: nat, d: nat, g: nat)
    requires x < Pow2(g) && d < g
    ensures Flip(x, d) < Pow2(g) && Agree(x, Flip(x, d), d) && Bit(Flip(x, d), d) != Bit(x, d)
  {
    if d > 0 {
      FlipsBit(x / 2, d - 1, g - 1);
      AgreeHalf(x, Flip(x, d), d);
    }
  }
}
