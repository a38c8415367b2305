/** C's bitwise operators on unsigned numbers of any width, bit by bit. */
module Bits {

  /** Bit k of x. */
  function Bit(x: nat, k: nat): bool {
    if k == 0 then x % 2 == 1 else Bit(x / 2, k - 1)
  }

  function Or(x: nat, y: nat): nat {
    if x == 0 && y == 0 then 0
    else 2 * Or(x / 2, y / 2) + (if x % 2 == 1 || y % 2 == 1 then 1 else 0)
  }

  function And(x: nat, y: nat): nat {
    if x == 0 then 0
    else 2 * And(x / 2, y / 2) + (if x % 2 == 1 && y % 2 == 1 then 1 else 0)
  }

  /** x & ~y */
  function AndNot(x: nat, y: nat): nat {
    if x == 0 then 0
    else 2 * AndNot(x / 2, y / 2) + (if x % 2 == 1 && y % 2 == 0 then 1 else 0)
  }

  /** 1 << k */
  function Shl1(k: nat): (r: nat)
    ensures r > 0
  {
    if k == 0 then 1 else 2 * Shl1(k - 1)
  }

  /** x >> k */
  function Shr(x: nat, k: nat): nat {
    if k == 0 then x else Shr(x / 2, k - 1)
  }

  lemma {:induction false} BitZero(k: nat)
    ensures !Bit(0, k)
  {
    if k > 0 { BitZero(k - 1); }
  }

  lemma {:induction false} BitOr(x: nat, y: nat, k: nat)
    ensures Bit(Or(x, y), k) <==> Bit(x, k) || Bit(y, k)
  {
    if x == 0 && y == 0 {
      BitZero(k);
    } else if k > 0 {
      BitOr(x / 2, y / 2, k - 1);
    }
  }

  lemma {:induction false} BitAndNot(x: nat, y: nat, k: nat)
    ensures Bit(AndNot(x, y), k) <==> Bit(x, k) && !Bit(y, k)
  {
    if x == 0 {
      BitZero(k);
    } else if k > 0 {
      BitAndNot(x / 2, y / 2, k - 1);
    }
  }

  lemma {:induction false} BitShl1(j: nat, k: nat)
    ensures Bit(Shl1(j), k) <==> j == k
  {
    if j > 0 && k > 0 {
      BitShl1(j - 1, k - 1);
    } else if k > 0 {
      BitZero(k - 1);
    }
  }

  /** Every nonzero number has a lowest bit. */
  lemma {:induction false} SomeBit(x: nat) returns (k: nat)
    requires x > 0
    ensures Bit(x, k) && forall j: nat :: j < k ==> !Bit(x, j)
    ensures forall w: nat :: x < Shl1(w) ==> k < w
  {
    if x % 2 == 1 {
      k := 0;
    } else {
      k := SomeBit(x / 2);
      k := k + 1;
      forall w: nat | x < Shl1(w)
        ensures k < w
      {
        assert w > 0;
        assert x / 2 < Shl1(w - 1);
      }
    }
  }

  // ---- powers of two ----

  predicate Pow2(n: nat) {
    n == 1 || (n > 1 && n % 2 == 0 && Pow2(n / 2))
  }

  lemma {:induction false} OrSame(m: nat)
    ensures Or(m, m) == m
  {
    if m > 0 { OrSame(m / 2); }
  }

  /** The test `(n | (n - 1)) + 1 == n << 1` recognises the powers of two. */
  lemma {:induction false} Pow2Test(n: nat)
    requires n > 0
    ensures Or(n, n - 1) + 1 == 2 * n <==> Pow2(n)
  {
    var m := n / 2;
    if n % 2 == 1 {
      OrSame(m);
      assert (n - 1) / 2 == m;
    } else {
      Pow2Test(m);
      assert (n - 1) / 2 == m - 1;
    }
  }

  lemma {:induction false} AndNotZero(x: nat)
    ensures AndNot(x, 0) == x
  {
    if x > 0 { AndNotZero(x / 2); }
  }

  /** `x & ~(n - 1)` rounds down to a multiple of a power of two. */
  lemma {:induction false} MaskRoundsDown(x: nat, n: nat)
    requires Pow2(n)
    ensures AndNot(x, n - 1) == x / n * n
  {
    if n == 1 {
      AndNotZero(x);
    } else if x > 0 {
      var m := n / 2;
      MaskRoundsDown(x / 2, m);
      assert (n - 1) / 2 == m - 1;
      Halves(x, m);
    } else {
      assert 0 / n == 0;
    }
  }

  lemma Halves(x: nat, m: nat)
    requires m > 0
    ensures x / 2 / m == x / (2 * m)
  {
    var q, r := x / 2 / m, x / 2 % m;
    assert x / 2 == q * m + r;
    assert x == q * (2 * m) + (2 * r + x % 2);
    Quotient(x, 2 * m, q, 2 * r + x % 2);
  }

  lemma Quotient(x: nat, d: nat, q: nat, r: nat)
    requires d > 0 && r < d && x == q * d + r
    ensures x / d == q && x % d == r
  {
    var k := x / d - q;
    assert x == (x / d) * d + x % d;
    assert k * d == r - x % d;
    Multiple(k, d);
  }

  lemma Multiple(k: int, d: int)
    requires d > 0
    ensures k >= 1 ==> k * d >= d
    ensures k <= -1 ==> k * d <= -d
  {
  }

  /** A power of two divides every larger one. */
  lemma {:induction false} Pow2Divides(n: nat, k: nat)
    requires Pow2(n) && n <= Shl1(k)
    ensures Shl1(k) % n == 0
  {
    if n > 1 {
      var m := n / 2;
      Pow2Divides(m, k - 1);
      var q := Shl1(k - 1) / m;
      assert Shl1(k - 1) == q * m;
      assert Shl1(k) == q * n;
      Quotient(q * n, n, q, 0);
    }
  }

  lemma RoundDown(x: nat, d: nat)
    requires d > 0
    ensures x / d * d <= x < x / d * d + d
    ensures x / d * d % d == 0
  {
    var q, r := x / d, x % d;
    assert x == q * d + r;
    Quotient(q * d, d, q, 0);
  }

  /** A power of two is a multiple of every smaller one. */
  lemma {:induction false} Pow2Multiple(n: nat, k: nat)
    requires Pow2(n) && Shl1(k) <= n
    ensures n % Shl1(k) == 0
  {
    if k > 0 {
      var m := Shl1(k - 1);
      Pow2Multiple(n / 2, k - 1);
      var q := n / 2 / m;
      assert n / 2 == q * m;
      assert n == q * (2 * m);
      Quotient(q * (2 * m), 2 * m, q, 0);
    }
  }

  /** Multiples of c do not matter modulo c. */
  lemma ModAdds(a: nat, k: nat, c: nat)
    requires c > 0
    ensures (a + k * c) % c == a % c
  {
    var q, r := a / c, a % c;
    assert a == q * c + r;
    assert a + k * c == (q + k) * c + r;
    Quotient(a + k * c, c, q + k, r);
  }

  lemma ModScales(z: nat, q: nat, p: nat)
    requires q > 0 && p > 0
    ensures q * p > 0 && (z * p) % (q * p) == z % q * p
  {
    var d, r := z / q, z % q;
    assert z == d * q + r;
    assert z * p == d * (q * p) + r * p;
    Scaled(r, q, p);
    Quotient(z * p, q * p, d, r * p);
  }

  lemma Scaled(r: nat, q: nat, p: nat)
    requires r < q && p > 0
    ensures r * p < q * p
  {
  }

  // ---- numbers as sets of bits ----

  lemma {:induction false} BitAnd(x: nat, y: nat, k: nat)
    ensures Bit(And(x, y), k) <==> Bit(x, k) && Bit(y, k)
  {
    if x == 0 {
      BitZero(k);
    } else if k > 0 {
      BitAnd(x / 2, y / 2, k - 1);
    }
  }

  /** A number is determined by its bits. */
  lemma {:induction false} SameBits(x: nat, y: nat)
    requires forall k: nat :: Bit(x, k) <==> Bit(y, k)
    ensures x == y
  {
    if x > 0 || y > 0 {
      assert Bit(x, 0) <==> Bit(y, 0);
      forall k: nat
        ensures Bit(x / 2, k) <==> Bit(y / 2, k)
      {
        assert Bit(x, k + 1) <==> Bit(y, k + 1);
      }
      SameBits(x / 2, y / 2);
    }
  }

  /** x has no bit that y has not. */
  predicate Within(x: nat, y: nat) {
    And(x, y) == x
  }

  lemma WithinBits(x: nat, y: nat)
    ensures Within(x, y) <==> forall k: nat :: Bit(x, k) ==> Bit(y, k)
  {
    if k: nat :| Bit(x, k) && !Bit(y, k) {
      BitAnd(x, y, k);
    } else {
      forall k: nat
        ensures Bit(And(x, y), k) <==> Bit(x, k)
      {
        BitAnd(x, y, k);
      }
      SameBits(And(x, y), x);
    }
  }

  lemma Common(x: nat, y: nat)
    ensures And(x, y) != 0 <==> exists k: nat :: Bit(x, k) && Bit(y, k)
  {
    if And(x, y) != 0 {
      var k := SomeBit(And(x, y));
      BitAnd(x, y, k);
    }
    if k: nat :| Bit(x, k) && Bit(y, k) {
      BitAnd(x, y, k);
      BitZero(k);
    }
  }

  /** y has every bit of x. */
  ghost predicate Covered(x: nat, y: nat) {
    forall k: nat :: Bit(x, k) ==> Bit(y, k)
  }

  lemma WithinCovered(x: nat, y: nat)
    ensures And(x, y) == x <==> Covered(x, y)
  {
    forall k: nat
      ensures Bit(And(x, y), k) <==> Bit(x, k) && Bit(y, k)
    {
      BitAnd(x, y, k);
    }
    if Covered(x, y) { SameBits(And(x, y), x); }
  }

  /** x and y have bit k both. */
  ghost predicate Share(x: nat, y: nat, k: nat) {
    Bit(x, k) && Bit(y, k)
  }

  lemma CommonBit(x: nat, y: nat)
    ensures And(x, y) != 0 <==> exists k: nat :: Share(x, y, k)
  {
    if And(x, y) != 0 {
      var k := SomeBit(And(x, y));
      BitAnd(x, y, k);
      assert Share(x, y, k);
    }
    if k: nat :| Share(x, y, k) {
      BitAnd(x, y, k);
      BitZero(k);
    }
  }

  lemma WithinTrans(x: nat, y: nat, z: nat)
    requires Within(x, y) && Within(y, z)
    ensures Within(x, z)
  {
    hide Within;
    WithinBits(x, y);
    WithinBits(y, z);
    WithinBits(x, z);
  }

  lemma WithinSelf(x: nat)
    ensures Within(x, x)
  {
    WithinBits(x, x);
  }

  lemma AndNotWithin(x: nat, y: nat)
    ensures Within(AndNot(x, y), x)
  {
    hide Within;
    WithinBits(AndNot(x, y), x);
    forall k: nat
      ensures Bit(AndNot(x, y), k) ==> Bit(x, k)
    {
      BitAndNot(x, y, k);
    }
  }

  lemma AndWithin(x: nat, y: nat)
    ensures Within(And(x, y), x) && Within(And(x, y), y)
  {
    hide Within;
    WithinBits(And(x, y), x);
    WithinBits(And(x, y), y);
    forall k: nat
      ensures Bit(And(x, y), k) ==> Bit(x, k) && Bit(y, k)
    {
      BitAnd(x, y, k);
    }
  }

  lemma AndMonotone(x: nat, y: nat, z: nat)
    requires Within(y, z) && And(x, y) != 0
    ensures And(x, z) != 0
  {
    hide Within;
    WithinBits(y, z);
    Common(x, y);
    Common(x, z);
  }

  /** What is within x without y has nothing of y. */
  lemma ClearedApart(x: nat, y: nat, z: nat)
    requires Within(z, AndNot(x, y))
    ensures And(y, z) == 0
  {
    hide Within, And, AndNot;
    WithinBits(z, AndNot(x, y));
    Common(y, z);
    forall k: nat
      ensures !(Bit(y, k) && Bit(z, k))
    {
      BitAndNot(x, y, k);
    }
  }

  lemma {:induction false} AndCommutes(x: nat, y: nat)
    ensures And(x, y) == And(y, x)
  {
    if x > 0 && y > 0 { AndCommutes(x / 2, y / 2); } else { AndZeroes(x, y); }
  }

  lemma {:induction false} AndZeroes(x: nat, y: nat)
    requires x == 0 || y == 0
    ensures And(x, y) == 0 && And(y, x) == 0
  {
    if x > 0 { AndZeroes(x / 2, y); }
    if y > 0 { AndZeroes(x, y / 2); }
  }
}
