/** Powers of two, quotients and remainders, and bitwise OR on natural numbers. */
module Bits {

  function Pow2(n: nat): (p: nat)
    ensures p > 0
  {
    if n == 0 then 1 else 2 * Pow2(n - 1)
  }

  function Or(a: nat, b: nat): nat
    decreases a + b
  {
    if a == 0 && b == 0 then 0
    else (if a % 2 == 1 || b % 2 == 1 then 1 else 0) + 2 * Or(a / 2, b / 2)
  }

  lemma {:induction false} OrZero(a: nat)
    ensures Or(a, 0) == a
  {
    if a != 0 {
      OrZero(a / 2);
    }
  }

  /** Where one operand has only zeros below bit `n` and the other only zeros above, OR is addition. */
  lemma {:induction false} OrDisjoint(k: nat, b: nat, n: nat)
    requires b < Pow2(n)
    ensures Or(k * Pow2(n), b) == k * Pow2(n) + b
    decreases n
  {
    if n == 0 {
      OrZero(k);
    } else {
      assert k * Pow2(n) == 2 * (k * Pow2(n - 1));
      OrDisjoint(k, b / 2, n - 1);
    }
  }

  lemma {:induction false} MulStep(p: nat, q: int, q': int)
    requires q < q' && p > 0
    ensures p * q + p <= p * q'
    decreases q' - q
  {
    if q + 1 == q' {
      assert p * q' == p * q + p;
    } else {
      MulStep(p, q, q' - 1);
      assert p * q' == p * (q' - 1) + p;
    }
  }

  /** A number has one quotient and remainder. */
  lemma DivModUnique(x: int, p: nat, q: int, r: int)
    requires 0 <= r < p && x == p * q + r
    ensures x / p == q && x % p == r
  {
    var q', r' := x / p, x % p;
    assert p * q' + r' == x;
    if q < q' {
      MulStep(p, q, q');
    } else if q' < q {
      MulStep(p, q', q);
    }
  }

  /** Reducing by a multiple first does not change a remainder. */
  lemma ModMultiple(x: nat, p: nat, m: nat)
    requires p > 0 && m > 0
    ensures x % (p * m) % p == x % p
  {
    assert p * m > 0;
    var a, b := x / (p * m), x % (p * m);
    assert x == p * m * a + b;
    var c, d := b / p, b % p;
    assert b == p * c + d;
    assert p * m * a == p * (m * a);
    assert x == p * (m * a + c) + d by { assert p * (m * a + c) == p * (m * a) + p * c; }
    DivModUnique(x, p, m * a + c, d);
  }

  /** A step that stays inside a unit of `size` stays inside every larger unit made of such units. */
  lemma StepInUnit(x: nat, size: nat, i: nat, k: nat)
    requires size > 0 && i > 0 && x % size + k < size
    ensures size * i > 0 && x % (size * i) % size == x % size
    ensures (x + k) / (size * i) == x / (size * i) && (x + k) % (size * i) == x % (size * i) + k
  {
    var big := size * i;
    ModMultiple(x, size, i);
    var word := x % big;
    var c, d := word / size, word % size;
    assert word == size * c + d;
    if i < c {
      MulStep(size, i, c);
    } else if c < i {
      MulStep(size, c, i);
    }
    assert x == big * (x / big) + word;
    DivModUnique(x + k, big, x / big, word + k);
  }

  lemma SmallMod(x: nat, p: nat)
    requires x < p
    ensures x % p == x
  {
    DivModUnique(x, p, 0, x);
  }

  lemma DivMod(x: nat, p: nat)
    requires p > 0
    ensures x == p * (x / p) + x % p && 0 <= x % p < p && 0 <= x / p
  {
    if x / p < 0 {
      MulStep(p, x / p, 0);
    }
  }
}
