/** Facts about division with remainder for a variable divisor. */
module Arith {

  function Power256(n: nat): (p: nat)
    ensures p > 0
  {
    if n == 0 then 1 else 256 * Power256(n - 1)
  }

  lemma {:induction false} ModStep(value: nat, p: nat)
    requires p > 0
    ensures 256 * (value / 256 % p) + value % 256 == value % (256 * p)
  {
    var q, r := value / 256, value % 256;
    var a, b := q / p, q % p;
    assert q == a * p + b;
    assert value == (256 * p) * a + (256 * b + r);
    assert 0 <= 256 * b + r < 256 * p;
    UniqueRemainder(value, 256 * p, a, 256 * b + r);
  }

  /** A multiple of `n` and a rest below `n` are quotient and remainder. */
  lemma {:induction false} UniqueRemainder(x: nat, n: nat, q: nat, r: nat)
    requires n > 0 && x == n * q + r && r < n
    ensures x % n == r
  {
    var q', r' := x / n, x % n;
    assert x == n * q' + r';
    if q' < q {
      Factor(n, q', q);
    } else if q < q' {
      Factor(n, q, q');
    }
  }

  lemma {:induction false} Factor(n: nat, a: nat, b: nat)
    requires a < b
    ensures n * a + n <= n * b
  {
    assert n * (a + 1) <= n * b;
  }

  lemma {:induction false} Small(x: nat, p: nat)
    requires x < p
    ensures x % p == x
  {
  }

  lemma {:induction false} AddUpTo(x: nat, p: nat, n: nat)
    requires p > 0 && x % p + n == p
    ensures (x + n) % p == 0
  {
    assert x + n == (x / p) * p + p == (x / p + 1) * p;
    UniqueRemainder(x + n, p, x / p + 1, 0);
  }

  /** A multiple of `p` above `x` is above the whole stretch of `p` that holds `x`. */
  lemma {:induction false} BelowMultiple(x: nat, p: nat, e: nat)
    requires p > 0 && x < e && e % p == 0
    ensures x - x % p + p <= e
  {
    var q, k := x / p, e / p;
    assert x == p * q + x % p && e == p * k;
    if k <= q {
      Monotone(p, k, q);
    } else {
      Factor(p, q, k);
    }
  }

  lemma {:induction false} Monotone(n: nat, a: nat, b: nat)
    requires a <= b
    ensures n * a <= n * b
  {
  }

  lemma {:induction false} SumMod(b: nat, x: nat, p: nat)
    requires p > 0 && b % p == 0
    ensures (b + x) % p == x % p
  {
    var k, q := b / p, x / p;
    assert b + x == k * p + q * p + x % p == (k + q) * p + x % p;
    UniqueRemainder(b + x, p, k + q, x % p);
  }

  lemma {:induction false} MultipleOfMultiple(b: nat, w: nat, p: nat)
    requires p > 0 && w > 0 && w % p == 0 && b % w == 0
    ensures b % p == 0
  {
    var k, q := b / w, w / p;
    assert b == w * k && w == p * q;
    assert b == (p * q) * k == (q * k) * p;
    UniqueRemainder(b, p, q * k, 0);
  }

  lemma {:induction false} ModMod(x: nat, w: nat, p: nat)
    requires p > 0 && w > 0 && w % p == 0
    ensures x % w % p == x % p
  {
    assert x == w * (x / w) + x % w;
    UniqueRemainder(x - x % w, w, x / w, 0);
    MultipleOfMultiple(x - x % w, w, p);
    SumMod(x - x % w, x % w, p);
  }
}
