/** Division with remainder, and masks as remainders. */
module Division {
  import opened Bits

  lemma {:induction false} SmallMod(x: nat, n: nat)
    requires x < n
    ensures x % n == x
  {
  }

  lemma {:induction false} WrapMod(x: nat, n: nat)
    requires x < n
    ensures (x + n) % n == x
  {
    assert (x + n) / n == 1 by {
      assert x + n == 1 * n + x;
      DivUnique(x + n, n, 1, x);
    }
    DivUnique(x + n, n, 1, x);
  }

  lemma {:induction false} DivUnique(a: nat, n: nat, q: nat, r: nat)
    requires a == q * n + r && r < n
    ensures a / n == q && a % n == r
  {
    var q', r' := a / n, a % n;
    assert a == q' * n + r' && r' < n;
    if q' < q {
      Product(q' + 1, q, n);
    } else if q' > q {
      Product(q + 1, q', n);
    }
  }

  lemma {:induction false} Product(a: nat, b: nat, n: nat)
    requires a <= b
    ensures a * n <= b * n && (a > 0 ==> a * n == (a - 1) * n + n)
  {
  }

  lemma {:induction false} DivDiv(a: nat, b: nat, c: nat)
    requires b > 0 && c > 0
    ensures b * c > 0 && a / b / c == a / (b * c)
  {
    var q, r := a / b, a % b;
    var q', r' := q / c, q % c;
    assert a == (q' * c + r') * b + r;
    assert (q' * c + r') * b + r == q' * (b * c) + (r' * b + r) by { Distribute(q', c, r', b); }
    Below(r', c, r, b);
    DivUnique(a, b * c, q', r' * b + r);
  }

  lemma {:induction false} Distribute(q: nat, c: nat, r: nat, b: nat)
    ensures (q * c + r) * b == q * (b * c) + r * b
  {
  }

  lemma {:induction false} Below(x: nat, c: nat, r: nat, b: nat)
    requires x < c && r < b
    ensures x * b + r < b * c
  {
    Product(x + 1, c, b);
  }

  lemma {:induction false} MultipleMod(q: nat, n: nat)
    requires n > 0
    ensures (q * n) % n == 0
  {
    DivUnique(q * n, n, q, 0);
  }

  lemma {:induction false} DivMono(a: nat, b: nat, n: nat)
    requires n > 0 && a <= b
    ensures a / n <= b / n
  {
    if b / n < a / n { Product(b / n + 1, a / n, n); }
  }

  lemma {:induction false} DivAtLeast(p: nat, d: nat, q: nat)
    requires d > 0
    ensures q * d <= p <==> q <= p / d
  {
    var n, r := p / d, p % d;
    assert p == n * d + r && r < d;
    if q <= n { Product(q, n, d); } else { Product(n + 1, q, d); }
  }

  /** The bitwise and. */
  function And(x: nat, y: nat): nat {
    (if x % 2 == 1 && y % 2 == 1 then 1 else 0) + if y == 0 then 0 else 2 * And(x / 2, y / 2)
  }

  lemma {:induction false} AndOdd(x: nat, m: nat)
    ensures And(x, 2 * m + 1) == x % 2 + 2 * And(x / 2, m)
  {
    assert (2 * m + 1) / 2 == m;
  }

  lemma {:induction false} ModDouble(x: nat, p: nat)
    requires p > 0
    ensures x % (2 * p) == x % 2 + 2 * (x / 2 % p)
  {
    DivUnique(x / 2, p, x / 2 / p, x / 2 % p);
    DivUnique(x, 2 * p, x / 2 / p, x % 2 + 2 * (x / 2 % p));
  }

  lemma {:induction false} AndZero(x: nat)
    ensures And(x, 0) == 0
  {
  }

  /** Masking with 2^k - 1 is taking the remainder modulo 2^k. */
  lemma {:induction false} AndMask(x: nat, k: nat)
    ensures And(x, Pow2(k) - 1) == x % Pow2(k)
  {
    hide And;
    AndZero(x);
    if k > 0 {
      AndMask(x / 2, k - 1);
      AndOdd(x, Pow2(k - 1) - 1);
      ModDouble(x, Pow2(k - 1));
      assert Pow2(k) - 1 == 2 * (Pow2(k - 1) - 1) + 1;
    }
  }
}
