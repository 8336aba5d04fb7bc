/** Facts about Euclidean division and multiplication on naturals. */
module Arith {
  /** Euclidean division is unique: `w * q + r` with `r < w` has quotient `q` and remainder `r`. */
  lemma ModOfMultiplePlus(w: nat, q: nat, r: nat)
    requires 0 <= r < w
    ensures (w * q + r) % w == r
  {
    var y := w * q + r;
    var q', r' := y / w, y % w;
    assert y == w * q' + r';
    if q' > q {
      assert w * (q + 1) == w * q + w;
      MulMonotone(w, q + 1, q');
    } else if q' < q {
      assert w * (q' + 1) == w * q' + w;
      MulMonotone(w, q' + 1, q);
    }
  }

  /** A multiple of `m` is its quotient times `m`. */
  lemma ExactQuotient(x: nat, m: nat)
    requires m > 0 && x % m == 0
    ensures x == (x / m) * m
  {
    assert x == m * (x / m) + x % m;
  }

  lemma {:induction false} MulMonotone(w: nat, a: nat, b: nat)
    requires a <= b
    ensures w * a <= w * b
    decreases b - a
  {
    if a < b {
      MulMonotone(w, a + 1, b);
      assert w * (a + 1) == w * a + w;
    }
  }

  /** `((x % n) + 1) % n` steps the residue of `x` to that of `x + 1`. */
  lemma ModSucc(x: nat, n: nat)
    requires n > 0
    ensures (x % n + 1) % n == (x + 1) % n
  {
    var q, r := x / n, x % n;
    assert x == n * q + r;
    if r + 1 < n {
      ModOfMultiplePlus(n, q, r + 1);
      ModOfMultiplePlus(n, 0, r + 1);
    } else {
      assert x + 1 == n * (q + 1) + 0;
      ModOfMultiplePlus(n, q + 1, 0);
      ModOfMultiplePlus(n, 1, 0);
    }
  }

  /** `a / d + b / d <= (a + b) / d`: floor division never gains by splitting. */
  lemma {:induction false} FloorDivSplit(a: nat, b: nat, d: nat)
    requires d > 0
    ensures a / d + b / d <= (a + b) / d
  {
    var qa, ra := a / d, a % d;
    var qb, rb := b / d, b % d;
    assert a + b == d * (qa + qb) + (ra + rb) by {
      assert a == d * qa + ra && b == d * qb + rb;
    }
    var q := (a + b) / d;
    assert a + b == d * q + (a + b) % d;
    if q < qa + qb {
      assert d * (q + 1) == d * q + d;
      MulMonotone(d, q + 1, qa + qb);
    }
  }
}
