// Division by a variable divisor.
module Division {
  lemma MulLe(n: nat, x: int, y: int)
    requires x <= y
    ensures n * x <= n * y
  {
  }

  lemma MulStep(n: int, x: int)
    ensures n * (x + 1) == n * x + n
  {
  }

  lemma DivMod(a: int, n: nat)
    requires 0 < n
    ensures a == n * (a / n) + a % n && 0 <= a % n < n
  {
  }

  // Quotient and remainder are unique.
  lemma Unique(a: int, n: nat, q: int, r: int)
    requires 0 < n && 0 <= r < n && a == n * q + r
    ensures a / n == q && a % n == r
  {
    DivMod(a, n);
    Compare(n, q, a / n, r, a % n);
    Compare(n, a / n, q, a % n, r);
  }

  lemma Compare(n: nat, x: int, y: int, r: int, s: int)
    requires 0 < n && 0 <= r < n && 0 <= s < n && n * x + r == n * y + s
    ensures x <= y
  {
    if y < x {
      MulStep(n, y);
      MulLe(n, y + 1, x);
    }
  }

  // Counting on by one passes at most one multiple.
  lemma Next(k: nat, n: nat)
    requires 0 < n
    ensures (k + 1) / n == k / n || (k + 1) / n == k / n + 1
  {
    DivMod(k, n);
    var q, r := k / n, k % n;
    if r + 1 == n {
      MulStep(n, q);
      Unique(k + 1, n, q + 1, 0);
    } else {
      Unique(k + 1, n, q, r + 1);
    }
  }

  // If k <= m, then k / (m / t + 1) < t.
  lemma FewSteps(k: nat, m: nat, t: nat)
    requires k <= m && 0 < t
    ensures k / (m / t + 1) < t
  {
    var n := m / t + 1;
    DivMod(m, t);
    DivMod(k, n);
    MulStep(t, m / t);
    if t <= k / n {
      MulLe(n, t, k / n);
    }
  }
}
