/** Integer powers, Bernoulli's inequality and the two-value inequality of arithmetic and geometric
    means, in whole numbers. */
module Powers {

  function Pow(b: nat, e: nat): nat {
    if e == 0 then 1 else b * Pow(b, e - 1)
  }

  lemma Assoc(a: int, b: int, c: int)
    ensures a * (b * c) == a * b * c
  {
  }

  lemma Pull(a: int, k: int, b: int)
    ensures a * (k * b) == k * (a * b)
  {
    Assoc(a, k, b);
    Assoc(k, a, b);
  }

  lemma Interchange(a: int, b: int, x: int, y: int)
    ensures (a * b) * (x * y) == (a * x) * (b * y)
  {
    Assoc(a, b, x * y);
    Pull(b, x, y);
    Assoc(a, x, b * y);
  }

  lemma OneMore(q: int, y: int)
    ensures (q - 1) * y + y == q * y
  {
  }

  lemma MulLe(a: nat, b: nat, c: nat, d: nat)
    requires a <= b && c <= d
    ensures a * c <= b * d
  {
    assert a * c <= b * c <= b * d;
  }

  lemma MulLt(a: nat, b: nat, c: nat, d: nat)
    requires a < b && c <= d && 0 < d
    ensures a * c < b * d
  {
    assert a * c <= a * d < b * d by { MulLe(a, a, c, d); assert (b - a) * d > 0; }
  }

  lemma CancelLe(k: nat, a: int, b: int)
    requires k > 0 && k * a <= k * b
    ensures a <= b
  {
    assert a > b ==> k * (a - b) > 0;
  }

  lemma {:induction false} PowPositive(b: nat, e: nat)
    requires b > 0
    ensures Pow(b, e) > 0
  {
    if e > 0 { PowPositive(b, e - 1); MulLe(1, b, 1, Pow(b, e - 1)); }
  }

  lemma {:induction false} PowAdd(b: nat, m: nat, n: nat)
    ensures Pow(b, m + n) == Pow(b, m) * Pow(b, n)
  {
    if m > 0 {
      PowAdd(b, m - 1, n);
      Assoc(b, Pow(b, m - 1), Pow(b, n));
    }
  }

  lemma {:induction false} PowMul(a: nat, b: nat, e: nat)
    ensures Pow(a * b, e) == Pow(a, e) * Pow(b, e)
  {
    if e > 0 {
      PowMul(a, b, e - 1);
      Interchange(a, b, Pow(a, e - 1), Pow(b, e - 1));
    }
  }

  lemma {:induction false} PowPow(b: nat, m: nat, n: nat)
    ensures Pow(Pow(b, m), n) == Pow(b, m * n)
  {
    if n == 0 {
      assert m * n == 0;
    } else {
      PowPow(b, m, n - 1);
      assert m * n == m + m * (n - 1);
      PowAdd(b, m, m * (n - 1));
    }
  }

  lemma {:induction false} PowOne(e: nat)
    ensures Pow(1, e) == 1
  {
    if e > 0 { PowOne(e - 1); }
  }

  lemma {:induction false} PowMonotone(a: nat, b: nat, e: nat)
    requires a <= b
    ensures Pow(a, e) <= Pow(b, e)
  {
    if e > 0 { PowMonotone(a, b, e - 1); MulLe(a, b, Pow(a, e - 1), Pow(b, e - 1)); }
  }

  lemma {:induction false} PowStrict(a: nat, b: nat, e: nat)
    requires a < b && e > 0
    ensures Pow(a, e) < Pow(b, e)
  {
    PowMonotone(a, b, e - 1);
    PowPositive(b, e - 1);
    MulLt(a, b, Pow(a, e - 1), Pow(b, e - 1));
  }

  /** Bernoulli's inequality without fractions: u^m >= v^(m-1) * (m*u - (m-1)*v). */
  lemma {:induction false} Bernoulli(u: nat, v: nat, m: nat)
    requires m >= 1
    ensures Pow(u, m) >= Pow(v, m - 1) * (m * u - (m - 1) * v)
  {
    if m == 1 {
      assert Pow(u, 1) == u * Pow(u, 0) == u;
      assert m * u - (m - 1) * v == u;
    } else {
      Bernoulli(u, v, m - 1);
      var w, t := Pow(v, m - 2), (m - 1) * u - (m - 2) * v;
      assert u * Pow(u, m - 1) >= u * (w * t) by { MulMonotoneLeft(u, w * t, Pow(u, m - 1)); }
      SquareStep(u, v, m - 1);
      assert u * (w * t) == w * (u * t);
      MulMonotoneLeft(w, v * (m * u - (m - 1) * v), u * t);
      assert w * (v * (m * u - (m - 1) * v)) == v * w * (m * u - (m - 1) * v);
    }
  }

  lemma MulMonotoneLeft(k: nat, a: int, b: int)
    requires a <= b
    ensures k * a <= k * b
  {
  }

  /** u*(k*u - (k-1)*v) exceeds v*((k+1)*u - k*v) by k*(u-v)^2. */
  lemma SquareStep(u: int, v: int, k: nat)
    ensures u * (k * u - (k - 1) * v) >= v * ((k + 1) * u - k * v)
  {
    var uu, uv, vv := u * u, u * v, v * v;
    Square(u, v);
    MulMonotoneLeft(k, 0, uu - 2 * uv + vv);
    Pull(u, k, u);
    Pull(u, k - 1, v);
    Pull(v, k + 1, u);
    Pull(v, k, v);
    Combine(k, uu, uv, vv);
    assert u * (k * u - (k - 1) * v) == k * uu - (k - 1) * uv;
    assert v * ((k + 1) * u - k * v) == (k + 1) * uv - k * vv;
  }

  lemma Square(u: int, v: int)
    ensures u * u - 2 * (u * v) + v * v >= 0
  {
    var d := u - v;
    assert d * d >= 0 && d * d == u * u - 2 * (u * v) + v * v;
  }

  lemma Combine(k: int, a: int, b: int, c: int)
    ensures k * (a - 2 * b + c) == (k * a - (k - 1) * b) - ((k + 1) * b - k * c)
  {
  }

  /** One more value in a mean: from s^n >= n^n * p to (s+y)^(n+1) >= (n+1)^(n+1) * p * y. */
  lemma MeanStep(n: nat, s: nat, y: nat, p: nat)
    requires Pow(s, n) >= Pow(n, n) * p
    ensures Pow(s + y, n + 1) >= Pow(n + 1, n + 1) * (p * y)
  {
    if n == 0 {
      assert Pow(s + y, 1) == (s + y) * Pow(s + y, 0) == s + y;
      assert Pow(1, 1) == 1 * Pow(1, 0) == 1;
      MulLe(p, 1, y, y);
    } else {
      var m := n + 1;
      Bernoulli(n * (s + y), m * s, m);
      Difference(m, n, s, y);
      assert Pow(n * (s + y), m) == n * Pow(n, n) * Pow(s + y, m) by { PowMul(n, s + y, m); }
      assert Pow(m * s, n) == Pow(m, n) * Pow(s, n) by { PowMul(m, s, n); }
      PowPositive(n, m);
      MeanCombine(Pow(s + y, m), Pow(m, n), Pow(s, n), Pow(n, n), m, n, y, p);
    }
  }

  lemma Difference(m: int, n: int, s: int, y: int)
    ensures m * (n * (s + y)) - n * (m * s) == m * n * y
  {
    Assoc(m, n, s + y);
    Pull(n, m, s);
    Assoc(m, n, s);
  }

  /** The arithmetic of the step: b, c, d, e stand for (s+y)^m, m^n, s^n, n^n. */
  lemma MeanCombine(b: nat, c: nat, d: nat, e: nat, m: nat, n: nat, y: nat, p: nat)
    requires n * e * b >= c * d * (m * n * y) && d >= e * p && n * e > 0
    ensures b >= m * c * (p * y)
  {
    Rearrange(c, d, m, n, y);
    MulMonotoneLeft(m * c * (n * y), e * p, d);
    Rearrange2(m * c, n, y, e, p);
    CancelLe(n * e, m * c * (p * y), b);
  }

  lemma Rearrange(a: nat, b: nat, m: nat, n: nat, y: nat)
    ensures a * b * (m * n * y) == m * a * (n * y) * b
  {
    Assoc(m, n, y);
    Interchange(a, b, m, n * y);
    Assoc(m * a, n * y, b);
  }

  lemma Rearrange2(q: nat, n: nat, y: nat, a: nat, p: nat)
    ensures q * (n * y) * (a * p) == n * a * (q * (p * y))
  {
    Assoc(q, n * y, a * p);
    Interchange(n, y, a, p);
    Pull(q, n * a, p * y);
  }

  /** The sum of `n` copies of y added to s, and the product of `n` copies of y with p. */
  function SumWith(s: nat, y: nat, n: nat): nat { if n == 0 then s else SumWith(s, y, n - 1) + y }

  function ProductWith(p: nat, y: nat, n: nat): nat { if n == 0 then p else ProductWith(p, y, n - 1) * y }

  lemma {:induction false} SumProductClosed(s: nat, p: nat, y: nat, n: nat)
    ensures SumWith(s, y, n) == s + n * y && ProductWith(p, y, n) == p * Pow(y, n)
  {
    if n > 0 {
      SumProductClosed(s, p, y, n - 1);
      OneMore(n, y);
      Assoc(p, Pow(y, n - 1), y);
    }
  }

  lemma {:induction false} MeanWith(m: nat, s: nat, p: nat, y: nat, n: nat)
    requires Pow(s, m) >= Pow(m, m) * p
    ensures Pow(SumWith(s, y, n), m + n) >= Pow(m + n, m + n) * ProductWith(p, y, n)
  {
    if n > 0 {
      MeanWith(m, s, p, y, n - 1);
      MeanStep(m + n - 1, SumWith(s, y, n - 1), y, ProductWith(p, y, n - 1));
    }
  }

  /** `p` copies of x and `q` copies of y: the mean's power is at least the product. */
  lemma TwoValueMean(p: nat, q: nat, x: nat, y: nat)
    ensures Pow(p * x + q * y, p + q) >= Pow(p + q, p + q) * (Pow(x, p) * Pow(y, q))
  {
    PowMul(p, x, p);
    MeanWith(p, p * x, Pow(x, p), y, q);
    SumProductClosed(p * x, Pow(x, p), y, q);
  }

  /** Adding a symbol seen c times to n letters over k symbols, in the exact form entropy needs:
      (n+c)^(n+c) * k^n <= (k+1)^(n+c) * n^n * c^c. */
  lemma AddSymbol(n: nat, c: nat, k: nat)
    requires c > 0
    ensures Pow(n + c, n + c) * Pow(k, n) <= Pow(k + 1, n + c) * (Pow(n, n) * Pow(c, c))
  {
    var t := n + c;
    if n == 0 {
      PowMonotone(1, k + 1, c);
      PowOne(c);
      MulLe(1, Pow(k + 1, c), Pow(c, c), Pow(c, c));
    } else {
      TwoValueMean(n, c, k * c, n);
      assert n * (k * c) + c * n == n * c * (k + 1);
      PowMul(n * c, k + 1, t);
      PowMul(n, c, t);
      PowAdd(n, n, c);
      PowAdd(c, n, c);
      PowMul(k, c, n);
      var A, B, C, D, K, T := Pow(n, n), Pow(n, c), Pow(c, n), Pow(c, c), Pow(k, n), Pow(k + 1, t);
      assert Pow(n * c * (k + 1), t) == (A * B) * (C * D) * T;
      PowPositive(c, n);
      PowPositive(n, c);
      CancelSpare(A, B, C, D, K, T, Pow(t, t));
    }
  }

  lemma CancelSpare(a: nat, b: nat, c: nat, d: nat, k: nat, t: nat, p: nat)
    requires (a * b) * (c * d) * t >= p * (k * c * b) && b > 0 && c > 0
    ensures p * k <= t * (a * d)
  {
    Regroup(a, b, c, d, t);
    Regroup2(p, k, c, b);
    MulLe(1, c, 1, b);
    CancelLe(c * b, p * k, t * (a * d));
  }

  lemma Regroup(a: nat, b: nat, c: nat, d: nat, t: nat)
    ensures (a * b) * (c * d) * t == c * b * (t * (a * d))
  {
    Interchange(a, b, d, c);
    Interchange(a, d, c, b);
    Assoc(c * b, a * d, t);
  }

  lemma Regroup2(p: nat, k: nat, c: nat, b: nat)
    ensures p * (k * c * b) == c * b * (p * k)
  {
    Assoc(k, c, b);
    Assoc(p, k, c * b);
  }
}
