/** JavaScript number operations on exact reals: `Math.round`, the `%`
    operator, `Math.abs`, `Math.max` and `Math.min`. */
module JsNumber {

  /** True when `x` has no fractional part. */
  predicate IsInt(x: real) {
    x == x.Floor as real
  }

  /** `Math.round`: the nearest integer, halves rounded toward +infinity. */
  function Round(x: real): (n: int)
    ensures n as real - 0.5 <= x < n as real + 0.5
  {
    (x + 0.5).Floor
  }

  /** Rounding an integer leaves it unchanged. */
  lemma RoundInt(n: int)
    ensures Round(n as real) == n
  {
  }

  /** Rounding is monotone. */
  lemma RoundMonotone(x: real, y: real)
    requires x <= y
    ensures Round(x) <= Round(y)
  {
  }

  /** Integer part toward zero, as the `%` operator uses it. */
  function Trunc(x: real): (n: int)
    ensures x >= 0.0 ==> n == x.Floor
    ensures x < 0.0 ==> n == -((-x).Floor)
  {
    if x >= 0.0 then x.Floor else -((-x).Floor)
  }

  /** The `%` operator: `x - m * trunc(x / m)`, so the remainder has the sign
      of the dividend (Dafny's own `%` is Euclidean). */
  function Rem(x: real, m: real): (r: real)
    requires m > 0.0
    ensures x >= 0.0 ==> 0.0 <= r < m
    ensures x < 0.0 ==> -m < r <= 0.0
    ensures IsInt((x - r) / m)
    ensures -m < x < m ==> r == x
  {
    var q := Trunc(x / m);
    RemBounds(x, m, q);
    RemQuotient(x, m, q);
    x - m * q as real
  }

  lemma RemBounds(x: real, m: real, q: int)
    requires m > 0.0
    requires q == Trunc(x / m)
    ensures x >= 0.0 ==> 0.0 <= x - m * q as real < m
    ensures x < 0.0 ==> -m < x - m * q as real <= 0.0
    ensures -m < x < m ==> q == 0
  {
    var y := x / m;
    DivMul(x, m);
    if x >= 0.0 {
      BetweenMultiples(x, m, y, q as real);
      if x < m {
        MulLt(y, 1.0, m);
      }
    } else {
      MulLt(y, 0.0, m);
      BetweenMultiples(x, m, y, q as real - 1.0);
      if x > -m {
        NegScale(m, y, x);
      }
    }
  }

  /** If `x = m * y` and `k <= y < k + 1` then `x` lies in `[m k, m k + m)`. */
  lemma BetweenMultiples(x: real, m: real, y: real, k: real)
    requires m > 0.0 && m * y == x
    ensures k <= y ==> m * k <= x
    ensures y < k + 1.0 ==> x < m * k + m
    ensures k < y ==> m * k < x
    ensures y <= k + 1.0 ==> x <= m * k + m
  {
    var top := m * (k + 1.0);
    var bottom := m * k;
    assert top == m * k + m;
    BetweenProducts(y, k + 1.0, m, x, top);
    BetweenProducts(k, y, m, bottom, x);
  }

  /** Multiplying by a positive `m` keeps both the weak and the strict order,
      stated on named products. */
  lemma BetweenProducts(a: real, b: real, m: real, x: real, top: real)
    requires m > 0.0 && x == m * a && top == m * b
    ensures a <= b ==> x <= top
    ensures a < b ==> x < top
  {
    if a <= b {
      MulLe(a, b, m);
    }
    if a < b {
      MulLt(a, b, m);
    }
  }

  lemma NegScale(m: real, y: real, x: real)
    requires m > 0.0 && m * y == x && -m < x
    ensures 0.0 < 1.0 + y
  {
    assert m * (1.0 + y) == m + x;
  }

  lemma MulLe(a: real, b: real, m: real)
    requires m > 0.0 && a <= b
    ensures m * a <= m * b
  {
  }

  /** Also the converse, so a strict bound on a product gives one on a factor. */
  lemma MulLt(a: real, b: real, m: real)
    requires m > 0.0
    ensures a < b <==> m * a < m * b
  {
  }

  lemma RemQuotient(x: real, m: real, q: int)
    requires m > 0.0
    ensures (x - (x - m * q as real)) / m == q as real
  {
    assert x - (x - m * q as real) == m * q as real;
  }

  lemma DivMul(x: real, m: real)
    requires m > 0.0
    ensures m * (x / m) == x
  {
  }

  function Abs(x: real): (r: real)
    ensures r >= 0.0
    ensures r == x || r == -x
  {
    if x < 0.0 then -x else x
  }

  function Max(a: real, b: real): (r: real)
    ensures r >= a && r >= b
    ensures r == a || r == b
  {
    if a >= b then a else b
  }

  function Min(a: real, b: real): (r: real)
    ensures r <= a && r <= b
    ensures r == a || r == b
  {
    if a <= b then a else b
  }

  /** `Math.max(a, b, c)`. */
  function Max3(a: real, b: real, c: real): (r: real)
    ensures r >= a && r >= b && r >= c
    ensures r == a || r == b || r == c
  {
    Max(Max(a, b), c)
  }

  /** `Math.min(a, b, c)`. */
  function Min3(a: real, b: real, c: real): (r: real)
    ensures r <= a && r <= b && r <= c
    ensures r == a || r == b || r == c
  {
    Min(Min(a, b), c)
  }

  /** A product of non-negative factors is non-negative. */
  lemma MulNonNeg(a: real, b: real)
    requires a >= 0.0 && b >= 0.0
    ensures a * b >= 0.0
  {
  }

  /** Scaling a non-negative amount by a factor in [0, 1] stays in [0, amount]. */
  lemma ScaleWithin(d: real, u: real, v: real)
    requires d >= 0.0 && 0.0 <= u <= 1.0 && v == d * u
    ensures 0.0 <= v <= d
  {
    MulNonNeg(d, u);
    MulNonNeg(d, 1.0 - u);
    assert d * (1.0 - u) == d - d * u;
  }

  /** Moving from `p` toward `q` by a fraction in [0, 1] stays between them. */
  lemma AddScaled(p: real, q: real, u: real, v: real)
    requires p <= q && 0.0 <= u <= 1.0 && v == p + (q - p) * u
    ensures p <= v <= q
  {
    var d := q - p;
    ScaleWithin(d, u, d * u);
    assert v == p + d * u;
  }
}
