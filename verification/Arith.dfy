/** Facts about products and quotients that the solver is not left to find. */
module Arith {
  lemma MulGrows(a: int, b: int, c: int)
    requires a <= b && 0 <= c
    ensures a * c <= b * c
  {
  }

  lemma ProductPositive(a: nat, b: nat)
    requires a > 0 && b > 0
    ensures a * b > 0
  {
  }

  lemma DivIs(a: nat, q: nat, n: nat)
    requires q > 0 && n * q <= a < n * q + q
    ensures a / q == n
  {
    var d := a / q;
    assert a == d * q + a % q;
    if d + 1 <= n { MulGrows(d + 1, n, q); }
    if n + 1 <= d { MulGrows(n + 1, d, q); }
  }

  /** Quotient and remainder of naturals. */
  method DivMod(x: nat, a: nat) returns (q: nat, m: nat)
    requires a > 0
    ensures q == x / a && m == x % a && m < a
  {
    q, m := x / a, x % a;
  }

  /** `n` is `q` times `f` and `r` more, with `r` below `f`. */
  ghost predicate Parts(n: nat, f: nat, q: nat, r: nat) {
    r < f && n == q * f + r
  }

  lemma PartsAre(n: nat, f: nat, q: nat, r: nat)
    requires Parts(n, f, q, r)
    ensures n / f == q && n % f == r
  {
    DivIs(n, f, q);
  }

  lemma WholeAndRest(n: nat, f: nat)
    requires f > 0
    ensures Parts(n, f, n / f, n % f)
  {
  }
}
