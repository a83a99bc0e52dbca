/** Facts about products, quotients and the sizes of sets. */
module Arithmetic {
  lemma {:induction false} TimesGrows(m: nat, n: nat, size: nat)
    ensures m < n ==> m * size + size <= n * size
    decreases n
  {
    if m + 1 < n {
      TimesGrows(m, n - 1, size);
    }
  }

  lemma QuotientIs(n: nat, d: nat, q: nat)
    requires d > 0 && q * d <= n < q * d + d
    ensures n / d == q
  {
    TimesGrows(n / d, q, d);
    TimesGrows(q, n / d, d);
    assert n == (n / d) * d + n % d;
  }

  lemma DivisionIsMonotone(a: nat, b: nat, d: nat)
    requires a <= b && d > 0
    ensures a / d <= b / d
  {
    TimesGrows(b / d, a / d, d);
    assert a == (a / d) * d + a % d && b == (b / d) * d + b % d;
  }

  lemma {:induction false} SubsetIsSmaller<T>(a: set<T>, b: set<T>)
    requires a <= b
    ensures |a| <= |b|
    ensures |a| == |b| ==> a == b
    decreases a
  {
    if a != {} {
      var x :| x in a;
      SubsetIsSmaller(a - {x}, b - {x});
    }
  }
}
