/** Multiplication and division facts, stated once so that the proofs that use them stay linear. */
module Arithmetic {

  lemma MulMonotone(x: nat, y: nat, k: nat)
    requires x <= y
    ensures x * k <= y * k
  {
  }

  lemma MulAssoc(x: int, y: int, z: int)
    ensures x * (y * z) == (x * y) * z == y * (x * z)
  {
  }

  lemma MulCancel(x: nat, y: nat, k: nat)
    requires x * k < y * k
    ensures x < y
  {
    if y <= x {
      MulMonotone(y, x, k);
    }
  }

  lemma QuotientUnique(d: nat, q: nat, r: nat, q': nat, r': nat)
    requires r < d && r' < d && q * d + r == q' * d + r'
    ensures q == q' && r == r'
  {
    if q < q' {
      MulMonotone(q + 1, q', d);
    } else if q' < q {
      MulMonotone(q' + 1, q, d);
    }
  }

  lemma Division(x: nat, d: nat)
    requires d > 0
    ensures x == x / d * d + x % d && x / d >= 0 && 0 <= x % d < d
  {
  }

  lemma DivModUnique(x: nat, d: nat, q: nat, r: nat)
    requires d > 0 && r < d && x == q * d + r
    ensures x / d == q && x % d == r
  {
    Division(x, d);
    QuotientUnique(d, q, r, x / d, x % d);
  }

  lemma DivMonotone(x: nat, y: nat, d: nat)
    requires d > 0 && x <= y
    ensures x / d <= y / d
  {
    Division(x, d);
    Division(y, d);
    if y / d < x / d {
      MulMonotone(y / d + 1, x / d, d);
    }
  }

  // Products and quotients by name: `Times` and `Floor` unfold by recursion, so that proofs go by their laws.

  function Times(a: nat, b: nat): nat
    decreases a
  {
    if a == 0 then 0 else b + Times(a - 1, b)
  }

  lemma {:induction false} TimesIsProduct(a: nat, b: nat)
    ensures Times(a, b) == a * b
  {
    if a > 0 {
      TimesIsProduct(a - 1, b);
      assert a * b == (a - 1) * b + b;
    }
  }

  lemma {:induction false} TimesAdds(a: nat, b: nat, c: nat)
    ensures Times(a + b, c) == Times(a, c) + Times(b, c)
    decreases a
  {
    if a > 0 {
      TimesAdds(a - 1, b, c);
    }
  }

  lemma {:induction false} TimesGrows(a: nat, b: nat, c: nat)
    ensures a <= b ==> Times(a, c) <= Times(b, c)
    ensures a < b && c > 0 ==> Times(a, c) < Times(b, c)
  {
    if a < b {
      TimesAdds(b - a, a, c);
    }
  }

  function Floor(x: nat, d: nat): nat
    requires d > 0
    decreases x
  {
    if x < d then 0 else 1 + Floor(x - d, d)
  }

  lemma {:induction false} FloorIsQuotient(x: nat, d: nat)
    requires d > 0
    ensures Floor(x, d) == x / d
    decreases x
  {
    if x >= d {
      FloorIsQuotient(x - d, d);
      Division(x - d, d);
      DivModUnique(x, d, (x - d) / d + 1, (x - d) % d);
    } else {
      DivModUnique(x, d, 0, x);
    }
  }

  /** What rounding down means: the largest multiple that fits. */
  lemma {:induction false} FloorMeaning(a: nat, x: nat, d: nat)
    requires d > 0
    ensures a <= Floor(x, d) <==> Times(a, d) <= x
    decreases x
  {
    if a > 0 && x >= d {
      FloorMeaning(a - 1, x - d, d);
    }
  }

  /** Rounding up. */
  function Ceil(x: nat, d: nat): nat
    requires d > 0
    decreases x
  {
    if x == 0 then 0 else if x <= d then 1 else 1 + Ceil(x - d, d)
  }

  /** What rounding up means: the smallest multiple that covers. */
  lemma {:induction false} CeilMeaning(a: nat, x: nat, d: nat)
    requires d > 0
    ensures Ceil(x, d) <= a <==> x <= Times(a, d)
    decreases x
  {
    if a > 0 && x > d {
      CeilMeaning(a - 1, x - d, d);
    }
  }
}
