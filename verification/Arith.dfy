// Facts about division that the block arithmetic rests on.
module Arith {

  function CeilDiv(n: nat, d: nat): nat
    requires d > 0
  {
    (n + d - 1) / d
  }

  function Min(a: nat, b: nat): nat {
    if a < b then a else b
  }

  function Max(a: nat, b: nat): nat {
    if a < b then b else a
  }

  lemma MulMono(a: nat, b: nat, d: nat)
    requires a <= b
    ensures a * d <= b * d
  {
    assert b * d - a * d == (b - a) * d;
  }

  lemma QuotientAtLeast(q: nat, n: nat, d: nat)
    requires d > 0 && q * d <= n
    ensures q <= n / d
  {
    var r := n / d;
    assert (r + 1) * d == r * d + d;
    if r < q { MulMono(r + 1, q, d); }
  }

  lemma QuotientAtMost(q: nat, n: nat, d: nat)
    requires d > 0 && n < q * d + d
    ensures n / d <= q
  {
    var r := n / d;
    assert (q + 1) * d == q * d + d;
    if q < r { MulMono(q + 1, r, d); }
  }

  // Quotient and remainder are determined by the division equation.
  lemma DivModUnique(n: nat, d: nat, q: nat, r: nat)
    requires d > 0 && r < d && n == q * d + r
    ensures n / d == q && n % d == r
  {
    QuotientAtLeast(q, n, d);
    QuotientAtMost(q, n, d);
  }

  // `index` lies below the rounded-up quotient exactly when its start lies below `n`.
  lemma BelowCeilDiv(index: nat, n: nat, d: nat)
    requires d > 0
    ensures index < CeilDiv(n, d) <==> index * d < n
  {
    if index * d < n {
      assert (index + 1) * d == index * d + d;
      QuotientAtLeast(index + 1, n + d - 1, d);
    } else {
      QuotientAtMost(index, n + d - 1, d);
    }
  }

  lemma CeilDivShift(k: nat, n: nat, d: nat)
    requires d > 0
    ensures k * d >= 0 && CeilDiv(k * d + n, d) == k + CeilDiv(n, d)
  {
    MulMono(0, k, d);
    var q := CeilDiv(n, d);
    assert (k + q) * d == k * d + q * d;
    DivModUnique(k * d + n + d - 1, d, k + q, (n + d - 1) % d);
  }

  lemma QuotientBelow(k: nat, n: nat, d: nat)
    requires d > 0
    ensures n / d <= k <==> n < k * d + d
  {
    if n < k * d + d {
      QuotientAtMost(k, n, d);
    } else {
      assert (k + 1) * d == k * d + d;
      QuotientAtLeast(k + 1, n, d);
    }
  }

  lemma AfterWholeBlocks(a: nat, w: nat, d: nat)
    requires d > 0 && w % d == 0
    ensures (a + w / d) * d == a * d + w
  {
    var q := w / d;
    assert (a + q) * d == a * d + q * d;
  }

  lemma CeilDivIs(n: nat, d: nat)
    requires d > 0
    ensures CeilDiv(n, d) == n / d + if n % d == 0 then 0 else 1
  {
    var q, r := n / d, n % d;
    if r == 0 {
      DivModUnique(n + d - 1, d, q, d - 1);
    } else {
      assert (q + 1) * d == q * d + d;
      DivModUnique(n + d - 1, d, q + 1, r - 1);
    }
  }
}
