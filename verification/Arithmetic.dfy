/** Integer bounds, and facts about whole-number division that the solver does not find by itself. */
module Arithmetic {
  const I64_MAX: nat := 0x7FFF_FFFF_FFFF_FFFF

  function Min(a: nat, b: nat): nat {
    if a < b then a else b
  }

  lemma MulStep(q: nat, k: nat, d: nat)
    requires q < k
    ensures d * q + d <= d * k
  {
    var e := k - q;
    Distribute(d, q, e);
    assert d * e >= d * 1;
  }

  lemma Distribute(d: nat, a: nat, b: nat)
    ensures d * (a + b) == d * a + d * b
  {}

  lemma QuotientUnique(d: nat, q: nat, r: nat, k: nat, t: nat)
    requires r < d && t < d && d * q + r == d * k + t
    ensures q == k
  {
    if q < k {
      MulStep(q, k, d);
    } else if k < q {
      MulStep(k, q, d);
    }
  }

  lemma DropBlock(n: nat, size: nat)
    requires 0 < size <= n
    ensures n / size == (n - size) / size + 1
  {
    var m, q, k := n - size, (n - size) / size, n / size;
    assert m == size * q + m % size && n == size * k + n % size;
    assert size * (q + 1) == size * q + size;
    QuotientUnique(size, q + 1, m % size, k, n % size);
  }

  lemma SmallQuotient(n: nat, size: nat)
    requires n < size
    ensures n / size == 0
  {}

  lemma QuotientMonotone(a: nat, b: nat, d: nat)
    requires a <= b && 0 < d
    ensures a / d <= b / d
  {
    var q, k := a / d, b / d;
    assert a == d * q + a % d && b == d * k + b % d;
    if k < q {
      MulStep(k, q, d);
    }
  }
}
