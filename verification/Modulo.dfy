/** Facts about remainders that the other modules use. */
module Modulo {

  lemma MulAtLeast(x: int, d: nat)
    requires x >= 1
    ensures x * d >= d
  {
  }

  lemma RemainderUnique(d: nat, q: int, r: nat, q': int, r': nat)
    requires r < d && r' < d && q * d + r == q' * d + r'
    ensures q == q' && r == r'
  {
    assert (q - q') * d == r' - r;
    if q > q' {
      MulAtLeast(q - q', d);
    } else if q < q' {
      assert (q' - q) * d == r - r';
      MulAtLeast(q' - q, d);
    }
  }

  lemma ModUnique(x: int, q: int, d: nat, r: nat)
    requires r < d && x == q * d + r
    ensures x % d == r && x / d == q
  {
    RemainderUnique(d, q, r, x / d, x % d);
  }

  lemma ModNext(n: nat, d: nat)
    requires d > 0
    ensures (n + 1) % d == if n % d + 1 == d then 0 else n % d + 1
  {
    var q, r := n / d, n % d;
    if r + 1 == d {
      assert n + 1 == (q + 1) * d + 0;
      ModUnique(n + 1, q + 1, d, 0);
    } else {
      ModUnique(n + 1, q, d, r + 1);
    }
  }

  lemma ModShift(n: nat, m: nat, d: nat)
    requires d > 0 && m % d == 0
    ensures (n + m) % d == n % d
  {
    var q, q' := n / d, m / d;
    assert n + m == (q + q') * d + n % d;
    ModUnique(n + m, q + q', d, n % d);
  }
}
