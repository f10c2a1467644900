/** Facts about division by constants that the index arithmetic of the page tables needs. */
module Division {

  lemma DivDiv(v: nat, a: nat)
    requires a > 0
    ensures v / a / 512 == v / (a * 512)
  {
    var q, r := v / a, v % a;
    var s, t := q / 512, q % 512;
    assert v == a * q + r && q == 512 * s + t;
    Distribute(a, s, t);
    AtMost(a, t, 511);
    QuotientUnique(v, a * 512, s);
  }

  lemma Distribute(a: nat, s: nat, t: nat)
    ensures a * (512 * s + t) == (a * 512) * s + a * t
  {
  }

  lemma AtMost(a: nat, t: nat, u: nat)
    requires t <= u
    ensures a * t <= a * u
  {
  }

  lemma QuotientUnique(p: nat, d: nat, q: nat)
    requires d > 0 && d * q <= p < d * q + d
    ensures p / d == q && p % d == p - d * q
  {
    var r := p / d;
    assert d * r <= p < d * r + d;
    assert d * (r - q) == d * r - d * q;
    SmallProduct(d, r - q);
  }

  lemma SmallProduct(d: int, t: int)
    requires -d < d * t < d
    ensures t == 0
  {
  }

  lemma ModDiv(x: nat, k: nat)
    requires k > 0
    ensures (x % (512 * k)) / 512 == (x / 512) % k
  {
    var q, r := x / (512 * k), x % (512 * k);
    assert x == 512 * k * q + r;
    assert x == 512 * (k * q) + r;
    assert x / 512 == k * q + r / 512;
    QuotientUnique(x / 512, k, q);
  }

  lemma ModMod(x: nat, k: nat)
    requires k > 0
    ensures (x % (512 * k)) % 512 == x % 512
  {
    var q, r := x / (512 * k), x % (512 * k);
    assert x == 512 * (k * q) + r;
  }
}
