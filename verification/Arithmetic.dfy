/** Products and quotients of unbounded numbers, one step at a time. */
module Arithmetic {
  lemma MulMono(a: nat, b: nat, k: nat)
    requires a <= b
    ensures a * k <= b * k
  {
    assert (b - a) * k >= 0;
  }

  lemma MulStep(a: nat, b: nat, k: nat)
    ensures a < b ==> a * k + k <= b * k
  {
    if a < b {
      MulMono(a + 1, b, k);
      assert (a + 1) * k == a * k + k;
    }
  }

  lemma DivUnique(x: nat, size: nat, q: nat, r: nat)
    requires size > 0 && x == q * size + r && r < size
    ensures x / size == q
  {
    var d := x / size;
    assert x == d * size + x % size;
    MulStep(d, q, size);
    MulStep(q, d, size);
  }

  /** Dividing by 256 and then by another number is dividing by their product. */
  lemma DivBy256(n: nat, b: nat)
    requires b > 0
    ensures n / 256 / b == n / (256 * b)
  {
    var x := n / 256;
    var q, m := x / b, x % b;
    assert x == b * q + m;
    Recombine(q, b, m, n % 256);
    DivUnique(n, 256 * b, q, 256 * m + n % 256);
  }

  lemma Recombine(q: nat, b: nat, m: nat, r: nat)
    requires m < b && r < 256
    ensures 256 * (b * q + m) + r == q * (256 * b) + (256 * m + r)
    ensures 256 * m + r < 256 * b
  {
    assert q * (256 * b) == 256 * (b * q);
  }

  lemma Associate(x: nat, y: nat, z: nat)
    ensures x * y * z == x * (y * z)
  {
  }
}
