/** The divisors of 2^32 - 1 = 3 * 5 * 17 * 257 * 65537. */
module Divisors {

  ghost predicate Prime(q: nat) {
    q > 1 && forall k :: 2 <= k < q ==> q % k != 0
  }

  // --- Small facts about products -----------------------------------------

  lemma ProductMonotone(a: int, b: int, c: int)
    requires a <= b && 0 <= c
    ensures a * c <= b * c
  {
  }

  lemma NonNegativeFactor(x: int, q: int)
    requires q > 0 && x * q > -q
    ensures x >= 0
  {
    if x < 0 {
      ProductMonotone(x, -1, q);
    }
  }

  lemma MultipleMod(k: int, q: int)
    requires q > 0
    ensures (k * q) % q == 0
  {
    var x := k * q;
    var d := k - x / q;
    assert d * q == x - (x / q) * q == x % q;
    NonNegativeFactor(d, q);
    NonNegativeFactor(-d, q);
  }

  lemma Cancel(q: int, x: int, y: int)
    requires q > 0 && q * x == q * y
    ensures x == y
  {
    assert (x - y) * q == 0;
    NonNegativeFactor(x - y, q);
    assert (y - x) * q == 0;
    NonNegativeFactor(y - x, q);
  }

  // --- Primes --------------------------------------------------------------

  lemma Cofactor(q: nat, b: nat, k: nat)
    requires 0 < b <= k < q < b * b && q % k == 0
    ensures 2 <= q / k < b && q % (q / k) == 0
  {
    var j := q / k;
    assert q == j * k;
    if j >= b {
      ProductMonotone(b, k, b);
      ProductMonotone(b, j, k);
    } else if j <= 1 {
      ProductMonotone(j, 1, k);
    } else {
      assert q == k * j;
      MultipleMod(k, j);
    }
  }

  lemma PrimeBySmallDivisors(q: nat, b: nat)
    requires 2 < b <= q < b * b
    requires forall k :: 2 <= k < b ==> q % k != 0
    ensures Prime(q)
  {
    forall k | 2 <= k < q ensures q % k != 0 {
      if k >= b && q % k == 0 {
        Cofactor(q, b, k);
      }
    }
  }

  lemma NoSmallDivisor(k: nat)
    requires 2 <= k < 257
    ensures 65537 % k != 0
  {
    var j := 65537 / k;
    assert 65537 == k * j + 65537 % k;
  }

  lemma FermatPrime65537()
    ensures Prime(65537)
  {
    forall k | 2 <= k < 257 ensures 65537 % k != 0 {
      NoSmallDivisor(k);
    }
    PrimeBySmallDivisors(65537, 257);
  }

  lemma FermatPrime257()
    ensures Prime(257)
  {
    forall k | 2 <= k < 17 ensures 257 % k != 0 {
    }
    PrimeBySmallDivisors(257, 17);
  }

  lemma FermatPrime17()
    ensures Prime(3) && Prime(5) && Prime(17)
  {
  }

  lemma ReduceFactor(q: int, k: int, a: int, b: int, m: int)
    requires a * b == m * q
    ensures (a - k * q) * b == (m - k * b) * q
  {
    assert (a - k * q) * b == a * b - k * (q * b);
    assert (m - k * b) * q == m * q - k * (q * b);
  }

  lemma RemainderProduct(q: int, k: int, a: int, b: int, m: int)
    requires a * b == m * q
    ensures (q - k * a) * b == (b - k * m) * q
  {
    assert (q - k * a) * b == q * b - k * (a * b);
    assert (b - k * m) * q == q * b - k * (m * q);
  }

  /** A prime q dividing a * b divides b, if 0 < a < q. */
  lemma {:induction false} EuclidsLemma(q: nat, a: nat, b: nat, m: int) returns (e: int)
    requires Prime(q) && 0 < a < q && a * b == m * q
    ensures b == e * q
    decreases a
  {
    if a == 1 {
      e := m;
    } else {
      var k := q / a;
      RemainderProduct(q, k, a, b, m);
      e := EuclidsLemma(q, q % a, b, b - k * m);
    }
  }

  lemma CancelFactor(m: int, f: int, q: int, n: int)
    requires q > 0 && m * (f * q) == n * q
    ensures m * f == n
  {
    assert q * (m * f) == m * (f * q);
    Cancel(q, m * f, n);
  }

  /** If a prime q does not divide the cofactor m of d, it can be taken out of d. */
  lemma TakeOut(q: nat, d: nat, m: nat, n: nat) returns (e: nat)
    requires Prime(q) && m * d == n * q && m % q != 0
    ensures m * e == n
  {
    var k, r := m / q, m % q;
    ReduceFactor(q, k, m, d, n);
    var f := EuclidsLemma(q, r, d, n - k * d);
    NonNegativeFactor(f, q);
    CancelFactor(m, f, q, n);
    e := f;
  }

  /** A proper divisor of 2^32 - 1 leaves a cofactor m divisible by one of the five primes. */
  lemma CofactorHasFermatPrime(d: nat, m: nat)
    requires m * d == 0xFFFF_FFFF && m > 1
    ensures m % 3 == 0 || m % 5 == 0 || m % 17 == 0 || m % 257 == 0 || m % 65537 == 0
  {
    FermatPrime17();
    FermatPrime257();
    FermatPrime65537();
    if m % 3 != 0 && m % 5 != 0 && m % 17 != 0 && m % 257 != 0 && m % 65537 != 0 {
      var a := TakeOut(3, d, m, 0x5555_5555);
      var b := TakeOut(5, a, m, 0x1111_1111);
      var c := TakeOut(17, b, m, 0x0101_0101);
      var e := TakeOut(257, c, m, 0x1_0001);
      var f := TakeOut(65537, e, m, 1);
    }
  }
}
