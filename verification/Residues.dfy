/** Remainders to one positive modulus. */
module Residues {
  lemma Small(a: int, m: int)
    requires 0 <= a < m
    ensures a % m == a
  {
  }

  lemma {:induction false} NotNegative(a: nat, m: nat)
    ensures a * m >= 0
  {
    if a > 0 {
      NotNegative(a - 1, m);
      assert a * m == (a - 1) * m + m;
    }
  }

  /** Two numbers that differ by a multiple of m, both below m, are equal. */
  lemma Multiples(k: int, m: int)
    requires m > 0
    ensures k > 0 ==> k * m >= m
    ensures k < 0 ==> k * m + m <= 0
  {
    if k > 0 {
      NotNegative(k - 1, m);
      assert k * m == (k - 1) * m + m;
    } else if k < 0 {
      NotNegative(-k - 1, m);
      assert (-k - 1) * m == -(k * m) - m;
    }
  }

  lemma Between(k: int, d: int, m: int)
    requires m > 0 && k * m == d && d < m && d + m > 0
    ensures d == 0
  {
    Multiples(k, m);
  }

  lemma SameRemainder(a: int, b: int, k: int, m: int)
    requires m > 0 && a == b + k * m
    ensures a % m == b % m
  {
    var q := a / m - b / m - k;
    assert a == a / m * m + a % m && b == b / m * m + b % m;
    assert q * m == a / m * m - b / m * m - k * m;
    Between(-q, a % m - b % m, m);
  }

  /** Parts of the same parity make an even number. */
  lemma EvenSum(r: int, x: int)
    ensures r % 2 == x % 2 ==> (r + x) % 2 == 0
  {
    if r % 2 == x % 2 {
      assert r + x == (r % 2 + r / 2 + x / 2) * 2;
      Digit(0, r % 2 + r / 2 + x / 2, 2);
    }
  }

  /** A remainder to m below the lowest digit n. */
  lemma Digit(a: int, n: int, m: int)
    requires m > 0 && 0 <= a < m
    ensures (a + n * m) % m == a
  {
    SameRemainder(a + n * m, a, n, m);
    Small(a, m);
  }
}
