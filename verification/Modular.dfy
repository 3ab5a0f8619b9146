/** Quotients and remainders by a variable. */
module Modular {

  lemma ModUnique(n: nat, d: nat, q: nat, r: nat)
    requires d > 0 && r < d && n == q * d + r
    ensures n / d == q && n % d == r
  {
    var k, x := n / d - q, r - n % d;
    Division(n, d);
    Distributes(n / d, q, d);
    OnlyZero(k, d, x);
  }

  lemma Division(n: nat, d: nat)
    requires d > 0
    ensures n == n / d * d + n % d && 0 <= n % d < d
  {
  }

  lemma Distributes(a: int, b: int, d: nat)
    ensures (a - b) * d == a * d - b * d
  {
  }

  lemma AtLeastOne(k: int, d: int)
    requires d > 0 && k >= 1
    ensures k * d >= d && (0 - k) * d == 0 - k * d
  {
  }

  lemma OnlyZero(k: int, d: int, x: int)
    requires d > 0 && k * d == x && 0 - d < x < d
    ensures k == 0
  {
    if k >= 1 { AtLeastOne(k, d); }
    if k <= -1 { AtLeastOne(0 - k, d); }
  }

  /** Positions a whole ring apart are the same place. */
  lemma SamePlace(a: nat, b: nat, m: nat)
    requires m > 0
    ensures (a % m + b) % m == (a + b) % m
  {
    var x := a % m + b;
    Division(a, m);
    Division(x, m);
    Distributes(a / m, 0 - x / m, m);
    Distributes(0, x / m, m);
    ModUnique(a + b, m, a / m + x / m, x % m);
  }
}
