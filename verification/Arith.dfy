/** Facts about products, quotients and remainders used by the slot arithmetic. */
module Arith {
  lemma MulLe(a: nat, b: nat, c: nat)
    requires a <= b
    ensures a * c <= b * c
  {
  }

  lemma MulSign(k: int, m: int)
    requires m > 0
    ensures k <= 0 ==> k * m <= 0
    ensures k >= 1 ==> k * m >= m
  {
  }

  lemma DivMod(x: nat, m: nat)
    requires m > 0
    ensures x == x / m * m + x % m && 0 <= x % m < m && 0 <= x / m
  {
  }

  lemma ModUnique(x: nat, q: nat, r: nat, m: nat)
    requires m > 0 && r < m && x == q * m + r
    ensures x % m == r && x / m == q
  {
    DivMod(x, m);
    var k := x / m - q;
    assert k * m == x / m * m - q * m;
    MulSign(k, m);
    MulSign(-k, m);
  }

  lemma ModAdd(a: nat, m: nat)
    requires m > 0
    ensures (a + m) % m == a % m
  {
    DivMod(a, m);
    assert (a / m + 1) * m == a / m * m + m;
    ModUnique(a + m, a / m + 1, a % m, m);
  }

  lemma ModSmall(a: nat, m: nat)
    requires a < m
    ensures a % m == a && a / m == 0
  {
  }

  /** Numbers less than one lap apart have different remainders. */
  lemma ModApart(a: nat, b: nat, m: nat)
    requires 0 < m && a < b < a + m
    ensures a % m != b % m
  {
    DivMod(a, m);
    DivMod(b, m);
    var k := b / m - a / m;
    assert k * m == b / m * m - a / m * m;
    MulSign(k, m);
  }

  /** The quotient only grows with the dividend. */
  lemma DivMonotone(x: nat, y: nat, m: nat)
    requires m > 0 && x <= y
    ensures x / m <= y / m
  {
    DivMod(x, m);
    DivMod(y, m);
    var k := x / m - y / m;
    assert k * m == x / m * m - y / m * m;
    MulSign(k, m);
  }

  lemma ModSucc(a: nat, m: nat)
    requires m > 0
    ensures (a % m + 1) % m == (a + 1) % m
  {
    DivMod(a, m);
    if a % m + 1 == m {
      assert (a / m + 1) * m == a / m * m + m;
      ModUnique(a + 1, a / m + 1, 0, m);
      ModAdd(0, m);
      ModSmall(0, m);
    } else {
      ModUnique(a + 1, a / m, a % m + 1, m);
      ModSmall(a % m + 1, m);
    }
  }

  lemma ModShift(a: nat, k: nat, m: nat)
    requires m > 0
    ensures (a % m + k) % m == (a + k) % m
  {
    DivMod(a, m);
    var x := a % m + k;
    DivMod(x, m);
    assert (a / m + x / m) * m == a / m * m + x / m * m;
    ModUnique(a + k, a / m + x / m, x % m, m);
  }
}
