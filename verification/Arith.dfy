/** Division with remainder for divisors that are not constants. */
module Arith {
  function Lesser(a: nat, b: nat): nat {
    if a < b then a else b
  }

  lemma ModUnique(x: int, m: int, q: int, r: int)
    requires m > 0 && x == m * q + r && 0 <= r < m
    ensures x % m == r
  {
    var d := x / m - q;
    assert m * d == r - x % m;
    Multiple(m, d);
  }

  lemma Multiple(m: int, d: int)
    requires m > 0
    ensures d >= 1 ==> m * d >= m
    ensures d <= -1 ==> m * d <= -m
  {
    if d >= 1 {
      assert m * (d - 1) >= 0;
    } else if d <= -1 {
      assert m * (-1 - d) >= 0;
    }
  }

  // Behind whole turns of m the remainder starts again.
  lemma ModAfterTurns(a: nat, j: nat, m: nat)
    requires m > 0 && a % m == 0 && j < m
    ensures (a + j) % m == j
  {
    ModUnique(a + j, m, a / m, j);
  }

  // a % m under a name of its own, for places that need only the two facts below.
  function Mod(a: nat, m: nat): (r: nat)
    requires m > 0
    ensures r < m
  {
    a % m
  }

  // One step of less than a turn.
  lemma ModMove(a: nat, n: nat, m: nat)
    requires 0 < m && n <= m
    ensures Mod(a + n, m) == if Mod(a, m) + n < m then Mod(a, m) + n else Mod(a, m) + n - m
  {
    var r := a % m + n;
    ModUnique(a + n, m, if r < m then a / m else a / m + 1, if r < m then r else r - m);
  }

  lemma ModSmall(a: nat, m: nat)
    requires a < m
    ensures Mod(a, m) == a
  {
    ModUnique(a, m, 0, a);
  }

  lemma ModWraps(a: nat, m: nat)
    requires m > 0
    ensures Mod(a + m, m) == Mod(a, m)
  {
    ModUnique(a + m, m, a / m + 1, a % m);
  }

  lemma ModStep(a: nat, j: nat, m: nat)
    requires m > 0 && Mod(a, m) == 0 && j < m
    ensures Mod(a + j, m) == j && Mod(a + m, m) == 0
  {
    ModAfterTurns(a, j, m);
    ModWraps(a, m);
  }
}
