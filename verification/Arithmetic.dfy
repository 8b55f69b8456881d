/** Division with remainder, for the few places that need more than linear arithmetic. */
module Arithmetic {

  lemma {:induction false} MultiplesApart(m: int, d: int)
    requires m > 0
    ensures d >= 1 ==> m * d >= m
    ensures d <= -1 ==> m * d <= -m
    ensures d >= 2 ==> m * d >= 2 * m
    ensures d <= -2 ==> m * d <= -2 * m
  {}

  lemma {:induction false} DivisionIsUnique(x: int, m: int, q: int, r: int)
    requires m > 0 && 0 <= r < m && x == m * q + r
    ensures x / m == q && x % m == r
  {
    var d := x / m - q;
    assert m * d == r - x % m by {
      assert x == m * (x / m) + x % m;
      assert m * d == m * (x / m) - m * q;
    }
    MultiplesApart(m, d);
  }

  lemma {:induction false} MultipleMod(x: int, m: int, t: int)
    requires m > 0
    ensures (x + m * t) % m == x % m && (x + m * t) / m == x / m + t
  {
    assert x + m * t == m * (x / m + t) + x % m by {
      assert m * (x / m + t) == m * (x / m) + m * t;
    }
    DivisionIsUnique(x + m * t, m, x / m + t, x % m);
  }

  lemma {:induction false} AddMod(x: int, m: int, i: int)
    requires m > 0 && 0 <= i && x % m + i < m
    ensures (x + i) % m == x % m + i && (x + i) / m == x / m
  {
    DivisionIsUnique(x + i, m, x / m, x % m + i);
  }

  /** Counters less than one turn apart have different residues. */
  lemma {:induction false} DistinctMod(x: int, y: int, m: int)
    requires m > 0 && x < y < x + m
    ensures x % m != y % m
  {
    var q := y / m - x / m;
    assert y == m * (y / m) + y % m && x == m * (x / m) + x % m;
    assert m * q == m * (y / m) - m * (x / m);
    MultiplesApart(m, q);
  }

  lemma {:induction false} MultiplyAssociates(x: int, y: int, z: int)
    ensures (x * y) * z == x * (y * z)
  {}

  function Pow2(k: nat): (p: nat)
    ensures p > 0
  {
    if k == 0 then 1 else 2 * Pow2(k - 1)
  }

  lemma {:induction false} Pow2Adds(j: nat, k: nat)
    ensures Pow2(j + k) == Pow2(j) * Pow2(k)
    decreases j
  {
    if j > 0 {
      Pow2Adds(j - 1, k);
    }
  }
}
