/** Machine words, and facts about products and remainders, that the other modules share. */
module Arith {

  const WORD: nat := 0x1_0000_0000_0000_0000
  const WORD32: nat := 0x1_0000_0000

  function Least(a: nat, b: nat): (r: nat) {
    if a < b then a else b
  }

  function Most(a: nat, b: nat): (r: nat) {
    if a < b then b else a
  }

  lemma MulMonotone(d: nat, a: nat, b: nat)
    requires a <= b
    ensures d * a <= d * b
  {
  }

  lemma MulAtLeast(d: int, n: int)
    requires 0 <= d && 1 <= n
    ensures d * n >= d
  {
  }

  lemma Distribute(d: int, a: int, b: int)
    ensures d * (a - b) == d * a - d * b
    ensures d * (a + b) == d * a + d * b
  {
  }

  lemma DivMod(x: int, d: int)
    requires 0 < d
    ensures x == d * (x / d) + x % d && 0 <= x % d < d
  {
  }

  lemma DivModUnique(x: int, d: int, k: int, r: int)
    requires 0 <= r < d && x == d * k + r
    ensures x % d == r && x / d == k
  {
    var q := x / d;
    DivMod(x, d);
    Distribute(d, k, q);
    Distribute(d, q, k);
    if k > q {
      MulAtLeast(d, k - q);
    } else if k < q {
      MulAtLeast(d, q - k);
    }
  }

  /** A multiple of `d` lies below a multiple of `d` together with the whole block it starts. */
  lemma BlockBelow(d: nat, k: nat, m: nat, x: nat)
    requires d * k <= x < d * k + d
    ensures d * k < d * m <==> x < d * m
  {
    if k < m {
      MulMonotone(d, k + 1, m);
      Distribute(d, k, 1);
    } else {
      MulMonotone(d, m, k);
    }
  }
}
