/** Products and comparisons, each in a lemma of its own to keep multiplication away from other proofs. */
module Arithmetic {
  function Min(a: int, b: int): int {
    if a < b then a else b
  }

  lemma MulLess(a: int, b: int, c: int)
    requires a < b && 0 < c
    ensures a * c < b * c
  {
  }

  lemma MulLessEq(a: int, b: int, c: int)
    requires a <= b && 0 <= c
    ensures a * c <= b * c
  {
  }

  lemma MulCancel(a: int, b: int, c: int)
    requires a * c < b * c && 0 <= c
    ensures a < b
  {
    if b <= a {
      MulLessEq(b, a, c);
    }
  }

  lemma MulNext(n: int, c: int)
    ensures (n + 1) * c == n * c + c
  {
  }

  lemma DivisionBounds(a: nat, b: nat)
    requires 0 < b
    ensures a / b * b <= a < (a / b + 1) * b
  {
  }

  function Pow256(n: nat): (p: nat)
    ensures 0 < p
  {
    if n == 0 then 1 else 256 * Pow256(n - 1)
  }

  lemma {:induction false} Pow256Step(a: nat, b: nat)
    requires a < b
    ensures 256 * Pow256(a) <= Pow256(b)
    decreases b
  {
    if a + 1 < b {
      Pow256Step(a, b - 1);
    }
  }

  lemma {:induction false} Pow256Sum(a: nat, b: nat)
    ensures Pow256(a + b) == Pow256(a) * Pow256(b)
  {
    if a != 0 {
      Pow256Sum(a - 1, b);
      assert 256 * (Pow256(a - 1) * Pow256(b)) == 256 * Pow256(a - 1) * Pow256(b);
    }
  }

  lemma ScaleSum(x: int, y: int, p: int)
    ensures 256 * (x + y * p) == 256 * x + y * (256 * p)
  {
  }
}
