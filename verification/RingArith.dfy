/** Multiplication, division and remainder as the index macros use them, written as repeated
    addition and subtraction: the node size and the node count are variables, and this form
    keeps every proof about positions linear. */
module RingArith {

  function Mul(k: nat, n: nat): nat {
    if k == 0 then 0 else Mul(k - 1, n) + n
  }

  function Div(x: nat, n: nat): (r: nat)
    requires n > 0
  {
    if x < n then 0 else Div(x - n, n) + 1
  }

  function Mod(x: nat, n: nat): (r: nat)
    requires n > 0
    ensures r < n
  {
    if x < n then x else Mod(x - n, n)
  }

  lemma {:induction false} MulIsProduct(k: nat, n: nat)
    ensures Mul(k, n) == k * n
  {
    if k > 0 {
      MulIsProduct(k - 1, n);
      assert (k - 1) * n + n == k * n;
    }
  }

  lemma DivModAreQuotientAndRemainder(x: nat, n: nat)
    requires n > 0
    ensures Div(x, n) == x / n && Mod(x, n) == x % n
  {
    DivModSplit(x, n);
    MulIsProduct(Div(x, n), n);
    QuotientUnique(n, Div(x, n), Mod(x, n), x / n, x % n);
  }

  lemma {:induction false} DivModSplit(x: nat, n: nat)
    requires n > 0
    ensures x == Mul(Div(x, n), n) + Mod(x, n)
  {
    if x >= n {
      DivModSplit(x - n, n);
    }
  }

  lemma Distributes(a: nat, b: nat, n: nat)
    ensures (a + b) * n == a * n + b * n
    ensures b > 0 ==> b * n >= n
  {
  }

  lemma QuotientUnique(n: nat, q: nat, r: nat, q': nat, r': nat)
    requires n > 0 && r < n && r' < n && q * n + r == q' * n + r'
    ensures q == q' && r == r'
  {
    if q < q' {
      Distributes(q, q' - q, n);
    }
    if q' < q {
      Distributes(q', q - q', n);
    }
  }

  lemma {:induction false} MulAdd(i: nat, j: nat, n: nat)
    ensures Mul(i + j, n) == Mul(i, n) + Mul(j, n)
  {
    if j > 0 {
      MulAdd(i, j - 1, n);
    }
  }

  lemma DivBounds(x: nat, n: nat)
    requires n > 0
    ensures Mul(Div(x, n), n) <= x < Mul(Div(x, n), n) + n
    ensures x >= n ==> Div(x, n) >= 1
  {
    DivModSplit(x, n);
  }
}
