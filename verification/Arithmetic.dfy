/** Division and counting facts used by several models. */
module Arithmetic {

  /** Euclidean division is determined by its equation. */
  lemma Euclid(a: nat, m: nat, q: nat, r: nat)
    requires m > 0 && a == q * m + r && r < m
    ensures a / m == q && a % m == r
  {
    var d := a / m - q;
    assert a == (a / m) * m + a % m;
    assert d * m == r - a % m;
    assert d >= 1 ==> d * m >= m;
    assert d <= -1 ==> d * m + m <= 0;
  }

  lemma DivMod(a: nat, m: nat)
    requires m > 0
    ensures a == (a / m) * m + a % m
  {
  }

  lemma DivSmall(a: nat, m: nat)
    requires a < m
    ensures a / m == 0 && a % m == a
  {
  }

  lemma DivStep(a: nat, m: nat)
    requires m > 0
    ensures (a + m) / m == a / m + 1 && (a + m) % m == a % m
  {
    DivMod(a, m);
    assert a + m == (a / m + 1) * m + a % m;
    Euclid(a + m, m, a / m + 1, a % m);
  }

  function Min(a: nat, b: nat): nat { if a <= b then a else b }

  /** How many pieces of `k` cover `n`, the last one shorter if need be. */
  function Pieces(n: nat, k: nat): nat
    requires k > 0
  {
    if n == 0 then 0 else 1 + Pieces(n - Min(k, n), k)
  }

  lemma {:induction false} PiecesIsCeiling(n: nat, k: nat)
    requires k > 0
    ensures Pieces(n, k) == (n + k - 1) / k
  {
    if n > k {
      PiecesIsCeiling(n - k, k);
      DivStep(n - 1, k);
    } else if n > 0 {
      assert Pieces(n, k) == 1 + Pieces(0, k) == 1;
      DivStep(n - 1, k);
      DivSmall(n - 1, k);
    } else {
      DivSmall(k - 1, k);
    }
  }

  /** The sum of a list. */
  function Sum(ns: seq<nat>): nat {
    if ns == [] then 0 else Sum(ns[..|ns| - 1]) + ns[|ns| - 1]
  }

  lemma SumPrefix(ns: seq<nat>, i: nat)
    requires i < |ns|
    ensures Sum(ns[..i + 1]) == Sum(ns[..i]) + ns[i]
  {
    assert ns[..i + 1][..i] == ns[..i];
  }

  lemma {:induction false} SumMonotone(ns: seq<nat>, i: nat, j: nat)
    requires i <= j <= |ns|
    ensures Sum(ns[..i]) <= Sum(ns[..j])
    decreases j
  {
    if i < j {
      SumMonotone(ns, i, j - 1);
      SumPrefix(ns, j - 1);
    }
  }

  /** Two functions that undo each other between two sets make the sets equally large. */
  lemma {:induction false} SameSize<A, B>(a: set<A>, b: set<B>, f: A -> B, g: B -> A)
    requires forall x :: x in a ==> f(x) in b && g(f(x)) == x
    requires forall y :: y in b ==> g(y) in a && f(g(y)) == y
    ensures |a| == |b|
    decreases a
  {
    if a == {} {
      assert forall y :: y in b ==> g(y) in a;
      assert b == {};
    } else {
      var x :| x in a;
      SameSize(a - {x}, b - {f(x)}, f, g);
    }
  }
}
