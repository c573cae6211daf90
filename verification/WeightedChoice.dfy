/**
 The load generator's weighted choice of the next request, and how often each
 request is chosen over one whole period of the random number generator.
 */
module WeightedChoice {
  import opened Bytes
  import opened SplitMix
  import opened Arithmetic

  /** The residues that select request `i`: an interval as long as its weight. */
  predicate Selects(weights: seq<nat>, r: int, i: nat)
    requires i < |weights|
  {
    Sum(weights[..i]) <= r < Sum(weights[..i + 1])
  }

  lemma SelectedOnce(weights: seq<nat>, r: int, i: nat, j: nat)
    requires i < |weights| && j < |weights| && Selects(weights, r, i) && Selects(weights, r, j)
    ensures i == j
  {
    if i < j { SumMonotone(weights, i + 1, j); }
    if j < i { SumMonotone(weights, j + 1, i); }
  }

  const INT_MAX: nat := 0x7fff_ffff

  /**
   `choose_request_index`. The loop subtracts weights until the remainder is
   negative. With the total of the weights the fallback return is not reached;
   in general it is reached exactly when the residue is not below their sum.
   */
  method ChooseRequestIndex(weights: seq<nat>, totalWeight: nat, rng: word)
    returns (index: nat, next: word, ghost fallback: bool)
    requires weights != [] && 0 < totalWeight <= INT_MAX
    ensures next == Advance(rng, 1) && index < |weights|
    ensures fallback <==> Output(rng, 0) % totalWeight >= Sum(weights)
    ensures if fallback then index == |weights| - 1 else Selects(weights, Output(rng, 0) % totalWeight, index)
    ensures totalWeight == Sum(weights) ==> !fallback
  {
    var out;
    next, out := NextRng(rng);
    ghost var r := out % totalWeight;
    var pick: int := out % totalWeight;
    assert weights[..0] == [];
    for i := 0 to |weights|
      invariant pick == r - Sum(weights[..i]) && pick >= 0
    {
      SumPrefix(weights, i);
      pick := pick - weights[i];
      if pick < 0 {
        SumMonotone(weights, i + 1, |weights|);
        assert weights[..|weights|] == weights;
        return i, next, false;
      }
    }
    assert weights[..|weights|] == weights;
    return |weights| - 1, next, true;
  }

  // ------------------------------------------------------------------ counting

  /** The residues below the total that select request `i`. */
  function Residues(weights: seq<nat>, i: nat): set<int>
    requires i < |weights|
  {
    set r | 0 <= r < Sum(weights) && Selects(weights, r, i)
  }

  predicate Between(r: int, lo: int, hi: int) { lo <= r < hi }

  function Interval(lo: int, hi: int): set<int> { set r: int | lo <= r < hi && Between(r, lo, hi) }

  lemma {:induction false} IntervalSize(lo: int, hi: int)
    requires lo <= hi
    ensures |Interval(lo, hi)| == hi - lo
    decreases hi - lo
  {
    if lo < hi {
      IntervalSize(lo, hi - 1);
      forall r | r in Interval(lo, hi - 1) + {hi - 1} ensures r in Interval(lo, hi) { assert Between(r, lo, hi); }
      forall r | r in Interval(lo, hi) && r != hi - 1 ensures r in Interval(lo, hi - 1) {
        assert Between(r, lo, hi - 1);
      }
      assert Interval(lo, hi) == Interval(lo, hi - 1) + {hi - 1};
    } else {
      assert Interval(lo, hi) == {};
    }
  }

  /** Request `i` is selected by exactly as many residues as its weight. */
  lemma ResidueCount(weights: seq<nat>, i: nat)
    requires i < |weights|
    ensures |Residues(weights, i)| == weights[i]
  {
    var lo, hi := Sum(weights[..i]), Sum(weights[..i + 1]);
    SumPrefix(weights, i);
    SumMonotone(weights, i + 1, |weights|);
    assert weights[..|weights|] == weights;
    IntervalSize(lo, hi);
    forall r | r in Residues(weights, i) ensures r in Interval(lo, hi) { assert Between(r, lo, hi); }
    forall r | r in Interval(lo, hi) ensures r in Residues(weights, i) { assert Selects(weights, r, i); }
    assert Residues(weights, i) == Interval(lo, hi);
  }

  /** The naturals below `n` whose residue modulo `m` lies in an interval. */
  function Hits(n: nat, m: nat, lo: nat, hi: nat): set<int>
    requires m > 0
  {
    set w: int | 0 <= w < n && lo <= w % m < hi
  }

  function Clamp(x: int, hi: nat): nat { if x < 0 then 0 else if x > hi then hi else x }

  lemma HitsStep(n: nat, m: nat, lo: nat, hi: nat)
    requires m > 0
    ensures |Hits(n + 1, m, lo, hi)| == |Hits(n, m, lo, hi)| + (if lo <= n % m < hi then 1 else 0)
  {
    var before, now := Hits(n, m, lo, hi), Hits(n + 1, m, lo, hi);
    if lo <= n % m < hi {
      assert now == before + {n};
    } else {
      assert now == before;
    }
  }

  /** How many there are below `q * m + r`: the interval once per full round, and its part of
      the last round. */
  lemma {:induction false} HitCount(q: nat, r: nat, m: nat, lo: nat, hi: nat)
    requires r < m && lo <= hi <= m
    ensures |Hits(q * m + r, m, lo, hi)| == q * (hi - lo) + Clamp(r - lo, hi - lo)
    decreases q, r
  {
    if r > 0 {
      HitCount(q, r - 1, m, lo, hi);
      Euclid(q * m + r - 1, m, q, r - 1);
      HitsStep(q * m + r - 1, m, lo, hi);
    } else if q > 0 {
      HitCount(q - 1, m - 1, m, lo, hi);
      assert (q - 1) * m + (m - 1) == q * m - 1;
      Euclid(q * m - 1, m, q - 1, m - 1);
      HitsStep(q * m - 1, m, lo, hi);
      assert q * (hi - lo) == (q - 1) * (hi - lo) + (hi - lo);
    } else {
      assert Hits(0, m, lo, hi) == {};
    }
  }

  // ------------------------------------------------------- over a whole period

  /** The calls, among the 2^64 of one period, that choose request `i`. */
  ghost function CallsChoosing(weights: seq<nat>, state: word, i: nat): set<int>
    requires i < |weights| && Sum(weights) > 0
  {
    set k: int | 0 <= k < TWO64 && Selects(weights, Output(state, k) % Sum(weights), i)
  }

  /**
   Over one period request `i` is chosen exactly as often as 64-bit words fall
   into its interval: its weight for each full round of the residues, plus its
   share of the last, incomplete round.
   */
  lemma PeriodCount(weights: seq<nat>, state: word, i: nat)
    requires i < |weights| && Sum(weights) > 0
    ensures var m := Sum(weights);
            |CallsChoosing(weights, state, i)|
            == (TWO64 / m) * weights[i] + Clamp(TWO64 % m - Sum(weights[..i]), weights[i])
  {
    hide Hits, CallsChoosing, Sum;
    var m, lo, hi := Sum(weights), Sum(weights[..i]), Sum(weights[..i + 1]);
    SumPrefix(weights, i);
    SumMonotone(weights, i + 1, |weights|);
    assert weights[..|weights|] == weights;
    CallsAreHits(weights, state, i);
    HitCount(TWO64 / m, TWO64 % m, m, lo, hi);
    DivMod(TWO64, m);
  }

  lemma CallsAreHits(weights: seq<nat>, state: word, i: nat)
    requires i < |weights| && Sum(weights) > 0
    ensures |CallsChoosing(weights, state, i)|
            == |Hits(TWO64, Sum(weights), Sum(weights[..i]), Sum(weights[..i + 1]))|
  {
    var calls := CallsChoosing(weights, state, i);
    var words := Hits(TWO64, Sum(weights), Sum(weights[..i]), Sum(weights[..i + 1]));
    var f := (k: int) => if 0 <= k < TWO64 then Output(state, k) else 0;
    var g := (w: int) => if 0 <= w < TWO64 then CallReturning(state, w) else 0;
    forall k | k in calls ensures f(k) in words && g(f(k)) == k { EveryWordOnce(state, f(k), k); }
    forall w | w in words ensures g(w) in calls && f(g(w)) == w { EveryWordOnce(state, w, g(w)); }
    SameSize(calls, words, f, g);
  }

  /** So request `i` is chosen between `weight * floor(2^64 / W)` and `weight` times more. */
  lemma PeriodBounds(weights: seq<nat>, state: word, i: nat)
    requires i < |weights| && Sum(weights) > 0
    ensures var rounds := TWO64 / Sum(weights);
            weights[i] * rounds <= |CallsChoosing(weights, state, i)| <= weights[i] * (rounds + 1)
  {
    hide CallsChoosing, Sum;
    PeriodCount(weights, state, i);
    Bounds(|CallsChoosing(weights, state, i)|, TWO64 / Sum(weights), weights[i],
           Clamp(TWO64 % Sum(weights) - Sum(weights[..i]), weights[i]));
  }

  lemma Bounds(n: nat, q: nat, d: nat, x: nat)
    requires n == q * d + x && x <= d
    ensures d * q <= n <= d * (q + 1)
  {
    assert d * (q + 1) == q * d + d;
  }
}
