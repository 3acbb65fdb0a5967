/** The memoised probability engine: an exploding die object that answers
    "probability of a total of at least target" by recursion on the target,
    storing each computed value in its own cache, under a recursion-depth guard. */
module ExplodingDice {
  import opened Arith
  import opened DieMath

  /** The depth guard used when the caller gives none. */
  const DefaultMaxDepth := 1000

  /** Every cached entry is for a target of at least 2 and never over-counts:
      a value cut short by the depth guard can only be too small. */
  ghost predicate Sound(n: int, cache: map<int, real>)
    requires n >= 1
  {
    forall k :: k in cache ==> k >= 2 && 0.0 <= cache[k] <= Prob(n, k)
  }

  /** Every cached entry is the exact probability. */
  ghost predicate Exact(n: int, cache: map<int, real>)
    requires n >= 1
  {
    forall k :: k in cache ==> k >= 2 && cache[k] == Prob(n, k)
  }

  /** The depth guard is deep enough to reach the base case from t:
      for t >= 2 this is maxDepth > (t - 2) / n. */
  predicate Deep(n: int, t: int, d: int) {
    t <= 1 || t - 2 < d * n
  }

  /** k is one of t, t - n, t - 2n, ... */
  predicate OnChain(n: int, t: int, k: int)
    requires n >= 1
    decreases t - k
  {
    k == t || (k < t && OnChain(n, t - n, k))
  }

  /** What one call with target t and depth guard d returns, and the cache it
      leaves behind, starting from the given cache. */
  function Query(n: int, cache: map<int, real>, t: int, d: int): (res: (real, map<int, real>))
    requires n >= 1 && Sound(n, cache)
    ensures Sound(n, res.1)
    ensures 0.0 <= res.0 <= Prob(n, t)
    decreases d
  {
    if t <= 1 then (1.0, cache)
    else if t in cache then (cache[t], cache)
    else if d <= 0 then (0.0, cache)
    else
      var sub := Query(n, cache, t - n, d - 1);
      var r := Step(n, DirectCount(n, t), sub.0);
      StepSound(n, t, sub.0);
      SoundUpdate(n, sub.1, t, r);
      (r, sub.1[t := r])
  }

  /** One step of the recurrence from an under-approximation of the smaller
      target under-approximates the larger one. */
  lemma StepSound(n: int, t: int, q: real)
    requires n >= 1 && t >= 2 && 0.0 <= q <= Prob(n, t - n)
    ensures 0.0 <= Step(n, DirectCount(n, t), q) <= Prob(n, t)
  {
    StepMonotone(n, 0, DirectCount(n, t), 0.0, q);
    StepMonotone(n, DirectCount(n, t), DirectCount(n, t), q, Prob(n, t - n));
  }

  lemma SoundUpdate(n: int, cache: map<int, real>, k: int, v: real)
    requires n >= 1 && Sound(n, cache) && k >= 2 && 0.0 <= v <= Prob(n, k)
    ensures Sound(n, cache[k := v])
  {
  }

  lemma {:induction false} OnChainBelow(n: int, t: int, k: int)
    requires n >= 1 && OnChain(n, t, k)
    ensures k <= t
    decreases t - k
  {
    if k != t {
      OnChainBelow(n, t - n, k);
    }
  }

  /** The cache only grows: existing entries keep their values, and the only
      keys a call adds are t, t - n, t - 2n, ... that are at least 2. */
  lemma {:induction false} QueryGrows(n: int, cache: map<int, real>, t: int, d: int)
    requires n >= 1 && Sound(n, cache)
    ensures var c := Query(n, cache, t, d).1;
      (forall k :: k in cache ==> k in c && c[k] == cache[k]) &&
      (forall k :: k in c && k !in cache ==> 2 <= k <= t && OnChain(n, t, k))
    decreases d
  {
    if t >= 2 && t !in cache && d > 0 {
      QueryGrows(n, cache, t - n, d - 1);
      var c := Query(n, cache, t, d).1;
      forall k | k in c && k !in cache
        ensures 2 <= k <= t && OnChain(n, t, k)
      {
        if k != t {
          assert k in Query(n, cache, t - n, d - 1).1;
          OnChainBelow(n, t - n, k);
        }
      }
    }
  }

  /** A call whose depth guard is deep enough, on a cache of exact values,
      returns the exact probability and leaves only exact values behind. */
  lemma {:induction false} QueryExact(n: int, cache: map<int, real>, t: int, d: int)
    requires n >= 1 && Exact(n, cache) && Deep(n, t, d)
    ensures Sound(n, cache)
    ensures Query(n, cache, t, d).0 == Prob(n, t)
    ensures Exact(n, Query(n, cache, t, d).1)
    decreases d
  {
    assert Sound(n, cache);
    if t >= 2 && t !in cache {
      DeepStep(n, t, d);
      QueryExact(n, cache, t - n, d - 1);
      var sub := Query(n, cache, t - n, d - 1);
      var r := Step(n, DirectCount(n, t), sub.0);
      assert Query(n, cache, t, d) == (r, sub.1[t := r]);
      ExactUpdate(n, sub.1, t, r);
    }
  }

  /** On a fresh die a guard that is not deep enough always under-counts: the
      guard fires at a target of at least 2, whose true probability is
      positive, and every step up the chain keeps the shortfall. */
  lemma {:induction false} QueryTruncates(n: int, t: int, d: int)
    requires n >= 1 && !Deep(n, t, d)
    ensures Sound(n, map[])
    ensures Query(n, map[], t, d).0 < Prob(n, t)
    decreases d
  {
    assert Sound(n, map[]);
    if d > 0 {
      ShallowStep(n, t, d);
      QueryTruncates(n, t - n, d - 1);
      var sub := Query(n, map[], t - n, d - 1);
      assert Query(n, map[], t, d).0 == Step(n, DirectCount(n, t), sub.0);
      StepStrict(n, DirectCount(n, t), sub.0, Prob(n, t - n));
    }
  }

  /** So on a fresh die the engine is exact precisely when the guard is deep
      enough: maxDepth > (target - 2) / n. */
  lemma FreshExactIff(n: int, t: int, d: int)
    requires n >= 1
    ensures Sound(n, map[])
    ensures Query(n, map[], t, d).0 == Prob(n, t) <==> Deep(n, t, d)
  {
    assert Exact(n, map[]);
    if Deep(n, t, d) {
      QueryExact(n, map[], t, d);
    } else {
      QueryTruncates(n, t, d);
    }
  }

  /** A guard that is too shallow at t is too shallow at t - n one level down,
      and t - n is still at least 2. */
  lemma ShallowStep(n: int, t: int, d: int)
    requires n >= 1 && d > 0 && !Deep(n, t, d)
    ensures t - n >= 2 && !Deep(n, t - n, d - 1)
  {
    MulAtLeast(d, n);
    assert (d - 1) * n == d * n - n;
  }

  lemma StepStrict(n: int, c: int, q1: real, q0: real)
    requires n >= 1 && q1 < q0
    ensures Step(n, c, q1) < Step(n, c, q0)
  {
    DivLess(c as real + q1, c as real + q0, n as real);
  }

  /** From t >= 2 a deep enough guard allows one more step, and stays deep
      enough for t - n. */
  lemma DeepStep(n: int, t: int, d: int)
    requires n >= 1 && t >= 2 && Deep(n, t, d)
    ensures d > 0 && Deep(n, t - n, d - 1)
  {
    NonPositiveProduct(d, n);
    assert (d - 1) * n == d * n - n;
  }

  lemma ExactUpdate(n: int, cache: map<int, real>, k: int, v: real)
    requires n >= 1 && Exact(n, cache) && k >= 2 && v == Prob(n, k)
    ensures Exact(n, cache[k := v])
  {
  }

  /** A cache hit returns the stored value and changes nothing; an uncached
      target with the depth guard spent returns 0 and stores nothing. */
  lemma QueryShortCircuit(n: int, cache: map<int, real>, t: int, d: int)
    requires n >= 1 && Sound(n, cache) && t >= 2
    ensures t in cache ==> Query(n, cache, t, d) == (cache[t], cache)
    ensures t !in cache && d <= 0 ==> Query(n, cache, t, d) == (0.0, cache)
  {
  }

  /** Otherwise the result is one step of the recurrence from the result for
      t - n, and it is stored at t, a key that inner call did not store. */
  lemma QueryStep(n: int, cache: map<int, real>, t: int, d: int)
    requires n >= 1 && Sound(n, cache) && t >= 2 && t !in cache && d > 0
    ensures Query(n, cache, t, d).0 == Step(n, DirectCount(n, t), Query(n, cache, t - n, d - 1).0)
    ensures t !in Query(n, cache, t - n, d - 1).1
    ensures Query(n, cache, t, d).1 == Query(n, cache, t - n, d - 1).1[t := Query(n, cache, t, d).0]
  {
    QueryGrows(n, cache, t - n, d - 1);
    assert t !in Query(n, cache, t - n, d - 1).1;
  }

  /** Asking again returns the same value and changes nothing, whatever the
      depth guard, unless the first call was cut short before storing. */
  lemma QueryRepeat(n: int, cache: map<int, real>, t: int, d: int, d2: int)
    requires n >= 1 && Sound(n, cache)
    requires t <= 1 || t in cache || d > 0
    ensures var (p, c) := Query(n, cache, t, d);
      Query(n, c, t, d2) == (p, c)
  {
    if t >= 2 && t !in cache {
      QueryGrows(n, cache, t - n, d - 1);
      assert t !in Query(n, cache, t - n, d - 1).1;
    }
  }

  /** The cache key ignores the depth guard: a d2 asked for 6 with depth 1
      stores 0 (the guard fires at 4), and a later call with the default depth
      returns that 0 although the true probability is 1/8. */
  lemma TruncatedEntryPersists()
    ensures Query(2, map[], 6, 1) == (0.0, map[6 := 0.0])
    ensures Query(2, map[6 := 0.0], 6, DefaultMaxDepth).0 == 0.0
    ensures Prob(2, 6) == 1.0 / 8.0
  {
    assert Query(2, map[], 4, 0) == (0.0, map[]);
    ProbClosedForm(2, 2, 2);
    assert Pow(2.0, 3) == 8.0;
  }

  /** The engine's accumulation of the direct term and the explosion term is
      one step of the recurrence. */
  lemma EngineStep(n: int, t: int, direct: real, explosion: real, rest: real)
    requires n >= 1 && explosion == 1.0 / n as real
    requires direct == if t <= n then 0.0 + Max(0, n - t) as real / n as real else 0.0
    ensures direct + explosion * rest == DirectCount(n, t) as real / n as real + (1.0 / n as real) * rest
    ensures direct + explosion * rest == Step(n, DirectCount(n, t), rest)
  {
    StepAsQuotient(n, DirectCount(n, t), rest);
  }

  class ExplodingDie {
    const n: int
    var cache: map<int, real>

    ghost predicate Valid()
      reads this
    {
      n >= 2 && Sound(n, cache)
    }

    constructor (n: int)
      requires n >= 2
      ensures this.n == n && cache == map[]
      ensures Valid()
    {
      this.n := n;
      cache := map[];
    }

    /** P(total >= target), memoised in cache, with maxDepth bounding the
        number of explosions followed before giving up with 0. */
    method ProbabilityAtLeast(target: int, maxDepth: int) returns (p: real)
      requires Valid()
      modifies this
      ensures Valid()
      ensures (p, cache) == Query(n, old(cache), target, maxDepth)
      ensures 0.0 <= p <= Prob(n, target) <= 1.0
      ensures target <= 1 ==> p == 1.0 && cache == old(cache)
      ensures forall k :: k in old(cache) ==> k in cache && cache[k] == old(cache)[k]
      ensures forall k :: k in cache && k !in old(cache) ==> 2 <= k <= target && OnChain(n, target, k)
      ensures Exact(n, old(cache)) && Deep(n, target, maxDepth) ==> p == Prob(n, target) && Exact(n, cache)
      decreases maxDepth
    {
      QueryGrows(n, cache, target, maxDepth);
      if Exact(n, cache) && Deep(n, target, maxDepth) {
        QueryExact(n, cache, target, maxDepth);
      }
      if target <= 1 {
        return 1.0;
      }
      if target in cache {
        return cache[target];
      }
      if maxDepth <= 0 {
        return 0.0;
      }
      var prob := 0.0;
      if target <= n {
        var directSuccessCount := Max(0, n - target);
        prob := prob + directSuccessCount as real / n as real;
      }
      var explosionProb := 1.0 / n as real;
      var remainingNeeded := target - n;
      ghost var sub := Query(n, cache, remainingNeeded, maxDepth - 1);
      ghost var whole := Query(n, cache, target, maxDepth);
      assert whole == (Step(n, DirectCount(n, target), sub.0), sub.1[target := Step(n, DirectCount(n, target), sub.0)]);
      var rest := ProbabilityAtLeast(remainingNeeded, maxDepth - 1);
      assert rest == sub.0 && cache == sub.1;
      EngineStep(n, target, prob, explosionProb, rest);
      prob := prob + explosionProb * rest;
      assert prob == Step(n, DirectCount(n, target), sub.0);
      cache := cache[target := prob];
      assert cache == sub.1[target := prob];
      p := prob;
      assert (p, cache) == whole;
    }

    /** The mean total, n(n+1)/(2(n-1)): the solution of the expectation
        equation E = (1 + ... + (n-1))/n + (n + E)/n; exploding lifts it above
        the plain mean (n+1)/2. */
    function ExpectedValue(): (e: real)
      requires n >= 2
      ensures e == SumTo(n - 1) as real / n as real + (n as real + e) / n as real
      ensures e > (n + 1) as real / 2.0
    {
      var e := (n * (n + 1)) as real / (2 * (n - 1)) as real;
      ExpectationEquation(n, e);
      ExpectationAboveMean(n);
      e
    }
  }

  lemma ExpectationAboveMean(n: int)
    requires n >= 2
    ensures (n * (n + 1)) as real / (2 * (n - 1)) as real > (n + 1) as real / 2.0
  {
    var m := n as real;
    assert (n * (n + 1)) as real == m * (m + 1.0);
    assert (2 * (n - 1)) as real == 2.0 * (m - 1.0);
    assert m * (m + 1.0) > (m + 1.0) * (m - 1.0);
    DivLess((m + 1.0) * (m - 1.0), m * (m + 1.0), 2.0 * (m - 1.0));
    assert (m + 1.0) * (m - 1.0) / (2.0 * (m - 1.0)) == (m + 1.0) / 2.0;
  }

  /** Any value solving the expectation equation is the expected value. */
  lemma ExpectedValueUnique(die: ExplodingDie, x: real)
    requires die.n >= 2
    requires x == SumTo(die.n - 1) as real / die.n as real + (die.n as real + x) / die.n as real
    ensures x == die.ExpectedValue()
  {
    ExpectationEquation(die.n, x);
  }

  /** d4 = 10/3, d6 = 21/5, d12 = 78/11 (printed as 3.33, 4.20, 7.09). */
  lemma ExpectedValueFigures(d4: ExplodingDie, d6: ExplodingDie, d12: ExplodingDie)
    requires d4.n == 4 && d6.n == 6 && d12.n == 12
    ensures d4.ExpectedValue() == 10.0 / 3.0
    ensures d6.ExpectedValue() == 21.0 / 5.0
    ensures d12.ExpectedValue() == 78.0 / 11.0
  {
  }

  /** P(max of one roll of each die >= target), for independent rolls. The two
      dice may be the same object: the second query is then a cache hit, and
      the contract below still holds because both queries start from the same
      cache. */
  method ProbabilityMaxOfTwo(die1: ExplodingDie, die2: ExplodingDie, target: int) returns (r: real)
    requires die1.Valid() && die2.Valid()
    modifies die1, die2
    ensures die1.Valid() && die2.Valid()
    ensures r == MaxOfTwo(Query(die1.n, old(die1.cache), target, DefaultMaxDepth).0,
                          Query(die2.n, old(die2.cache), target, DefaultMaxDepth).0)
    ensures die1.cache == Query(die1.n, old(die1.cache), target, DefaultMaxDepth).1
    ensures die2.cache == Query(die2.n, old(die2.cache), target, DefaultMaxDepth).1
    ensures 0.0 <= r <= MaxOfTwo(Prob(die1.n, target), Prob(die2.n, target))
    ensures Exact(die1.n, old(die1.cache)) && Deep(die1.n, target, DefaultMaxDepth) ==>
      Exact(die1.n, die1.cache)
    ensures Exact(die2.n, old(die2.cache)) && Deep(die2.n, target, DefaultMaxDepth) ==>
      Exact(die2.n, die2.cache)
    ensures Exact(die1.n, old(die1.cache)) && Exact(die2.n, old(die2.cache)) &&
            Deep(die1.n, target, DefaultMaxDepth) && Deep(die2.n, target, DefaultMaxDepth) ==>
      r == MaxOfTwo(Prob(die1.n, target), Prob(die2.n, target))
  {
    ghost var q1 := Query(die1.n, die1.cache, target, DefaultMaxDepth);
    ghost var q2 := Query(die2.n, die2.cache, target, DefaultMaxDepth);
    if Exact(die1.n, die1.cache) && Deep(die1.n, target, DefaultMaxDepth) {
      QueryExact(die1.n, die1.cache, target, DefaultMaxDepth);
    }
    if Exact(die2.n, die2.cache) && Deep(die2.n, target, DefaultMaxDepth) {
      QueryExact(die2.n, die2.cache, target, DefaultMaxDepth);
    }
    if die1 == die2 {
      QueryRepeat(die1.n, die1.cache, target, DefaultMaxDepth, DefaultMaxDepth);
    }
    var p1 := die1.ProbabilityAtLeast(target, DefaultMaxDepth);
    assert p1 == q1.0 && die1.cache == q1.1;
    var p2 := die2.ProbabilityAtLeast(target, DefaultMaxDepth);
    assert p2 == q2.0 && die2.cache == q2.1;
    MaxOfTwoMonotone(p1, p2, Prob(die1.n, target), Prob(die2.n, target));
    r := MaxOfTwo(p1, p2);
  }
}
