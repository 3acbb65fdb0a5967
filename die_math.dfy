/** The mathematics of one exploding die with faces 1..n: rolling the top face n
    adds n to the total and rolls again, without limit.  Probabilities are exact
    reals; the recurrence here is the one the memoised engine evaluates. */
module DieMath {
  import opened Arith

  function Max(a: int, b: int): int {
    if a >= b then a else b
  }

  /** Faces that reach the target without exploding: target, target+1, ..., n-1.
      The top face n is never counted here, because rolling it explodes. */
  function DirectCount(n: int, t: int): int {
    if t <= n then Max(0, n - t) else 0
  }

  /** One step of the recurrence: c/n + (1/n)*q for c direct faces and a
      probability q after an explosion, written as the single quotient (c+q)/n. */
  function Step(n: int, c: int, q: real): real
    requires n >= 1
  {
    (c as real + q) / n as real
  }

  /** P(total >= t) for an exploding n-sided die.  Every target is reachable,
      so the probability is never zero. */
  function Prob(n: int, t: int): (p: real)
    requires n >= 1
    ensures 0.0 < p <= 1.0
    decreases t
  {
    if t <= 1 then 1.0
    else
      var q := Prob(n, t - n);
      StepBounds(n, DirectCount(n, t), q);
      Step(n, DirectCount(n, t), q)
  }

  /** The engine's count/n + (1/n)*q is the step (count + q)/n. */
  lemma StepAsQuotient(n: int, c: int, q: real)
    requires n >= 1
    ensures c as real / n as real + (1.0 / n as real) * q == Step(n, c, q)
  {
    ScaleDiv(q, n as real);
    DivAdd(c as real, q, n as real);
  }

  /** One step of the recurrence stays a probability when the direct count
      leaves room for the explosion term. */
  lemma StepBounds(n: int, c: int, q: real)
    requires n >= 1 && 0 <= c <= n - 1 && 0.0 < q <= 1.0
    ensures 0.0 < Step(n, c, q) <= 1.0
  {
    DivMono(c as real + q, n as real, n as real);
  }

  /** (c + q) / n is monotone in both c and q. */
  lemma StepMonotone(n: int, c1: int, c0: int, q1: real, q0: real)
    requires n >= 1 && c1 <= c0 && q1 <= q0
    ensures Step(n, c1, q1) <= Step(n, c0, q0)
  {
    DivMono(c1 as real + q1, c0 as real + q0, n as real);
  }

  function Pow(b: real, k: nat): (r: real)
    requires b > 0.0
    ensures r > 0.0
  {
    if k == 0 then 1.0 else b * Pow(b, k - 1)
  }

  /** Closed form: writing the target as t = k*n + s with 1 <= s <= n (k full
      explosions, then a last roll of at least s), P(total >= t) = (n-s+1)/n^(k+1). */
  function ClosedForm(n: int, k: nat, s: int): real
    requires n >= 1
  {
    (n - s + 1) as real / Pow(n as real, k + 1)
  }

  /** One more full explosion divides the closed form by n. */
  lemma ClosedFormStep(n: int, k: nat, s: int)
    requires n >= 1 && k >= 1
    ensures ClosedForm(n, k, s) == Step(n, 0, ClosedForm(n, k - 1, s))
  {
    var m := n as real;
    assert Pow(m, k + 1) == m * Pow(m, k);
    DivDiv((n - s + 1) as real, m, Pow(m, k));
  }

  /** Before any explosion, 2 <= s <= n: P(total >= s) = (n-s+1)/n. */
  lemma SingleRoll(n: int, s: int)
    requires n >= 1 && 2 <= s <= n
    ensures Prob(n, s) == (n - s + 1) as real / n as real
  {
    assert Prob(n, s - n) == 1.0;
    assert DirectCount(n, s) == n - s;
  }

  /** Within a single roll of both dice (2 <= t <= n1 <= n2) the larger die is
      at least as likely to reach t, and strictly more likely when n1 < n2. */
  lemma LargerDieSingleRoll(n1: int, n2: int, t: int)
    requires 2 <= t <= n1 <= n2
    ensures Prob(n1, t) <= Prob(n2, t)
    ensures n1 < n2 ==> Prob(n1, t) < Prob(n2, t)
  {
    SingleRoll(n1, t);
    SingleRoll(n2, t);
    FewerMisses(n1 as real, n2 as real, (t - 1) as real);
    assert (n1 - t + 1) as real == n1 as real - (t - 1) as real;
    assert (n2 - t + 1) as real == n2 as real - (t - 1) as real;
  }

  /** (a - c)/a <= (b - c)/b for 0 < a <= b and c >= 0, strictly when a < b and c > 0. */
  lemma FewerMisses(a: real, b: real, c: real)
    requires 0.0 < a <= b && c > 0.0
    ensures (a - c) / a <= (b - c) / b
    ensures a < b ==> (a - c) / a < (b - c) / b
  {
    ShareOfMisses(a, c);
    ShareOfMisses(b, c);
    DivAntitone(c, a, b);
  }

  lemma {:induction false} ProbClosedForm(n: int, k: nat, s: int)
    requires n >= 1 && 1 <= s <= n
    ensures Prob(n, k * n + s) == ClosedForm(n, k, s)
  {
    if k == 0 {
      assert k * n + s == s;
      ClosedFormZero(n, s);
      if s >= 2 {
        SingleRoll(n, s);
      }
    } else {
      var t := k * n + s;
      MulPred(k, n, s);
      ProbClosedForm(n, k - 1, s);
      MulAtLeast(k, n);
      assert DirectCount(n, t) == 0;
      ClosedFormStep(n, k, s);
    }
  }

  /** With no explosion the closed form is a single roll's (n-s+1)/n, which is
      1 for s == 1. */
  lemma ClosedFormZero(n: int, s: int)
    requires n >= 1
    ensures ClosedForm(n, 0, s) == (n - s + 1) as real / n as real
    ensures s == 1 ==> ClosedForm(n, 0, s) == 1.0
  {
    var m := n as real;
    assert Pow(m, 1) == m;
    if s == 1 {
      DivSelf(m);
    }
  }

  /** Every target t >= 1 splits as k*n + s with 1 <= s <= n, so the closed
      form gives P(t) for every such target. */
  lemma {:induction false} Decompose(n: int, t: int) returns (k: nat, s: int)
    requires n >= 1 && t >= 1
    ensures t == k * n + s && 1 <= s <= n
    ensures Prob(n, t) == ClosedForm(n, k, s)
    decreases t
  {
    if t <= n {
      k, s := 0, t;
    } else {
      var k0, s0 := Decompose(n, t - n);
      k, s := k0 + 1, s0;
      MulPred(k, n, s);
    }
    ProbClosedForm(n, k, s);
  }

  /** After one explosion the die needs t more from a fresh roll. */
  lemma ExplosionShift(n: int, t: int)
    requires n >= 1 && t >= 1
    ensures Prob(n, t + n) == Prob(n, t) / n as real
  {
    ScaleDiv(Prob(n, t), n as real);
  }

  /** Raising the target by one never raises the probability. */
  lemma {:induction false} ProbStep(n: int, t: int)
    requires n >= 1
    ensures Prob(n, t + 1) <= Prob(n, t)
    decreases t
  {
    if t >= 2 {
      ProbStep(n, t - n);
      StepMonotone(n, DirectCount(n, t + 1), DirectCount(n, t), Prob(n, t + 1 - n), Prob(n, t - n));
    }
  }

  /** For a fixed die the probability is non-increasing in the target. */
  lemma {:induction false} ProbMonotone(n: int, s: int, t: int)
    requires n >= 1 && s <= t
    ensures Prob(n, t) <= Prob(n, s)
    decreases t - s
  {
    if s < t {
      ProbMonotone(n, s, t - 1);
      ProbStep(n, t - 1);
    }
  }

  /** The decrease is strict except across a multiple of n: for t = k*n + s
      with 1 <= s <= n, the probability stays the same from t to t+1 exactly
      when s == n, i.e. when t is a multiple of n. */
  lemma PlateauIff(n: int, k: nat, s: int)
    requires n >= 2 && 1 <= s <= n
    ensures Prob(n, k * n + s + 1) == Prob(n, k * n + s) <==> s == n
  {
    if s < n {
      StrictBelowTop(n, k, s);
    } else {
      PlateauAtTop(n, k);
    }
  }

  /** Below the top face, one more pip needed is strictly less likely. */
  lemma StrictBelowTop(n: int, k: nat, s: int)
    requires n >= 1 && 1 <= s < n
    ensures Prob(n, k * n + s + 1) < Prob(n, k * n + s)
  {
    ProbClosedForm(n, k, s);
    ProbClosedForm(n, k, s + 1);
    assert n - (s + 1) + 1 == n - s;
    DivLess((n - s) as real, (n - s + 1) as real, Pow(n as real, k + 1));
  }

  /** Needing k*n + n + 1 is as likely as needing k*n + n: both require k + 1
      explosions, and any roll after the last one is at least 1. */
  lemma PlateauAtTop(n: int, k: nat)
    requires n >= 1
    ensures Prob(n, k * n + n + 1) == Prob(n, k * n + n)
  {
    ProbClosedForm(n, k, n);
    MulSucc(k, n);
    ProbClosedForm(n, k + 1, 1);
    ClosedFormTop(n, k);
  }

  /** A last roll needing 1 after k + 1 explosions is a last roll needing n
      after k. */
  lemma ClosedFormTop(n: int, k: nat)
    requires n >= 1
    ensures ClosedForm(n, k + 1, 1) == ClosedForm(n, k, n)
  {
    var m := n as real;
    var p := Pow(m, k + 1);
    assert Pow(m, k + 2) == m * p;
    assert ClosedForm(n, k + 1, 1) == m / (m * p);
    CancelDiv(m, p);
  }

  /** The conditional probability of reaching t given the first roll shows v. */
  function Conditional(n: int, t: int, v: int): real
    requires n >= 1
  {
    if v == n then Prob(n, t - n) else if v >= t then 1.0 else 0.0
  }

  /** Sum over the first roll's faces 1..m of P(face) * P(success | face). */
  function FirstRoll(n: int, t: int, m: int): real
    requires n >= 1
    decreases m
  {
    if m <= 0 then 0.0 else FirstRoll(n, t, m - 1) + Conditional(n, t, m) / n as real
  }

  /** Faces v in 1..m with v >= t. */
  function Hits(m: int, t: int): int {
    if t <= 1 then m else Max(0, m - t + 1)
  }

  lemma {:induction false} FirstRollPartial(n: int, t: int, m: int)
    requires n >= 1 && 0 <= m <= n - 1
    ensures FirstRoll(n, t, m) == Hits(m, t) as real / n as real
    decreases m
  {
    if m > 0 {
      FirstRollPartial(n, t, m - 1);
      var c := if m >= t then 1 else 0;
      assert Hits(m, t) == Hits(m - 1, t) + c;
      assert Conditional(n, t, m) == c as real;
      assert (Hits(m - 1, t) as real) / n as real + (c as real) / n as real
          == (Hits(m - 1, t) + c) as real / n as real;
    }
  }

  /** One unfolding of the recurrence, as the engine computes it. */
  lemma ProbRecurrence(n: int, t: int)
    requires n >= 1 && t >= 2
    ensures Prob(n, t) == DirectCount(n, t) as real / n as real + (1.0 / n as real) * Prob(n, t - n)
  {
    StepAsQuotient(n, DirectCount(n, t), Prob(n, t - n));
  }

  /** Law of total probability over the first roll: the recurrence agrees with
      summing the n equally likely first faces. */
  lemma TotalProbability(n: int, t: int)
    requires n >= 1
    ensures Prob(n, t) == FirstRoll(n, t, n)
  {
    FirstRollPartial(n, t, n - 1);
    var h := Hits(n - 1, t);
    var q := Prob(n, t - n);
    assert Conditional(n, t, n) == q;
    assert FirstRoll(n, t, n) == FirstRoll(n, t, n - 1) + Conditional(n, t, n) / n as real;
    SumOfQuotients(n, h, q);
    if t <= 1 {
      assert h == n - 1 && q == 1.0;
      StepFull(n);
    } else {
      assert h == DirectCount(n, t);
    }
  }

  lemma SumOfQuotients(n: int, c: int, q: real)
    requires n >= 1
    ensures c as real / n as real + q / n as real == Step(n, c, q)
  {
    DivAdd(c as real, q, n as real);
  }

  /** All n - 1 plain faces plus a certain explosion: probability 1. */
  lemma StepFull(n: int)
    requires n >= 1
    ensures Step(n, n - 1, 1.0) == 1.0
  {
    assert (n - 1) as real + 1.0 == n as real;
    DivSelf(n as real);
  }

  /** 1 + 2 + ... + m */
  function SumTo(m: int): int
    decreases m
  {
    if m <= 0 then 0 else SumTo(m - 1) + m
  }

  lemma {:induction false} SumToClosed(m: int)
    requires m >= 0
    ensures 2 * SumTo(m) == m * (m + 1)
  {
    if m > 0 {
      SumToClosed(m - 1);
    }
  }

  /** The self-referential expectation equation E = (1+...+(n-1))/n + (n+E)/n
      (a non-top face, or the top face n followed by a fresh roll) has exactly
      one solution, the closed form n(n+1)/(2(n-1)). */
  lemma ExpectationEquation(n: int, e: real)
    requires n >= 2
    ensures e == SumTo(n - 1) as real / n as real + (n as real + e) / n as real
        <==> e == (n * (n + 1)) as real / (2 * (n - 1)) as real
  {
    SumToClosed(n - 1);
    var m := n as real;
    CastProducts(n);
    ExpectationAlgebra(m, SumTo(n - 1) as real, e);
  }

  /** The expectation equation solved for e, given 2s = (m-1)m. */
  lemma ExpectationAlgebra(m: real, s: real, e: real)
    requires m > 1.0 && 2.0 * s == (m - 1.0) * m
    ensures e == s / m + (m + e) / m <==> e == (m * (m + 1.0)) / (2.0 * (m - 1.0))
  {
    assert s / m + (m + e) / m == (s + m + e) / m;
    assert e == (s + m + e) / m <==> e * m == s + m + e;
    assert e * m == s + m + e <==> e * (m - 1.0) == s + m;
    assert s + m == m * (m + 1.0) / 2.0;
    assert e * (m - 1.0) == m * (m + 1.0) / 2.0 <==> e == (m * (m + 1.0)) / (2.0 * (m - 1.0));
  }

  /** P(max(X, Y) >= t) for independent X, Y from the two single-die results:
      the complement of "both fall short". */
  function MaxOfTwo(p1: real, p2: real): (r: real)
    requires 0.0 <= p1 <= 1.0 && 0.0 <= p2 <= 1.0
    ensures 0.0 <= r <= 1.0
    ensures p1 <= r && p2 <= r
    ensures r == p1 + p2 - p1 * p2
  {
    ComplementBounds(p1, p2);
    1.0 - (1.0 - p1) * (1.0 - p2)
  }

  lemma ComplementBounds(p1: real, p2: real)
    requires 0.0 <= p1 <= 1.0 && 0.0 <= p2 <= 1.0
    ensures var r := 1.0 - (1.0 - p1) * (1.0 - p2); 0.0 <= r <= 1.0 && p1 <= r && p2 <= r
  {
    var a, b := 1.0 - p1, 1.0 - p2;
    MulBounds(a, b);
    assert 1.0 - a * b >= 1.0 - a;
    assert 1.0 - a * b >= 1.0 - b;
  }

  lemma MaxOfTwoSymmetric(p1: real, p2: real)
    requires 0.0 <= p1 <= 1.0 && 0.0 <= p2 <= 1.0
    ensures MaxOfTwo(p1, p2) == MaxOfTwo(p2, p1)
  {
  }

  /** Raising either single-die probability never lowers the combined one. */
  lemma MaxOfTwoMonotone(a1: real, a2: real, b1: real, b2: real)
    requires 0.0 <= a1 <= b1 <= 1.0 && 0.0 <= a2 <= b2 <= 1.0
    ensures MaxOfTwo(a1, a2) <= MaxOfTwo(b1, b2)
  {
    assert (1.0 - b1) * (1.0 - b2) <= (1.0 - a1) * (1.0 - b2);
    assert (1.0 - a1) * (1.0 - b2) <= (1.0 - a1) * (1.0 - a2);
  }
}

/** Figures the analysis scripts print for single dice, and claims about the
    shape of the curve, checked against the recurrence. */
module DieFacts {
  import opened DieMath

  /** d6: 50% at T=4, 16.7% at T=6, 13.9% at T=8, 8.3% at T=10 (exact values). */
  lemma D6Figures()
    ensures Prob(6, 4) == 1.0 / 2.0
    ensures Prob(6, 6) == 1.0 / 6.0
    ensures Prob(6, 8) == 5.0 / 36.0
    ensures Prob(6, 10) == 1.0 / 12.0
  {
    ProbClosedForm(6, 0, 4);
    ProbClosedForm(6, 0, 6);
    ProbClosedForm(6, 1, 2);
    ProbClosedForm(6, 1, 4);
  }

  /** The printed claim that the probability always decreases as the target
      rises does not hold strictly: a d6 has the same chance for 6 and 7. */
  lemma StrictDecreaseFails()
    ensures Prob(6, 7) == Prob(6, 6)
  {
    PlateauIff(6, 0, 6);
  }

  /** A smaller die can beat a larger one: P(d4 >= 6) = 3/16 > 1/6 = P(d6 >= 6),
      so for a fixed target the probability is not monotone in the face count. */
  lemma FaceCountNotMonotone()
    ensures Prob(4, 6) == 3.0 / 16.0
    ensures Prob(4, 6) > Prob(6, 6)
  {
    ProbClosedForm(4, 1, 2);
    ProbClosedForm(6, 0, 6);
  }

  /** The first line of the expected-value derivation as printed,
      E = S/n + n*(1/n)*(1+E) with S = 1 + ... + (n-1), has no solution for any
      die: it reduces to 0 = S/n + 1. */
  lemma DerivationAsPrintedUnsolvable(n: int, e: real)
    requires n >= 2
    ensures e != SumTo(n - 1) as real / n as real + n as real * (1.0 / n as real) * (1.0 + e)
  {
    SumToClosed(n - 1);
    var m := n as real;
    var s := SumTo(n - 1) as real;
    assert s >= 0.0;
    assert m * (1.0 / m) == 1.0;
    assert s / m >= 0.0;
  }
}
