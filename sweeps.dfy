/** The batch sweeps: tables of results over several dice and targets, each
    filled by a loop over the memoised engine. */
module Sweeps {
  import opened DieMath
  import opened ExplodingDice

  /** Every target is in reach of the default depth guard for an n-sided die. */
  predicate AllDeep(n: int, targets: seq<int>) {
    forall j :: 0 <= j < |targets| ==> Deep(n, targets[j], DefaultMaxDepth)
  }

  /** The true value of each target's entry in a single-die row. */
  ghost function Probs(n: int, targets: seq<int>): (b: map<int, real>)
    requires n >= 1
    ensures forall t :: t in b <==> t in targets
  {
    map t | t in targets :: Prob(n, t)
  }

  /** The true value of each target's entry in a two-dice row against a d6. */
  ghost function PairProbs(n: int, targets: seq<int>): (b: map<int, real>)
    requires n >= 1
    ensures forall t :: t in b <==> t in targets
  {
    map t | t in targets :: MaxOfTwo(Prob(6, t), Prob(n, t))
  }

  /** A row holds one entry per listed target, each within [0, its bound], and
      equal to its bound when the row is exact. */
  ghost predicate Filled(targets: seq<int>, row: map<int, real>, bound: map<int, real>, exact: bool) {
    (forall t :: t in row <==> t in targets) &&
    forall t :: t in row ==>
      t in bound && 0.0 <= row[t] <= bound[t] && (exact ==> row[t] == bound[t])
  }

  /** A row of the single-die table: exact when every target is in reach of
      the depth guard. */
  ghost predicate Row(n: int, targets: seq<int>, row: map<int, real>)
    requires n >= 1
  {
    Filled(targets, row, Probs(n, targets), AllDeep(n, targets))
  }

  /** A row of the two-dice table against a d6 shared across rows: exact when
      every target is in reach of the depth guard for both dice. */
  ghost predicate PairRow(n: int, targets: seq<int>, row: map<int, real>)
    requires n >= 1
  {
    Filled(targets, row, PairProbs(n, targets), AllDeep(6, targets) && AllDeep(n, targets))
  }

  /** Filling the entry of the next target extends a row over the first j
      targets to one over the first j + 1. */
  lemma FilledExtend(targets: seq<int>, j: int, row: map<int, real>, bound: map<int, real>, exact: bool, p: real)
    requires 0 <= j < |targets| && Filled(targets[..j], row, bound, exact)
    requires targets[j] in bound && 0.0 <= p <= bound[targets[j]]
    requires exact ==> p == bound[targets[j]]
    ensures Filled(targets[..j + 1], row[targets[j] := p], bound, exact)
  {
    assert targets[..j + 1] == targets[..j] + [targets[j]];
  }

  /** {die size: {target: P(total >= target)}}, one fresh die per size; a size
      listed twice keeps the row of its last occurrence. */
  method CalculateAllProbabilities(diceSizes: seq<int>, targets: seq<int>)
    returns (results: map<int, map<int, real>>)
    requires forall i :: 0 <= i < |diceSizes| ==> diceSizes[i] >= 2
    ensures forall n :: n in results <==> n in diceSizes
    ensures forall n :: n in results ==> n >= 2 && Row(n, targets, results[n])
  {
    results := map[];
    var i := 0;
    while i < |diceSizes|
      invariant 0 <= i <= |diceSizes|
      invariant forall n :: n in results <==> n in diceSizes[..i]
      invariant forall n :: n in results ==> n >= 2 && Row(n, targets, results[n])
    {
      var dieSize := diceSizes[i];
      var die := new ExplodingDie(dieSize);
      var row := FillRow(die, targets);
      results := results[dieSize := row];
      i := i + 1;
    }
    assert diceSizes[..i] == diceSizes;
  }

  /** The inner loop of the single-die sweep: query each target in turn on the
      same die, so later targets may hit entries stored by earlier ones. */
  method FillRow(die: ExplodingDie, targets: seq<int>) returns (row: map<int, real>)
    requires die.Valid() && Exact(die.n, die.cache)
    modifies die
    ensures die.Valid()
    ensures AllDeep(die.n, targets) ==> Exact(die.n, die.cache)
    ensures Row(die.n, targets, row)
  {
    row := map[];
    var j := 0;
    while j < |targets|
      invariant 0 <= j <= |targets|
      invariant die.Valid()
      invariant AllDeep(die.n, targets) ==> Exact(die.n, die.cache)
      invariant Filled(targets[..j], row, Probs(die.n, targets), AllDeep(die.n, targets))
    {
      var target := targets[j];
      assert AllDeep(die.n, targets) ==> Deep(die.n, target, DefaultMaxDepth);
      var prob := die.ProbabilityAtLeast(target, DefaultMaxDepth);
      FilledExtend(targets, j, row, Probs(die.n, targets), AllDeep(die.n, targets), prob);
      row := row[target := prob];
      j := j + 1;
    }
    assert targets[..j] == targets;
  }

  /** {second die size: {target: P(max(d6, dX) >= target)}}; the d6 and its
      cache are shared by every row, each second die is fresh. */
  method CalculateTwoDiceProbabilities(secondDiceSizes: seq<int>, targets: seq<int>)
    returns (results: map<int, map<int, real>>)
    requires forall i :: 0 <= i < |secondDiceSizes| ==> secondDiceSizes[i] >= 2
    ensures forall n :: n in results <==> n in secondDiceSizes
    ensures forall n :: n in results ==> n >= 2 && PairRow(n, targets, results[n])
  {
    results := map[];
    var d6 := new ExplodingDie(6);
    var i := 0;
    while i < |secondDiceSizes|
      invariant 0 <= i <= |secondDiceSizes|
      invariant d6.Valid() && d6.n == 6
      invariant AllDeep(6, targets) ==> Exact(6, d6.cache)
      invariant forall n :: n in results <==> n in secondDiceSizes[..i]
      invariant forall n :: n in results ==> n >= 2 && PairRow(n, targets, results[n])
    {
      var dieSize := secondDiceSizes[i];
      var secondDie := new ExplodingDie(dieSize);
      var row := FillPairRow(d6, secondDie, targets);
      results := results[dieSize := row];
      i := i + 1;
    }
    assert secondDiceSizes[..i] == secondDiceSizes;
  }

  /** The inner loop of the two-dice sweep, on the shared d6 and one second
      die. */
  method FillPairRow(d6: ExplodingDie, second: ExplodingDie, targets: seq<int>) returns (row: map<int, real>)
    requires d6.Valid() && d6.n == 6 && second.Valid() && d6 != second
    requires AllDeep(6, targets) ==> Exact(6, d6.cache)
    requires Exact(second.n, second.cache)
    modifies d6, second
    ensures d6.Valid() && second.Valid()
    ensures AllDeep(6, targets) ==> Exact(6, d6.cache)
    ensures AllDeep(second.n, targets) ==> Exact(second.n, second.cache)
    ensures PairRow(second.n, targets, row)
  {
    row := map[];
    var j := 0;
    while j < |targets|
      invariant 0 <= j <= |targets|
      invariant d6.Valid() && second.Valid()
      invariant AllDeep(6, targets) ==> Exact(6, d6.cache)
      invariant AllDeep(second.n, targets) ==> Exact(second.n, second.cache)
      invariant Filled(targets[..j], row, PairProbs(second.n, targets), AllDeep(6, targets) && AllDeep(second.n, targets))
    {
      var target := targets[j];
      assert AllDeep(6, targets) ==> Deep(6, target, DefaultMaxDepth);
      assert AllDeep(second.n, targets) ==> Deep(second.n, target, DefaultMaxDepth);
      var prob := ProbabilityMaxOfTwo(d6, second, target);
      FilledExtend(targets, j, row, PairProbs(second.n, targets), AllDeep(6, targets) && AllDeep(second.n, targets), prob);
      row := row[target := prob];
      j := j + 1;
    }
    assert targets[..j] == targets;
  }
}
