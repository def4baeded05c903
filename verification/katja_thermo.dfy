/** Variant B of the reversibility index (katja_thermo.py): every metabolite
    sits at the same fixed concentration, and the exponent's denominator is
    the total stoichiometric weight of the reaction. */
module KatjaThermo {
  import opened Outcomes
  import opened Powers
  import opened Stoichiometry
  import opened Reversibility

  /** N_P: the sum of the positive coefficients (the products' weight). */
  function ProductWeight(s: Sparse): (n: nat)
    ensures n == 0 <==> forall i :: 0 <= i < |s| ==> s[i].coef <= 0
  {
    if |s| == 0 then 0
    else
      var rest := ProductWeight(s[1..]);
      assert forall i :: 1 <= i < |s| ==> s[i] == s[1..][i - 1];
      (if s[0].coef > 0 then s[0].coef else 0) + rest
  }

  /** N_S: minus the sum of the negative coefficients (the substrates' weight). */
  function SubstrateWeight(s: Sparse): (n: nat)
    ensures n == 0 <==> forall i :: 0 <= i < |s| ==> s[i].coef >= 0
  {
    if |s| == 0 then 0
    else
      var rest := SubstrateWeight(s[1..]);
      assert forall i :: 1 <= i < |s| ==> s[i] == s[1..][i - 1];
      (if s[0].coef < 0 then -s[0].coef else 0) + rest
  }

  /** Products minus substrates is the signed sum of the coefficients. */
  lemma {:induction false} WeightDifference(s: Sparse)
    ensures ProductWeight(s) - SubstrateWeight(s) == CoefSum(s)
  {
    if |s| > 0 {
      WeightDifference(s[1..]);
    }
  }

  /** Products plus substrates is the sum of the absolute coefficients. */
  lemma {:induction false} WeightTotal(s: Sparse)
    ensures ProductWeight(s) + SubstrateWeight(s) == AbsSum(s)
  {
    if |s| > 0 {
      WeightTotal(s[1..]);
    }
  }

  /** N = N_P + N_S, the denominator of the RI exponent. For a reaction
      whose coefficients are all nonzero it is zero only for the empty
      reaction. */
  function TotalWeight(s: Sparse): (n: nat)
    ensures n == AbsSum(s)
    ensures NonzeroCoefs(s) ==> (n == 0 <==> |s| == 0)
  {
    WeightTotal(s);
    AbsSumZero(s);
    ProductWeight(s) + SubstrateWeight(s)
  }

  /** Q'' = fixed_conc^(N_P - N_S): the quotient of the reaction when every
      metabolite is at the fixed concentration. A balanced reaction
      (N_P = N_S) has Q'' = 1. */
  function FixedQuotient(s: Sparse, fixedConc: Positive): (q: real)
    ensures q == Pow(fixedConc, CoefSum(s))
    ensures ProductWeight(s) == SubstrateWeight(s) ==> q == 1.0
  {
    WeightDifference(s);
    Pow(fixedConc, ProductWeight(s) - SubstrateWeight(s))
  }

  /** The RI base keq * Q'' with denominator N; fails for a reaction of
      total weight zero, where the exponent 2/N is undefined. */
  function RIBaseB(s: Sparse, fixedConc: Positive, keq: Positive): (r: Result<RIBase, RIError>)
    ensures r.Failure? <==> AbsSum(s) == 0
    ensures r.Success? ==>
              && r.value.denominator == AbsSum(s) > 0
              && r.value.base > 0.0
              && r.value.base == keq * Pow(fixedConc, CoefSum(s))
  {
    var n := TotalWeight(s);
    if n == 0 then Failure(ZeroExponentDenominator)
    else
      var q := FixedQuotient(s, fixedConc);
      ProductPositive(keq, q);
      Success(RIBase(Mul(keq, q), n))
  }

  /** The whole batch: N_P, N_S and one RI base per reaction, in input order. */
  method ReactionToRI(reactions: seq<Sparse>, keqs: seq<Positive>, fixedConc: Positive := DefaultFixedConc)
    returns (productWeights: seq<nat>, substrateWeights: seq<nat>, ri: seq<Result<RIBase, RIError>>)
    requires |keqs| == |reactions|
    ensures |productWeights| == |substrateWeights| == |ri| == |reactions|
    ensures forall i :: 0 <= i < |reactions| ==>
              && productWeights[i] as int - substrateWeights[i] == CoefSum(reactions[i])
              && productWeights[i] + substrateWeights[i] == AbsSum(reactions[i])
              && ri[i] == RIBaseB(reactions[i], fixedConc, keqs[i])
  {
    productWeights := [];
    substrateWeights := [];
    ri := [];
    var i := 0;
    while i < |reactions|
      invariant 0 <= i <= |reactions|
      invariant |productWeights| == |substrateWeights| == |ri| == i
      invariant forall j :: 0 <= j < i ==>
                  && productWeights[j] as int - substrateWeights[j] == CoefSum(reactions[j])
                  && productWeights[j] + substrateWeights[j] == AbsSum(reactions[j])
                  && ri[j] == RIBaseB(reactions[j], fixedConc, keqs[j])
    {
      var s := reactions[i];
      WeightDifference(s);
      WeightTotal(s);
      productWeights := productWeights + [ProductWeight(s)];
      substrateWeights := substrateWeights + [SubstrateWeight(s)];
      ri := ri + [RIBaseB(s, fixedConc, keqs[i])];
      i := i + 1;
    }
  }
}
