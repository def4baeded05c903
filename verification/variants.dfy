/** How the two RI variants relate. Variant B is variant A with nothing
    measured, except in two places: B multiplies keq by the quotient where A
    divides by it, and B's denominator weighs each metabolite by its
    coefficient where A counts the metabolites. */
module Variants {
  import opened Outcomes
  import opened Powers
  import opened Stoichiometry
  import opened Reversibility
  import opened RISpecific
  import opened KatjaThermo

  /** A reaction involves some metabolite exactly when it has a term. */
  lemma IdsEmpty(s: Sparse)
    ensures Ids(s) == {} <==> |s| == 0
  {
    if |s| > 0 {
      assert s[0].id in Ids(s);
    }
  }

  /** With unit coefficients the total weight is the number of terms. */
  lemma {:induction false} UnitAbsSum(s: Sparse)
    requires forall i :: 0 <= i < |s| ==> s[i].coef == 1 || s[i].coef == -1
    ensures AbsSum(s) == |s|
  {
    if |s| > 0 {
      assert forall i :: 0 <= i < |s[1..]| ==> s[1..][i] == s[i + 1];
      UnitAbsSum(s[1..]);
    }
  }

  /** Variant B's Q'' is variant A's quotient when no concentration was
      measured. */
  lemma FixedQuotientIsUnmeasured(s: Sparse, fixedConc: Positive)
    ensures FixedQuotient(s, fixedConc) == ReactionQuotient(s, NothingMeasured, fixedConc)
  {
    UnmeasuredQuotient(s, fixedConc);
  }

  /** With nothing measured and every coefficient +1 or -1, the two
      denominators agree: N_u = N. */
  lemma UnitDenominators(s: Sparse)
    requires DistinctIds(s)
    requires forall i :: 0 <= i < |s| ==> s[i].coef == 1 || s[i].coef == -1
    ensures UnknownCount(s, NothingMeasured) == TotalWeight(s)
  {
    UnmeasuredCount(s);
    UnitAbsSum(s);
  }

  /** With nothing measured, both variants fail on the same reactions: the
      empty ones. */
  lemma SameFailures(s: Sparse, fixedConc: Positive, keq: Positive)
    requires NonzeroCoefs(s)
    ensures RIBaseA(s, NothingMeasured, fixedConc, keq).Failure? <==> |s| == 0
    ensures RIBaseB(s, fixedConc, keq).Failure? <==> |s| == 0
  {
    IdsEmpty(s);
    AbsSumZero(s);
  }

  /** If a * q = k and b = k * q with q positive, then a * b = k * k, and a
      equals b exactly when q is one. */
  lemma ReciprocalScaling(a: real, b: real, k: real, q: real)
    requires k > 0.0 && q > 0.0
    requires Mul(a, q) == k && b == Mul(k, q)
    ensures a * b == k * k
    ensures a == b <==> q == 1.0
  {
    assert a * b == a * (k * q) == (a * q) * k;
    if a == b {
      assert k == a * q == (k * q) * q;
      assert k * (q * q - 1.0) == 0.0;
      assert q * q - 1.0 == 0.0;
      assert (q - 1.0) * (q + 1.0) == 0.0;
    }
  }

  /** With nothing measured, variant A's base times Q'' is keq. */
  lemma UnmeasuredBaseA(s: Sparse, fixedConc: Positive, keq: Positive)
    requires |s| > 0
    ensures RIBaseA(s, NothingMeasured, fixedConc, keq).Success?
    ensures Mul(RIBaseA(s, NothingMeasured, fixedConc, keq).value.base, FixedQuotient(s, fixedConc)) == keq
  {
    IdsEmpty(s);
    FixedQuotientIsUnmeasured(s, fixedConc);
  }

  /** Variant B's base is keq times Q''. */
  lemma UnmeasuredBaseB(s: Sparse, fixedConc: Positive, keq: Positive)
    requires NonzeroCoefs(s) && |s| > 0
    ensures RIBaseB(s, fixedConc, keq).Success?
    ensures RIBaseB(s, fixedConc, keq).value.base == Mul(keq, FixedQuotient(s, fixedConc))
  {
    AbsSumZero(s);
  }

  /** With nothing measured, variant A's base keq/Q and variant B's base
      keq*Q multiply to keq^2, and they coincide exactly when Q is one. */
  lemma BasesAreReciprocal(s: Sparse, fixedConc: Positive, keq: Positive)
    requires NonzeroCoefs(s) && |s| > 0
    ensures RIBaseA(s, NothingMeasured, fixedConc, keq).Success?
    ensures RIBaseB(s, fixedConc, keq).Success?
    ensures RIBaseA(s, NothingMeasured, fixedConc, keq).value.base * RIBaseB(s, fixedConc, keq).value.base
            == keq * keq
    ensures RIBaseA(s, NothingMeasured, fixedConc, keq).value.base == RIBaseB(s, fixedConc, keq).value.base
            <==> FixedQuotient(s, fixedConc) == 1.0
  {
    UnmeasuredBaseA(s, fixedConc, keq);
    UnmeasuredBaseB(s, fixedConc, keq);
    var a := RIBaseA(s, NothingMeasured, fixedConc, keq);
    var b := RIBaseB(s, fixedConc, keq);
    ReciprocalScaling(a.value.base, b.value.base, keq, FixedQuotient(s, fixedConc));
  }
}
