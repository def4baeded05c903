/** Variant A of the reversibility index (RI_specific.py): metabolites with a
    measured concentration use it, every other metabolite of the reaction
    uses a fixed default, and the exponent's denominator is the number of
    metabolites whose concentration was not measured. */
module RISpecific {
  import opened Outcomes
  import opened Powers
  import opened Stoichiometry
  import opened Reversibility

  /** Measured concentrations keyed by metabolite id; it may hold metabolites
      no reaction uses and lack metabolites some reaction uses. */
  type Measured = map<string, Positive>

  /** The reaction's metabolites that have no measured concentration. */
  function Unmeasured(s: Sparse, measured: Measured): set<string> {
    set k | k in Ids(s) && k !in measured
  }

  /** No metabolite is unmeasured exactly when all of them are measured. */
  lemma UnmeasuredEmpty(s: Sparse, measured: Measured)
    ensures Unmeasured(s, measured) == {} <==> Ids(s) <= measured.Keys
  {
    if Unmeasured(s, measured) != {} {
      var k :| k in Unmeasured(s, measured);
      assert k in Ids(s) && k !in measured.Keys;
    }
  }

  /** The number of the reaction's metabolites with no measured
      concentration (N_u). */
  function UnknownCount(s: Sparse, measured: Measured): (n: nat)
    ensures n <= |Ids(s)| <= |s|
    ensures n == 0 <==> Ids(s) <= measured.Keys
  {
    IdsCardinality(s);
    var u := Unmeasured(s, measured);
    SubsetCardinality(u, Ids(s));
    UnmeasuredEmpty(s, measured);
    |u|
  }

  /** The concentration the reaction uses for metabolite k. */
  function ConcOf(k: string, measured: Measured, fixedConc: Positive): Positive {
    if k in measured then measured[k] else fixedConc
  }

  /** The per-reaction concentration map: one entry per metabolite of the
      reaction, built term by term. */
  function Concs(s: Sparse, measured: Measured, fixedConc: Positive): (c: map<string, Positive>)
    ensures c.Keys == Ids(s)
    ensures forall k :: k in c ==> c[k] == ConcOf(k, measured, fixedConc)
  {
    if |s| == 0 then map[]
    else Concs(s[1..], measured, fixedConc)[s[0].id := ConcOf(s[0].id, measured, fixedConc)]
  }

  /** The number of terms whose concentration entry falls back to the default. */
  function DefaultedTerms(s: Sparse, measured: Measured): nat {
    if |s| == 0 then 0
    else (if s[0].id in measured then 0 else 1) + DefaultedTerms(s[1..], measured)
  }

  /** N_u counts exactly the entries of the concentration map that were
      filled with the default concentration. */
  lemma {:induction false} UnknownCountIsDefaulted(s: Sparse, measured: Measured)
    requires DistinctIds(s)
    ensures UnknownCount(s, measured) == DefaultedTerms(s, measured)
  {
    if |s| > 0 {
      var rest := s[1..];
      assert DistinctIds(rest) by {
        forall i, j | 0 <= i < j < |rest|
          ensures rest[i].id != rest[j].id
        {
          assert rest[i] == s[i + 1] && rest[j] == s[j + 1];
        }
      }
      UnknownCountIsDefaulted(rest, measured);
      IdsMembership(rest, s[0].id);
      assert s[0].id !in Ids(rest);
      var k := s[0].id;
      var u := Unmeasured(rest, measured);
      if k in measured {
        assert Unmeasured(s, measured) == u;
      } else {
        assert Unmeasured(s, measured) == {k} + u;
        assert k !in u;
        assert |{k} + u| == 1 + |u|;
      }
    }
  }

  /** The product over the reaction's terms of conc^coef (an empty reaction
      gives the empty product 1). */
  function Quotient(s: Sparse, c: map<string, Positive>): (q: real)
    requires Ids(s) <= c.Keys
    ensures q > 0.0
  {
    if |s| == 0 then 1.0
    else
      var rest := Quotient(s[1..], c);
      ProductPositive(Pow(c[s[0].id], s[0].coef), rest);
      Mul(Pow(c[s[0].id], s[0].coef), rest)
  }

  /** When every metabolite of the reaction has the same concentration x,
      the quotient is x raised to the sum of the coefficients. */
  lemma {:induction false} UniformQuotient(s: Sparse, c: map<string, Positive>, x: Positive)
    requires Ids(s) <= c.Keys
    requires forall k :: k in Ids(s) ==> c[k] == x
    ensures Quotient(s, c) == Pow(x, CoefSum(s))
  {
    if |s| > 0 {
      UniformQuotient(s[1..], c, x);
      PowAdd(x, s[0].coef, CoefSum(s[1..]));
    }
  }

  /** Splitting the terms splits the product. */
  lemma {:induction false} QuotientAppend(a: Sparse, b: Sparse, c: map<string, Positive>)
    requires Ids(a) <= c.Keys && Ids(b) <= c.Keys
    ensures Ids(a + b) == Ids(a) + Ids(b)
    ensures Quotient(a + b, c) == Mul(Quotient(a, c), Quotient(b, c))
  {
    IdsAppend(a, b);
    if |a| == 0 {
      assert a + b == b;
      OneTimes(Quotient(a, c), Quotient(b, c));
    } else {
      assert (a + b)[0] == a[0];
      assert (a + b)[1..] == a[1..] + b;
      QuotientAppend(a[1..], b, c);
      MulAssociates(Pow(c[a[0].id], a[0].coef), Quotient(a[1..], c), Quotient(b, c));
    }
  }

  /** The order in which the factors are taken does not change the quotient. */
  lemma QuotientSwap(a: Sparse, b: Sparse, c: map<string, Positive>)
    requires Ids(a) <= c.Keys && Ids(b) <= c.Keys
    ensures Ids(a + b) == Ids(b + a) == Ids(a) + Ids(b)
    ensures Quotient(a + b, c) == Quotient(b + a, c)
  {
    QuotientAppend(a, b, c);
    QuotientAppend(b, a, c);
    MulCommutes(Quotient(a, c), Quotient(b, c));
  }

  /** Moving one term to the front keeps the same metabolites. */
  lemma MovedIds(x: Sparse, t: Term, z: Sparse)
    ensures Ids(x + ([t] + z)) == Ids([t] + (x + z)) == {t.id} + Ids(x) + Ids(z)
  {
    IdsAppend(x, [t] + z);
    IdsAppend(x, z);
    assert ([t] + z)[1..] == z;
    assert ([t] + (x + z))[1..] == x + z;
  }

  /** Moving one term to the front does not change the quotient. */
  lemma MoveToFront(x: Sparse, t: Term, z: Sparse, c: map<string, Positive>)
    requires Ids(x + ([t] + z)) <= c.Keys && Ids([t] + (x + z)) <= c.Keys
    ensures Quotient(x + ([t] + z), c) == Quotient([t] + (x + z), c)
  {
    var p := Pow(c[t.id], t.coef);
    MovedIds(x, t, z);
    assert ([t] + z)[1..] == z;
    assert ([t] + (x + z))[1..] == x + z;
    QuotientAppend(x, [t] + z, c);
    QuotientAppend(x, z, c);
    assert Quotient([t] + z, c) == Mul(p, Quotient(z, c));
    assert Quotient([t] + (x + z), c) == Mul(p, Mul(Quotient(x, c), Quotient(z, c)));
    MulAssociates(Quotient(x, c), p, Quotient(z, c));
    MulAssociates(p, Quotient(x, c), Quotient(z, c));
    MulCommutes(Quotient(x, c), p);
  }

  /** Taking the same term out of two reorderings of each other leaves
      reorderings of each other. */
  lemma RemainingTerms(a: Sparse, x: Sparse, t: Term, z: Sparse)
    requires |a| > 0 && a[0] == t
    requires multiset(a) == multiset(x + ([t] + z))
    ensures multiset(a[1..]) == multiset(x + z)
  {
    assert a == [t] + a[1..];
    assert multiset(a) == multiset{t} + multiset(a[1..]);
    assert multiset(x + ([t] + z)) == multiset(x) + multiset{t} + multiset(z);
    assert multiset(x + z) == multiset(x) + multiset(z);
    assert multiset(a[1..]) == multiset(a) - multiset{t};
  }

  /** Any reordering of the terms, such as the order in which a dictionary
      yields them, involves the same metabolites and gives the same quotient. */
  lemma {:induction false} QuotientPermutation(a: Sparse, b: Sparse, c: map<string, Positive>)
    requires multiset(a) == multiset(b)
    requires Ids(a) <= c.Keys
    ensures Ids(a) == Ids(b)
    ensures Quotient(a, c) == Quotient(b, c)
    decreases |a|
  {
    if |a| == 0 {
      assert b == [];
    } else {
      var t := a[0];
      assert t in multiset(b);
      var k :| 0 <= k < |b| && b[k] == t;
      var x, z := b[..k], b[k + 1..];
      assert b == x + ([t] + z);
      RemainingTerms(a, x, t, z);
      QuotientPermutation(a[1..], x + z, c);
      IdsAppend(x, z);
      MovedIds(x, t, z);
      MoveToFront(x, t, z, c);
    }
  }

  /** The quotient depends only on the concentrations of the reaction's own
      metabolites. */
  lemma {:induction false} QuotientAgrees(s: Sparse, c: map<string, Positive>, d: map<string, Positive>)
    requires Ids(s) <= c.Keys && Ids(s) <= d.Keys
    requires forall k :: k in Ids(s) ==> c[k] == d[k]
    ensures Quotient(s, c) == Quotient(s, d)
  {
    if |s| > 0 {
      QuotientAgrees(s[1..], c, d);
    }
  }

  /** The reaction quotient Q of the reaction under the measured
      concentrations and the default. */
  function ReactionQuotient(s: Sparse, measured: Measured, fixedConc: Positive): (q: real)
    ensures q > 0.0
    ensures Ids(s) <= measured.Keys ==> q == Quotient(s, measured)
  {
    var c := Concs(s, measured, fixedConc);
    if Ids(s) <= measured.Keys then
      QuotientAgrees(s, c, measured);
      Quotient(s, c)
    else
      Quotient(s, c)
  }

  /** The measurement map of a run with no measurements. */
  const NothingMeasured: Measured := map[]

  /** With nothing measured, every metabolite of the reaction is unknown. */
  lemma UnmeasuredCount(s: Sparse)
    requires DistinctIds(s)
    ensures UnknownCount(s, NothingMeasured) == |s|
  {
    IdsCardinality(s);
    assert Unmeasured(s, NothingMeasured) == Ids(s);
  }

  /** With nothing measured, Q is the default concentration raised to the
      sum of the coefficients. */
  lemma UnmeasuredQuotient(s: Sparse, fixedConc: Positive)
    ensures ReactionQuotient(s, NothingMeasured, fixedConc) == Pow(fixedConc, CoefSum(s))
  {
    UniformQuotient(s, Concs(s, NothingMeasured, fixedConc), fixedConc);
  }

  /** The RI base keq/Q with denominator N_u; fails when every metabolite of
      the reaction was measured, where the exponent 2/N_u is undefined. */
  function RIBaseA(s: Sparse, measured: Measured, fixedConc: Positive, keq: Positive): (r: Result<RIBase, RIError>)
    ensures r.Failure? <==> Ids(s) <= measured.Keys
    ensures r.Success? ==>
              && r.value.denominator == UnknownCount(s, measured) > 0
              && r.value.base > 0.0
              && r.value.base * ReactionQuotient(s, measured, fixedConc) == keq
  {
    var nu := UnknownCount(s, measured);
    if nu == 0 then Failure(ZeroExponentDenominator)
    else
      var q := ReactionQuotient(s, measured, fixedConc);
      DivideThenMultiply(keq, q);
      Success(RIBase(keq / q, nu))
  }

  /** The whole batch: one unknown count, one quotient and one RI base per
      reaction, in input order. */
  method ReactionToRI(reactions: seq<Sparse>, keqs: seq<Positive>, measured: Measured,
                      fixedConc: Positive := DefaultFixedConc)
    returns (ri: seq<Result<RIBase, RIError>>, quotients: seq<real>, unknowns: seq<nat>)
    requires |keqs| == |reactions|
    ensures |ri| == |quotients| == |unknowns| == |reactions|
    ensures forall i :: 0 <= i < |reactions| ==>
              && unknowns[i] == UnknownCount(reactions[i], measured)
              && quotients[i] == ReactionQuotient(reactions[i], measured, fixedConc)
              && ri[i] == RIBaseA(reactions[i], measured, fixedConc, keqs[i])
  {
    unknowns := [];
    quotients := [];
    ri := [];
    var i := 0;
    while i < |reactions|
      invariant 0 <= i <= |reactions|
      invariant |ri| == |quotients| == |unknowns| == i
      invariant forall j :: 0 <= j < i ==>
                  && unknowns[j] == UnknownCount(reactions[j], measured)
                  && quotients[j] == ReactionQuotient(reactions[j], measured, fixedConc)
                  && ri[j] == RIBaseA(reactions[j], measured, fixedConc, keqs[j])
    {
      var s := reactions[i];
      unknowns := unknowns + [UnknownCount(s, measured)];
      quotients := quotients + [ReactionQuotient(s, measured, fixedConc)];
      ri := ri + [RIBaseA(s, measured, fixedConc, keqs[i])];
      i := i + 1;
    }
  }
}
