/** The sparse form of a parsed reaction: the metabolites it involves, each
    with a signed stoichiometric coefficient (negative for a substrate,
    positive for a product). The formula parser that produces it is not part
    of this model; its output is an input here. */
module Stoichiometry {

  /** One metabolite of a reaction and its coefficient. */
  datatype Term = Term(id: string, coef: int)

  /** A reaction's terms, in the order the parser lists them. */
  type Sparse = seq<Term>

  /** Every metabolite appears at most once (the parser's output is a dictionary). */
  ghost predicate DistinctIds(s: Sparse) {
    forall i, j :: 0 <= i < j < |s| ==> s[i].id != s[j].id
  }

  /** The parser never lists a metabolite with coefficient zero. */
  ghost predicate NonzeroCoefs(s: Sparse) {
    forall i :: 0 <= i < |s| ==> s[i].coef != 0
  }

  /** The metabolites a reaction involves. */
  function Ids(s: Sparse): set<string> {
    if |s| == 0 then {} else {s[0].id} + Ids(s[1..])
  }

  /** Sum of the signed coefficients (products minus substrates). */
  function CoefSum(s: Sparse): int {
    if |s| == 0 then 0 else s[0].coef + CoefSum(s[1..])
  }

  /** Sum of the absolute values of the coefficients. */
  function AbsSum(s: Sparse): nat {
    if |s| == 0 then 0
    else (if s[0].coef < 0 then -s[0].coef else s[0].coef) + AbsSum(s[1..])
  }

  lemma {:induction false} IdsMembership(s: Sparse, k: string)
    ensures k in Ids(s) <==> exists i :: 0 <= i < |s| && s[i].id == k
  {
    if |s| > 0 {
      IdsMembership(s[1..], k);
      if k in Ids(s[1..]) {
        var i :| 0 <= i < |s[1..]| && s[1..][i].id == k;
        assert s[i + 1].id == k;
      }
      forall i | 0 < i < |s| && s[i].id == k
        ensures k in Ids(s[1..])
      {
        assert s[1..][i - 1].id == k;
      }
    }
  }

  /** A reaction involves at most as many metabolites as it has terms, and
      exactly as many when no metabolite is listed twice. */
  lemma {:induction false} IdsCardinality(s: Sparse)
    ensures |Ids(s)| <= |s|
    ensures DistinctIds(s) ==> |Ids(s)| == |s|
  {
    if |s| > 0 {
      IdsCardinality(s[1..]);
      if DistinctIds(s) {
        assert DistinctIds(s[1..]) by {
          forall i, j | 0 <= i < j < |s[1..]|
            ensures s[1..][i].id != s[1..][j].id
          {
            assert s[1..][i] == s[i + 1] && s[1..][j] == s[j + 1];
          }
        }
        IdsMembership(s[1..], s[0].id);
        assert s[0].id !in Ids(s[1..]);
      }
    }
  }

  /** A subset is no larger than its superset. */
  lemma SubsetCardinality<T>(a: set<T>, b: set<T>)
    requires a <= b
    ensures |a| <= |b|
  {
    assert b == a + (b - a);
  }

  /** The metabolites of two concatenated term lists. */
  lemma {:induction false} IdsAppend(a: Sparse, b: Sparse)
    ensures Ids(a + b) == Ids(a) + Ids(b)
  {
    if |a| == 0 {
      assert a + b == b;
    } else {
      assert (a + b)[1..] == a[1..] + b;
      IdsAppend(a[1..], b);
    }
  }

  /** A reaction with nonzero coefficients has zero total weight exactly
      when it has no terms. */
  lemma AbsSumZero(s: Sparse)
    ensures NonzeroCoefs(s) ==> (AbsSum(s) == 0 <==> |s| == 0)
  {
    if NonzeroCoefs(s) && |s| > 0 {
      assert s[0].coef != 0;
    }
  }
}
