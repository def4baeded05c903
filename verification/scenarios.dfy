/** A worked reaction, A + B -> C, with keq = 10 and the default fixed
    concentration 0.1 of both scripts. */
module Scenarios {
  import opened Outcomes
  import opened Powers
  import opened Stoichiometry
  import opened Reversibility
  import opened RISpecific
  import opened KatjaThermo
  import opened LineSplit

  /** The sparse form of A + B -> C. */
  function Example(): Sparse {
    [Term("A", -1), Term("B", -1), Term("C", 1)]
  }

  /** Variant B: N_P = 1, N_S = 2, Q'' = 0.1^-1 = 10, so the base is
      keq * Q'' = 100 with denominator 3. */
  lemma ExampleVariantB()
    ensures ProductWeight(Example()) == 1 && SubstrateWeight(Example()) == 2
    ensures FixedQuotient(Example(), DefaultFixedConc) == 10.0
    ensures RIBaseB(Example(), DefaultFixedConc, 10.0) == Success(RIBase(100.0, 3))
  {
    var s := Example();
    assert s[1..] == [Term("B", -1), Term("C", 1)];
    assert s[1..][1..] == [Term("C", 1)];
    assert CoefSum(s) == -1;
    assert PowNat(0.1, 1) == 0.1;
  }

  /** The powers the worked example needs. */
  lemma ExamplePowers()
    ensures Pow(0.5, -1) == 2.0 && Pow(0.1, -1) == 10.0 && Pow(0.1, 1) == 0.1
  {
    assert PowNat(0.5, 1) == Mul(0.5, 1.0);
    assert PowNat(0.1, 1) == Mul(0.1, 1.0);
  }

  /** With A measured at 0.5, the concentration map gives A its measurement
      and B and C the default. */
  lemma ExampleConcs()
    ensures Ids(Example()) == {"A", "B", "C"}
    ensures Concs(Example(), map["A" := 0.5], DefaultFixedConc) == map["A" := 0.5, "B" := 0.1, "C" := 0.1]
  {
    var s := Example();
    assert s[1..] == [Term("B", -1), Term("C", 1)];
    assert s[1..][1..] == [Term("C", 1)];
    assert s[1..][1..][1..] == [];
  }

  /** Variant A with A measured at 0.5: B and C are unknown (N_u = 2) and
      Q = 0.5^-1 * 0.1^-1 * 0.1^1 = 2, so the base is keq/Q = 5. */
  lemma ExampleVariantA()
    ensures UnknownCount(Example(), map["A" := 0.5]) == 2
    ensures ReactionQuotient(Example(), map["A" := 0.5], DefaultFixedConc) == 2.0
    ensures RIBaseA(Example(), map["A" := 0.5], DefaultFixedConc, 10.0) == Success(RIBase(5.0, 2))
  {
    var s := Example();
    var m: Measured := map["A" := 0.5];
    ExampleConcs();
    assert Unmeasured(s, m) == {"B", "C"};
    var c := map["A" := 0.5, "B" := 0.1, "C" := 0.1];
    ExamplePowers();
    var t := s[1..][1..];
    assert t == [Term("C", 1)] && t[1..] == [];
    assert Quotient(t, c) == Mul(0.1, 1.0);
    assert Quotient(s[1..], c) == Mul(10.0, Quotient(t, c));
    assert Quotient(s, c) == Mul(2.0, Quotient(s[1..], c));
  }

  /** The separator occurs nowhere in a text without spaces. */
  lemma NoSpaceNoSeparator(s: string)
    requires ' ' !in s
    ensures !Contains(s, Separator)
  {
    forall j: nat | j + |Separator| <= |s|
      ensures !OccursAt(s, Separator, j)
    {
      assert s[j..j + |Separator|][0] == s[j];
    }
  }

  /** The name field of the worked line loses its apostrophes. */
  lemma ExampleName()
    ensures RemoveQuotes("'R'") == "R"
  {
    assert "'R'"[1..] == "R'";
    assert "R'"[1..] == "'";
    assert "'"[1..] == "";
  }

  /** The separator first occurs right after the name field of the worked
      line. */
  lemma ExampleSeparator()
    ensures Find("'R'    A=B", Separator) == Some(3)
  {
    var line := "'R'    A=B";
    assert line[3..7] == Separator;
    forall j: nat | j < 3
      ensures !OccursAt(line, Separator, j)
    {
      assert line[j..j + 4][0] == line[j];
    }
  }

  /** A line of the reaction list with the four-space separator: reaction R
      with formula A=B. */
  lemma ExampleLine()
    ensures ParseLine("'R'    A=B") == Success(Row("R", "A=B"))
  {
    var line := "'R'    A=B";
    ExampleSeparator();
    ExampleName();
    assert line[..3] == "'R'";
    assert line[7..] == "A=B";
    NoSpaceNoSeparator("A=B");
    TwoFieldLine(line, 3);
  }

  /** The first separator of `R    x     y` starts at position 1. */
  lemma ExtraSpacesFirst()
    ensures Find("R    x     y", Separator) == Some(1)
  {
    var line := "R    x     y";
    assert line[0..4][0] == 'R';
    assert line[1..5] == Separator;
  }

  /** The first separator of `x     y` starts at position 1. */
  lemma ExtraSpacesSecond()
    ensures Find("x     y", Separator) == Some(1)
  {
    var rest := "x     y";
    assert rest[0..4][0] == 'x';
    assert rest[1..5] == Separator;
  }

  /** Extra spaces after a separator stay in the next field: the formula
      of `R    x     y` is `x`, and the fifth space begins field 2. */
  lemma ExampleExtraSpaces()
    ensures ParseLine("R    x     y") == Success(Row("R", "x"))
  {
    var line := "R    x     y";
    ExtraSpacesFirst();
    assert line[5..] == "x     y";
    ExtraSpacesSecond();
    ParseLineFields(line);
    assert line[..1] == "R";
    assert "x     y"[..1] == "x";
  }

  /** A line whose fields are separated by a tab instead cannot be read. */
  lemma ExampleTabLine()
    ensures ParseLine("R\tA=B").Failure?
  {
    NoSpaceNoSeparator("R\tA=B");
  }
}
