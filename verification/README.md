# Reversibility index of metabolic reactions

The model covers two scripts from the Thermodynamics repository. Both compute a
reversibility index (RI) for every reaction of a metabolic model:

    RI = (base) ^ (2 / denominator)

A large RI means the metabolite concentrations must move a long way before
the reaction can run backwards.

- **Variant A** (`RI_specific.py`, `reaction2RI`) uses measured metabolite
  concentrations where it has them. Every other metabolite gets a fixed
  default concentration.
  - It computes the reaction quotient Q = ∏ conc^coef.
  - The base is keq / Q.
  - The denominator N_u is the number of the reaction's metabolites that
    have no measurement.
- **Variant B** (`katja_thermo.py`, `reaction2RI`) puts every metabolite at
  the fixed concentration.
  - N_P is the products' weight: the sum of the positive coefficients.
  - N_S is the substrates' weight: minus the sum of the negative
    coefficients.
  - The base is keq · fixed^(N_P − N_S).
  - The denominator is N = N_P + N_S.
- **Reading the reaction list.** Both scripts read it the same way. Each line
  is split on a four-space separator. Field 0, with its apostrophes removed,
  is the reaction's name; field 1 is its formula.

The model stops before the real-valued power. Each variant produces an
`RIBase(base, denominator)` per reaction. It produces the error
`ZeroExponentDenominator` when the denominator is zero, because then the
exponent 2/denominator is undefined.

## Modules

| file | module | contents |
|---|---|---|
| `outcomes.dfy` | `Outcomes` | `Option` and `Result` |
| `powers.dfy` | `Powers` | positive reals; integer powers `Pow`; the product `Mul`; power and product laws |
| `stoichiometry.dfy` | `Stoichiometry` | a parsed reaction as a sequence of `Term(id, coef)`; its metabolite set; signed and absolute coefficient sums |
| `reversibility.dfy` | `Reversibility` | `RIBase`, `RIError`, the default fixed concentration 0.1 |
| `ri_specific.dfy` | `RISpecific` | variant A: N_u, the concentration map, Q, the RI base, the batch |
| `katja_thermo.dfy` | `KatjaThermo` | variant B: N_P, N_S, N, Q'', the RI base, the batch |
| `variants.dfy` | `Variants` | how the two variants relate when nothing is measured |
| `line_split.dfy` | `LineSplit` | Python's `str.split`, `str.replace("'", '')`, parsing one line and the whole list |
| `scenarios.dfy` | `Scenarios` | worked examples: the reaction A + B → C and two lines of the reaction list |

Coefficients are integers; concentrations, `fixed_conc` and `keq` are
positive reals. The formula parser (`KeggReaction.parse_formula`) is not part
of this model. Its `sparse` dictionary is the model's input: a sequence of
terms in parser order. Lemmas that need the dictionary's uniqueness of keys
require `DistinctIds`.

Multiplication of reals goes through the non-recursive function `Powers.Mul`.
The verifier can then treat products of recursive terms as plain
function applications, so it does not need nonlinear arithmetic for them.

## Model

| member | source | states |
|---|---|---|
| `Powers.Pow` | katja_thermo.py:76 | an integer power of a positive real is positive |
| `Powers.PowAdd` | katja_thermo.py:76 | adding exponents multiplies powers, for negative exponents too |
| `RISpecific.UnknownCount` | RI_specific.py:84 | N_u never exceeds the number of the reaction's metabolites, which never exceeds the number of terms; N_u is zero exactly when every metabolite of the reaction has a measurement |
| `RISpecific.UnmeasuredEmpty` | RI_specific.py:84 | the set of unmeasured metabolites is empty exactly when all of the reaction's metabolites are keys of the measurement map |
| `RISpecific.Concs` | RI_specific.py:86-89 | the concentration map has exactly the reaction's metabolites as keys; each value is the measurement when there is one and `fixed_conc` otherwise |
| `RISpecific.UnknownCountIsDefaulted` | RI_specific.py:84-89 | with each metabolite listed once, N_u equals the number of terms whose metabolite has no measurement; these are the entries that the concentration map fills with `fixed_conc` |
| `RISpecific.Quotient` | RI_specific.py:91-93 | the product of positive concentrations raised to integer coefficients is positive; `UniformQuotient`, `QuotientAppend`, `QuotientPermutation` and `QuotientAgrees` give its other properties |
| `RISpecific.UniformQuotient` | RI_specific.py:93 | when every metabolite has the same concentration x, Q is x raised to the signed sum of the coefficients |
| `RISpecific.QuotientAppend` | RI_specific.py:93 | the product over two concatenated term lists is the product of the two products |
| `RISpecific.QuotientSwap` | RI_specific.py:93 | swapping two blocks of terms does not change Q |
| `RISpecific.MoveToFront` | RI_specific.py:93 | moving one term from the middle of the list to the front does not change Q |
| `RISpecific.QuotientPermutation` | RI_specific.py:93 | any reordering of the terms, such as the order in which the dictionary yields them, gives the same metabolites and the same Q |
| `RISpecific.QuotientAgrees` | RI_specific.py:86-93 | Q depends only on the concentrations of the reaction's own metabolites: two maps that agree on them give the same Q |
| `RISpecific.ReactionQuotient` | RI_specific.py:86-93 | Q is positive for every reaction and every measurement map, so keq/Q is defined; when every metabolite is measured, Q is computed from the measurements alone |
| `RISpecific.UnmeasuredCount` | RI_specific.py:84 | with an empty measurement map and each metabolite listed once, N_u is the number of metabolites |
| `RISpecific.UnmeasuredQuotient` | RI_specific.py:86-93 | with an empty measurement map, Q is `fixed_conc` raised to the sum of the coefficients |
| `RISpecific.RIBaseA` | RI_specific.py:94-95 | fails exactly when every metabolite is measured (N_u = 0); otherwise the denominator is N_u > 0, the base is positive and base · Q = keq |
| `RISpecific.ReactionToRI` | RI_specific.py:60-96 | one RI base, one Q and one N_u per reaction, all in input order, each agreeing with the per-reaction definitions; `fixed_conc` defaults to 0.1 |
| `KatjaThermo.ProductWeight` | katja_thermo.py:73 | N_P is a natural number that is zero exactly when no coefficient is positive |
| `KatjaThermo.SubstrateWeight` | katja_thermo.py:74 | N_S is a natural number that is zero exactly when no coefficient is negative |
| `KatjaThermo.WeightDifference` | katja_thermo.py:76 | N_P − N_S is the signed sum of the coefficients |
| `KatjaThermo.WeightTotal` | katja_thermo.py:75 | N_P + N_S is the sum of the absolute values of the coefficients |
| `KatjaThermo.TotalWeight` | katja_thermo.py:75 | N is the sum of the absolute coefficients; when no coefficient is zero, N is zero exactly for the empty reaction |
| `KatjaThermo.FixedQuotient` | katja_thermo.py:76 | Q'' is `fixed_conc` raised to the signed coefficient sum; a balanced reaction (N_P = N_S) has Q'' = 1 |
| `KatjaThermo.RIBaseB` | katja_thermo.py:75-78 | fails exactly when N = 0; otherwise the denominator is N > 0 and the base is keq · fixed_conc^(sum of coefficients), which is positive |
| `KatjaThermo.ReactionToRI` | katja_thermo.py:51-79 | per reaction, in input order: N_P − N_S is the signed sum, N_P + N_S is the absolute sum, and the RI base is the per-reaction one; `fixed_conc` defaults to 0.1 |
| `Variants.FixedQuotientIsUnmeasured` | katja_thermo.py:76 | variant B's Q'' equals variant A's Q when no concentration was measured |
| `Variants.UnitDenominators` | katja_thermo.py:75 | with nothing measured and every coefficient ±1, variant A's N_u equals variant B's N |
| `Variants.SameFailures` | katja_thermo.py:78 | with nothing measured, both variants fail exactly on the empty reaction |
| `Variants.UnmeasuredBaseA` | RI_specific.py:84-95 | with nothing measured, a nonempty reaction gets a base from variant A, and that base times Q'' is keq |
| `Variants.UnmeasuredBaseB` | katja_thermo.py:75-78 | for a nonempty reaction with nonzero coefficients, variant B gets a base, and that base is keq · Q'' |
| `Variants.BasesAreReciprocal` | katja_thermo.py:76-78 | with nothing measured, A's base keq/Q and B's base keq·Q'' multiply to keq², and they are equal exactly when Q'' = 1 |
| `LineSplit.FindFrom` | RI_specific.py:106 | the result is the leftmost occurrence of the separator at or after the start position, or none when there is no such occurrence |
| `LineSplit.Find` | RI_specific.py:106 | there is no result exactly when the separator does not occur; otherwise the result is its leftmost occurrence |
| `LineSplit.Split` | RI_specific.py:106 | a split always has at least one field; `SplitAtFirst`, `SplitJoin`, `SplitFieldsFree` and `SplitCount` give its other properties |
| `LineSplit.SplitAtFirst` | RI_specific.py:106 | the line is the text before the first separator, the separator, and the rest; its fields are that first text followed by the fields of the rest |
| `LineSplit.SplitJoin` | RI_specific.py:106 | joining the fields with the separator gives the line back |
| `LineSplit.SplitFieldsFree` | RI_specific.py:106 | no field contains the separator |
| `LineSplit.SplitCount` | RI_specific.py:106-108 | there is more than one field exactly when the separator occurs in the line |
| `LineSplit.RemoveQuotes` | RI_specific.py:107 | the name has no apostrophe left, and a text without apostrophes is unchanged |
| `LineSplit.RemoveQuotesKeeps` | RI_specific.py:107 | every other character is kept as often as it occurs |
| `LineSplit.RemoveQuotesAppend` | RI_specific.py:107 | apostrophes are removed piecewise, so the kept characters stay in order |
| `LineSplit.ParseLine` | RI_specific.py:105-108 | a line fails, as `row[1]` raises IndexError, exactly when it contains no separator |
| `LineSplit.ParseLineFields` | RI_specific.py:106-108 | a parsed name is the text before the first separator without apostrophes; the formula contains no separator and is the text after that separator, up to the next separator or to the end of the line |
| `LineSplit.TwoFieldLine` | katja_thermo.py:86-89 | a line with exactly one separator gives the unquoted text before it as the name and the whole text after it as the formula |
| `LineSplit.ParseLines` | RI_specific.py:102-108 | either every line parses and names and formulas come out in line order, one per line, or reading stops at the first line that fails |
| `Scenarios.ExampleVariantB` | katja_thermo.py:70-78 | A + B → C at `fixed_conc` 0.1 with keq 10: N_P = 1, N_S = 2, Q'' = 10, base 100 over 3 |
| `Scenarios.ExampleVariantA` | RI_specific.py:84-95 | the same reaction with A measured at 0.5: N_u = 2, Q = 2, base 5 over 2 |
| `Scenarios.ExampleLine` | katja_thermo.py:86-89 | the line `'R'    A=B` gives name `R` and formula `A=B` |
| `Scenarios.ExampleExtraSpaces` | RI_specific.py:106-108 | the line `R    x     y` gives formula `x`: the fifth space belongs to the third field |
| `Scenarios.ExampleTabLine` | RI_specific.py:106-108 | a line whose fields are separated by a tab cannot be read |

## Left out

- `reaction2dG0` and `reaction2Keq` call the component-contribution package and exponentiate numbers that carry uncertainty. keq is an input to the model.
- The final real-valued power `(base) ** (2.0 / denominator)` is left out, because Dafny's reals have no fractional powers. The model produces base and denominator.
- `KeggReaction.parse_formula` is not part of this model. Its output is the input. Its coefficients are assumed to be integers; fractional coefficients are not modelled.
- Reading CSV files, pandas, `print` and writing the result file are left out. So are the `.loc['Glc'] * 1e-6` unit conversion and the `dict(zip(names, RI))` output, whose order is not defined.
- Zero, negative and NaN concentrations are left out. Concentrations, `fixed_conc` and keq are positive reals, so `0 ** negative` does not arise.
- RISpecific.RIBaseA: when N_u = 0 (every metabolite measured), numpy's elementwise `2.0 / N_u` gives an infinite exponent and the batch carries on. The model reports `ZeroExponentDenominator` for that reaction, and the other reactions are still computed. A comment at `RI_specific.py:94` plans to use keq/Q alone in this case; the code does not do this, and neither does the model.
- KatjaThermo.RIBaseB: the same applies to N = 0, which for a reaction with nonzero coefficients means the reaction has no terms.
- LineSplit.ParseLines: Python aborts the script with IndexError at the first line without a separator. The model returns that line's index as a failure.
- Only the separator's occurrences are modelled. The CSV reader's own comma split before it (`row[0]`) is I/O.
- Q is computed with exact reals. numpy multiplies float64 values, and the rounding of `np.prod` depends on the order of the factors. The model's Q is the same in every order (`QuotientPermutation`). Rounding is not modelled.
