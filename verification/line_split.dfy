/** Reading the reaction list: each line is split on a four-space separator
    with Python's `str.split(sep)` semantics (leftmost, non-overlapping
    occurrences). Field 0, with every apostrophe removed, is the reaction's
    name; field 1 is its formula; a line without the separator has no
    field 1, and reading it aborts. */
module LineSplit {
  import opened Outcomes

  /** The field separator of the reaction list: four spaces. */
  const Separator: string := "    "

  /** sep occurs in s starting at position i. */
  predicate OccursAt(s: string, sep: string, i: nat) {
    i + |sep| <= |s| && s[i..i + |sep|] == sep
  }

  /** sep occurs somewhere in s. */
  ghost predicate Contains(s: string, sep: string) {
    exists i: nat :: OccursAt(s, sep, i)
  }

  /** The leftmost occurrence of sep in s at or after position k. */
  function FindFrom(s: string, sep: string, k: nat): (r: Option<nat>)
    requires |sep| > 0
    ensures r.Some? ==>
              && k <= r.value
              && OccursAt(s, sep, r.value)
              && forall j: nat :: k <= j < r.value ==> !OccursAt(s, sep, j)
    ensures r.None? ==> forall j: nat :: k <= j ==> !OccursAt(s, sep, j)
    decreases |s| - k
  {
    if k + |sep| > |s| then None
    else if OccursAt(s, sep, k) then Some(k)
    else FindFrom(s, sep, k + 1)
  }

  /** The leftmost occurrence of sep in s, if any. */
  function Find(s: string, sep: string): (r: Option<nat>)
    requires |sep| > 0
    ensures r.None? <==> !Contains(s, sep)
    ensures r.Some? ==>
              && OccursAt(s, sep, r.value)
              && forall j: nat :: j < r.value ==> !OccursAt(s, sep, j)
  {
    FindFrom(s, sep, 0)
  }

  /** The fields joined back with the separator between consecutive ones. */
  function Join(parts: seq<string>, sep: string): string {
    if |parts| == 0 then ""
    else if |parts| == 1 then parts[0]
    else parts[0] + sep + Join(parts[1..], sep)
  }

  /** The text before the leftmost occurrence contains no occurrence. */
  lemma BeforeFirstOccurrence(s: string, sep: string, i: nat)
    requires |sep| > 0
    requires OccursAt(s, sep, i)
    requires forall j: nat :: j < i ==> !OccursAt(s, sep, j)
    ensures !Contains(s[..i], sep)
  {
    forall j: nat | OccursAt(s[..i], sep, j)
      ensures false
    {
      assert s[..i][j..j + |sep|] == s[j..j + |sep|];
      assert OccursAt(s, sep, j);
    }
  }

  /** Python's `s.split(sep)`: the fields between successive leftmost
      occurrences of sep. */
  function Split(s: string, sep: string): (parts: seq<string>)
    requires |sep| > 0
    ensures |parts| >= 1
    decreases |s|
  {
    match Find(s, sep)
    case None => [s]
    case Some(i) => [s[..i]] + Split(s[i + |sep|..], sep)
  }

  /** The text is the first occurrence's prefix, the separator and the rest. */
  lemma SplitAtFirst(s: string, sep: string, i: nat)
    requires |sep| > 0 && Find(s, sep) == Some(i)
    ensures s == s[..i] + sep + s[i + |sep|..]
    ensures Split(s, sep) == [s[..i]] + Split(s[i + |sep|..], sep)
  {
    assert s[i..] == s[i..i + |sep|] + s[i + |sep|..];
    assert s == s[..i] + s[i..];
  }

  /** Joining the fields with the separator gives the text back. */
  lemma {:induction false} SplitJoin(s: string, sep: string)
    requires |sep| > 0
    ensures Join(Split(s, sep), sep) == s
    decreases |s|
  {
    match Find(s, sep)
    case None =>
    case Some(i) =>
      SplitAtFirst(s, sep, i);
      SplitJoin(s[i + |sep|..], sep);
  }

  /** No field contains the separator. */
  lemma {:induction false} SplitFieldsFree(s: string, sep: string)
    requires |sep| > 0
    ensures forall p :: p in Split(s, sep) ==> !Contains(p, sep)
    decreases |s|
  {
    match Find(s, sep)
    case None =>
    case Some(i) =>
      SplitAtFirst(s, sep, i);
      SplitFieldsFree(s[i + |sep|..], sep);
      BeforeFirstOccurrence(s, sep, i);
  }

  /** The text splits into more than one field exactly when it contains the
      separator. */
  lemma SplitCount(s: string, sep: string)
    requires |sep| > 0
    ensures |Split(s, sep)| == 1 <==> !Contains(s, sep)
  {
  }

  /** Python's `s.replace("'", '')`: s with every apostrophe removed. */
  function RemoveQuotes(s: string): (r: string)
    ensures '\'' !in r
    ensures '\'' !in s ==> r == s
  {
    if |s| == 0 then ""
    else (if s[0] == '\'' then "" else [s[0]]) + RemoveQuotes(s[1..])
  }

  /** Every character other than the apostrophe is kept as often as it
      occurs. */
  lemma {:induction false} RemoveQuotesKeeps(s: string)
    ensures forall c :: c != '\'' ==> multiset(RemoveQuotes(s))[c] == multiset(s)[c]
  {
    if |s| > 0 {
      RemoveQuotesKeeps(s[1..]);
      assert s == [s[0]] + s[1..];
    }
  }

  /** Removing apostrophes works piecewise, so the kept characters stay in
      their original order. */
  lemma {:induction false} RemoveQuotesAppend(a: string, b: string)
    ensures RemoveQuotes(a + b) == RemoveQuotes(a) + RemoveQuotes(b)
  {
    if |a| > 0 {
      var head := if a[0] == '\'' then "" else [a[0]];
      assert (a + b)[0] == a[0];
      assert (a + b)[1..] == a[1..] + b;
      RemoveQuotesAppend(a[1..], b);
      assert RemoveQuotes(a + b) == head + (RemoveQuotes(a[1..]) + RemoveQuotes(b));
      assert RemoveQuotes(a) == head + RemoveQuotes(a[1..]);
    } else {
      assert a + b == b;
    }
  }

  /** One row of the reaction list. */
  datatype Row = Row(name: string, formula: string)

  /** The line has no field 1 (Python raises IndexError). */
  datatype LineError = MissingSeparator

  /** One line: field 0 of the split without apostrophes is the name,
      field 1 is the formula; a line without the separator has no field 1. */
  function ParseLine(line: string): (r: Result<Row, LineError>)
    ensures r.Failure? <==> !Contains(line, Separator)
  {
    SplitCount(line, Separator);
    var parts := Split(line, Separator);
    if |parts| < 2 then Failure(MissingSeparator)
    else Success(Row(RemoveQuotes(parts[0]), parts[1]))
  }

  /** A parsed line's name is the text before the first separator without
      apostrophes; its formula is the text after that separator up to the
      next separator or the end of the line. */
  lemma ParseLineFields(line: string)
    requires ParseLine(line).Success?
    ensures Find(line, Separator).Some?
    ensures var i := Find(line, Separator).value;
            var rest := line[i + |Separator|..];
            var row := ParseLine(line).value;
            && row.name == RemoveQuotes(line[..i])
            && !Contains(row.formula, Separator)
            && match Find(rest, Separator)
               case None => row.formula == rest
               case Some(j) => row.formula == rest[..j]
  {
    var i := Find(line, Separator).value;
    var rest := line[i + |Separator|..];
    SplitAtFirst(line, Separator, i);
    SplitFieldsFree(rest, Separator);
    match Find(rest, Separator)
    case None =>
    case Some(j) =>
      SplitAtFirst(rest, Separator, j);
  }

  /** A line with exactly one separator parses into the text before it,
      without apostrophes, and the whole text after it. */
  lemma TwoFieldLine(line: string, i: nat)
    requires Find(line, Separator) == Some(i)
    requires !Contains(line[i + |Separator|..], Separator)
    ensures ParseLine(line) == Success(Row(RemoveQuotes(line[..i]), line[i + |Separator|..]))
  {
    SplitAtFirst(line, Separator, i);
  }

  /** The names and formulas read from the reaction list. */
  datatype Table = Table(names: seq<string>, formulas: seq<string>)

  /** The line at index `index` could not be read. */
  datatype LineFailure = LineFailure(index: nat, error: LineError)

  /** The whole reaction list, line by line: either every line parses and
      the names and formulas come out in line order, or reading stops at the
      first line without a separator. */
  method ParseLines(lines: seq<string>) returns (r: Result<Table, LineFailure>)
    ensures r.Success? ==>
              && |r.value.names| == |r.value.formulas| == |lines|
              && forall i :: 0 <= i < |lines| ==>
                   ParseLine(lines[i]) == Success(Row(r.value.names[i], r.value.formulas[i]))
    ensures r.Failure? ==>
              && r.error.index < |lines|
              && ParseLine(lines[r.error.index]).Failure?
              && forall j :: 0 <= j < r.error.index ==> ParseLine(lines[j]).Success?
  {
    var names: seq<string> := [];
    var formulas: seq<string> := [];
    var i := 0;
    while i < |lines|
      invariant 0 <= i <= |lines|
      invariant |names| == |formulas| == i
      invariant forall j :: 0 <= j < i ==> ParseLine(lines[j]) == Success(Row(names[j], formulas[j]))
    {
      match ParseLine(lines[i])
      case Failure(e) =>
        return Failure(LineFailure(i, e));
      case Success(row) =>
        names := names + [row.name];
        formulas := formulas + [row.formula];
      i := i + 1;
    }
    r := Success(Table(names, formulas));
  }
}
