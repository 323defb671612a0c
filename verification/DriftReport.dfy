/** What the drift report says, in terms of the rows and the words it prints. */
module DriftReport {
  import opened Sequences
  import opened Text
  import opened Descriptor
  import opened Sorting
  import opened DriftLines
  import opened DriftTheorems

  // ---------------------------------------------------------------- the two halves

  /** The lines of the deployed rows themselves, in text order. */
  ghost predicate StructuralPart(texts: seq<string>, deployed: seq<Deployed>, quote: string -> string) {
    SortedBy(texts, Itself) && multiset(texts) == multiset(Texts(LinesUpTo(deployed, |deployed|), quote))
  }

  ghost predicate ExactlyCalledFor(lines: seq<Line>, expected: seq<Row>, deployed: seq<Deployed>) {
    forall line :: line in lines <==> exists want :: want in expected && CalledFor(deployed, want, line)
  }

  /** The lines the expected rows call for, by kind and then by field. */
  ghost predicate ComparisonPart(texts: seq<string>, expected: seq<Row>, deployed: seq<Deployed>,
                                 quote: string -> string) {
    exists lines :: texts == Texts(lines, quote) && InOrder(lines) && ExactlyCalledFor(lines, expected, deployed)
  }

  /** The report is its structural half followed by its comparison half. */
  ghost predicate InTwoParts(diffs: seq<string>, expected: seq<Row>, deployed: seq<Deployed>,
                             quote: string -> string) {
    exists n :: 0 <= n <= |diffs| && StructuralPart(diffs[..n], deployed, quote)
                && ComparisonPart(diffs[n..], expected, deployed, quote)
  }

  lemma {:induction false} ReportInTwoParts(expected: seq<Row>, rows: seq<Row>, deployed: seq<Deployed>,
                                            quote: string -> string)
    requires SortedBy(rows, KindOf) && multiset(rows) == multiset(expected)
    requires deployed != [] && DistinctKinds(expected)
    ensures InTwoParts(Report(rows, deployed, quote), expected, deployed, quote)
  {
    var structural := Sort(Texts(IndexAll(deployed).structural, quote), Itself);
    var lines := ComparisonLines(IndexAll(deployed).byKind, rows);
    var diffs := structural + Texts(lines, quote);
    assert diffs[..|structural|] == structural && diffs[|structural|..] == Texts(lines, quote);
    StructuralIsExact(deployed, |deployed|);
    assert deployed[..|deployed|] == deployed;
    DistinctKindsPermuted(expected, rows);
    ComparisonIsExact(deployed, rows);
    assert ExactlyCalledFor(lines, rows, deployed);
    SameRows(expected, rows);
    CalledForBySame(lines, expected, rows, deployed);
  }

  lemma SameRows(expected: seq<Row>, rows: seq<Row>)
    requires multiset(rows) == multiset(expected)
    ensures forall want :: want in rows <==> want in expected
  {
    assert forall want :: want in rows <==> want in multiset(rows);
    assert forall want :: want in expected <==> want in multiset(expected);
  }

  lemma CalledForBySame(lines: seq<Line>, expected: seq<Row>, rows: seq<Row>, deployed: seq<Deployed>)
    requires ExactlyCalledFor(lines, rows, deployed) && forall want :: want in rows <==> want in expected
    ensures ExactlyCalledFor(lines, expected, deployed)
  {
  }

  lemma DistinctKindsPermuted(expected: seq<Row>, rows: seq<Row>)
    requires multiset(rows) == multiset(expected) && DistinctKinds(expected)
    ensures DistinctKinds(rows)
  {
    forall i, j | 0 <= i < j < |rows| ensures rows[i].kind != rows[j].kind {
      assert rows[i] in multiset(rows) && rows[j] in multiset(rows);
      assert rows[i] in expected && rows[j] in expected;
      if rows[i] == rows[j] {
        Twice(rows, i, j);
        Once(expected, rows[i]);
      }
    }
  }

  lemma Twice(rows: seq<Row>, i: nat, j: nat)
    requires i < j < |rows| && rows[i] == rows[j]
    ensures multiset(rows)[rows[i]] >= 2
  {
    assert rows == rows[..j] + rows[j..];
    assert rows[i] == rows[..j][i] && rows[j] == rows[j..][0];
    assert rows[i] in multiset(rows[..j]) && rows[i] in multiset(rows[j..]);
  }

  lemma Once(rows: seq<Row>, e: Row)
    requires DistinctKinds(rows) && e in rows
    ensures multiset(rows)[e] == 1
  {
    var i :| 0 <= i < |rows| && rows[i] == e;
    var before, after := rows[..i], rows[i + 1..];
    assert rows == before + [e] + after;
    assert e !in before && e !in after;
  }

  // ---------------------------------------------------------------- the words of the report

  predicate FirstOfItsKind(deployed: seq<Deployed>, i: nat)
    requires i < |deployed|
  {
    !Blank(deployed[i].kind) && forall j :: 0 <= j < i ==> deployed[j].kind != deployed[i].kind
  }

  /** The first row, among the first of their kinds, that has this plural. */
  predicate FirstWithPlural(deployed: seq<Deployed>, i: nat, plural: string)
    requires i < |deployed|
  {
    && FirstOfItsKind(deployed, i) && TrimSpace(deployed[i].plural) == plural
    && forall j :: 0 <= j < i && FirstOfItsKind(deployed, j) ==> TrimSpace(deployed[j].plural) != plural
  }

  /** What the report says of a deployed row by itself. */
  predicate RowReported(deployed: seq<Deployed>, i: nat, texts: seq<string>, quote: string -> string)
    requires i < |deployed|
  {
    var e := deployed[i];
    if Blank(e.kind) then "config.entities has an entry without a kind" in texts
    else if !FirstOfItsKind(deployed, i) then e.kind + ": duplicate kind in config.entities" in texts
    else if Blank(e.plural) then e.kind + ": plural is empty in config.entities" in texts
    else
      forall j :: 0 <= j < i && FirstWithPlural(deployed, j, TrimSpace(e.plural)) ==>
        e.kind + ": plural " + quote(TrimSpace(e.plural)) + " is already used by kind " + deployed[j].kind in texts
  }

  predicate DifferenceReported(kind: string, name: string, got: string, wanted: string, texts: seq<string>,
                               quote: string -> string) {
    got != wanted ==> kind + ": " + name + ": deployed " + quote(got) + ", expected " + quote(wanted) in texts
  }

  /** What it says of an expected row whose first deployed row differs, or which has none. */
  predicate ExpectedReported(want: Row, deployed: seq<Deployed>, texts: seq<string>, quote: string -> string) {
    && (forall i :: 0 <= i < |deployed| && FirstOfItsKind(deployed, i) && deployed[i].kind == want.kind ==>
          var got := deployed[i];
          && DifferenceReported(want.kind, "plural", got.plural, want.plural, texts, quote)
          && DifferenceReported(want.kind, "parent_kind", got.parentKind, want.parentKind, texts, quote)
          && DifferenceReported(want.kind, "on_parent_delete", got.onParentDelete, want.onParentDelete, texts, quote))
    && ((forall i :: 0 <= i < |deployed| && FirstOfItsKind(deployed, i) ==> deployed[i].kind != want.kind) ==>
          want.kind + ": missing from config.entities" in texts)
  }

  lemma OwnerIff(deployed: seq<Deployed>, i: nat, plural: string)
    requires i < |deployed| && plural != ""
    ensures Owner(deployed, i, plural) <==> FirstWithPlural(deployed, i, plural)
  {
    if !Blank(deployed[i].kind) { NamedIff(deployed, i); }
    forall j: nat | j < i && FirstOfItsKind(deployed, j) && TrimSpace(deployed[j].plural) == plural
      ensures LineAt(deployed, j).None? ==> Owner(deployed, j, plural)
      ensures LineAt(deployed, j).Some? ==> exists h: nat :: h < j && Owner(deployed, h, plural)
    {
      NamedIff(deployed, j);
    }
    forall j: nat | j < i && Owner(deployed, j, plural) ensures FirstOfItsKind(deployed, j) {
      NamedIff(deployed, j);
    }
  }

  lemma NamedIff(deployed: seq<Deployed>, i: nat)
    requires i < |deployed| && !Blank(deployed[i].kind)
    ensures deployed[i].kind in NamedKinds(deployed[..i]) <==> !FirstOfItsKind(deployed, i)
  {
    assert forall j :: 0 <= j < i ==> deployed[j] == deployed[..i][j] && deployed[j] in deployed[..i];
  }

  lemma {:induction false} LineIn(deployed: seq<Deployed>, i: nat, n: nat)
    requires i < n <= |deployed| && LineAt(deployed, i).Some?
    ensures LineAt(deployed, i).value in LinesUpTo(deployed, n)
  {
    if i < n - 1 { LineIn(deployed, i, n - 1); }
  }

  lemma TextIn(line: Line, lines: seq<Line>, quote: string -> string)
    requires line in lines
    ensures Render(line, quote) in Texts(lines, quote)
  {
    var i :| 0 <= i < |lines| && lines[i] == line;
    assert Texts(lines, quote)[i] == Render(line, quote);
  }

  /** A report that holds the row's line, if it has one, says what is wrong with the row. */
  lemma LineSays(deployed: seq<Deployed>, i: nat, texts: seq<string>, quote: string -> string)
    requires i < |deployed|
    requires LineAt(deployed, i).Some? ==> Render(LineAt(deployed, i).value, quote) in texts
    ensures RowReported(deployed, i, texts, quote)
  {
    var e := deployed[i];
    if !Blank(e.kind) {
      NamedIff(deployed, i);
      if FirstOfItsKind(deployed, i) && !Blank(e.plural) {
        var plural := TrimSpace(e.plural);
        forall j: nat | j < i ensures FirstWithPlural(deployed, j, plural) <==> Owner(deployed, j, plural) {
          OwnerIff(deployed, j, plural);
        }
        forall j: nat, h: nat | j < i && h < i && FirstWithPlural(deployed, j, plural)
                                && FirstWithPlural(deployed, h, plural)
          ensures j == h
        {
        }
      }
    }
  }

  lemma RowIsReported(deployed: seq<Deployed>, rows: seq<Row>, i: nat, quote: string -> string)
    requires i < |deployed|
    ensures RowReported(deployed, i, Report(rows, deployed, quote), quote)
  {
    var texts := Texts(IndexAll(deployed).structural, quote);
    StructuralIsExact(deployed, |deployed|);
    assert deployed[..|deployed|] == deployed;
    if LineAt(deployed, i).Some? {
      LineIn(deployed, i, |deployed|);
      TextIn(LineAt(deployed, i).value, IndexAll(deployed).structural, quote);
      assert Render(LineAt(deployed, i).value, quote) in multiset(texts);
      assert Render(LineAt(deployed, i).value, quote) in multiset(Sort(texts, Itself));
    }
    LineSays(deployed, i, Report(rows, deployed, quote), quote);
  }

  lemma {:induction false} MatchIs(deployed: seq<Deployed>, kind: string, i: nat)
    requires i < |deployed| && FirstOfItsKind(deployed, i) && deployed[i].kind == kind
    ensures Match(deployed, kind) == Some(deployed[i])
  {
    FirstOfKindIs(deployed, kind, i);
  }

  lemma {:induction false} FirstOfKindIs(deployed: seq<Deployed>, kind: string, i: nat)
    requires i < |deployed| && deployed[i].kind == kind && forall j :: 0 <= j < i ==> deployed[j].kind != kind
    ensures FirstOfKind(deployed, kind) == Some(deployed[i])
  {
    if i > 0 {
      assert forall j :: 0 <= j < i - 1 ==> deployed[1..][j] == deployed[j + 1];
      FirstOfKindIs(deployed[1..], kind, i - 1);
    }
  }

  lemma {:induction false} FirstOfKindAt(deployed: seq<Deployed>, kind: string) returns (i: nat)
    requires FirstOfKind(deployed, kind).Some?
    ensures i < |deployed| && deployed[i].kind == kind && forall j :: 0 <= j < i ==> deployed[j].kind != kind
  {
    if deployed[0].kind == kind {
      i := 0;
    } else {
      var h := FirstOfKindAt(deployed[1..], kind);
      i := h + 1;
    }
  }

  lemma MatchAt(deployed: seq<Deployed>, kind: string) returns (i: nat)
    requires Match(deployed, kind).Some?
    ensures i < |deployed| && FirstOfItsKind(deployed, i) && deployed[i].kind == kind
  {
    i := FirstOfKindAt(deployed, kind);
  }

  lemma {:induction false} CalledForIsReported(rows: seq<Row>, deployed: seq<Deployed>, want: Row, line: Line,
                                               quote: string -> string)
    requires want in rows && deployed != [] && CalledFor(deployed, want, line)
    ensures Render(line, quote) in Report(rows, deployed, quote)
  {
    var lines := ComparisonLines(IndexAll(deployed).byKind, rows);
    RowLinesCalledFor(deployed, want, line);
    var f := (want: Row) => RowLines(IndexAll(deployed).byKind, want);
    FlatMapMember(f, rows, line);
    var i :| 0 <= i < |rows| && rows[i] == want;
    assert line in f(rows[i]);
    TextIn(line, lines, quote);
  }

  lemma {:induction false} DifferenceIsReported(rows: seq<Row>, deployed: seq<Deployed>, want: Row, i: nat,
                                                field: Field, quote: string -> string)
    requires want in rows && i < |deployed| && FirstOfItsKind(deployed, i) && deployed[i].kind == want.kind
    ensures DifferenceReported(want.kind, FieldName(field), Got(deployed[i], field), Wanted(want, field),
                               Report(rows, deployed, quote), quote)
  {
    MatchIs(deployed, want.kind, i);
    var got, wanted := Got(deployed[i], field), Wanted(want, field);
    if got != wanted {
      CalledForIsReported(rows, deployed, want, Differs(want.kind, field, got, wanted), quote);
    }
  }

  /** Whatever differs between an expected row and its deployed row, the report says so. */
  lemma {:induction false} ExpectedIsReported(rows: seq<Row>, deployed: seq<Deployed>, want: Row,
                                              quote: string -> string)
    requires want in rows && deployed != []
    ensures ExpectedReported(want, deployed, Report(rows, deployed, quote), quote)
  {
    forall i: nat | i < |deployed| && FirstOfItsKind(deployed, i) && deployed[i].kind == want.kind
      ensures var got, texts := deployed[i], Report(rows, deployed, quote);
              && DifferenceReported(want.kind, "plural", got.plural, want.plural, texts, quote)
              && DifferenceReported(want.kind, "parent_kind", got.parentKind, want.parentKind, texts, quote)
              && DifferenceReported(want.kind, "on_parent_delete", got.onParentDelete, want.onParentDelete,
                                    texts, quote)
    {
      DifferenceIsReported(rows, deployed, want, i, Plural, quote);
      DifferenceIsReported(rows, deployed, want, i, ParentKind, quote);
      DifferenceIsReported(rows, deployed, want, i, OnParentDelete, quote);
    }
    if Match(deployed, want.kind).Some? {
      var i := MatchAt(deployed, want.kind);
    } else {
      CalledForIsReported(rows, deployed, want, Missing(want.kind), quote);
    }
  }
}
