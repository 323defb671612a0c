/** The drift report: the deployed API's entity configuration compared with the expected descriptor rows. */
module Drift {
  import opened Sequences
  import opened Text
  import opened Descriptor
  import opened Sorting
  import opened DriftLines
  import opened DriftTheorems
  import opened DriftReport

  // ---------------------------------------------------------------- the methods

  /** structuralEntityDiffs */
  method StructuralEntityDiffs(deployed: seq<Deployed>, quote: string -> string)
    returns (structural: seq<string>, byKind: map<string, Deployed>)
    ensures structural == Sort(Texts(IndexAll(deployed).structural, quote), Itself)
    ensures byKind == IndexAll(deployed).byKind
  {
    structural, byKind := [], map[];
    var pluralKind: map<string, string> := map[];
    ghost var index := Index([], map[], map[]);
    for i := 0 to |deployed|
      invariant index == IndexAll(deployed[..i]) && Holds(index, structural, byKind, pluralKind, quote)
    {
      assert deployed[..i + 1][..i] == deployed[..i];
      structural, byKind, pluralKind := IndexEntity(deployed[i], structural, byKind, pluralKind, quote, index);
      index := Add(index, deployed[i]);
    }
    assert deployed[..|deployed|] == deployed;
    structural := Sort(structural, Itself);
  }

  ghost predicate Holds(index: Index, structural: seq<string>, byKind: map<string, Deployed>,
                        pluralKind: map<string, string>, quote: string -> string) {
    structural == Texts(index.structural, quote) && byKind == index.byKind && pluralKind == index.pluralKind
  }

  /** The body of its loop; returning early is the loop's "continue". */
  method IndexEntity(entity: Deployed, structural: seq<string>, byKind: map<string, Deployed>,
                     pluralKind: map<string, string>, quote: string -> string, ghost index: Index)
    returns (structural': seq<string>, byKind': map<string, Deployed>, pluralKind': map<string, string>)
    requires Holds(index, structural, byKind, pluralKind, quote)
    ensures Holds(Add(index, entity), structural', byKind', pluralKind', quote)
  {
    structural', byKind', pluralKind' := structural, byKind, pluralKind;
    var kind := entity.kind;
    if Blank(kind) {
      structural' := structural + [Render(EntryWithoutKind, quote)];
      TextsAppend(index.structural, [EntryWithoutKind], quote);
      return;
    }
    if kind in byKind {
      structural' := structural + [Render(KindRepeated(kind), quote)];
      TextsAppend(index.structural, [KindRepeated(kind)], quote);
      return;
    }
    byKind' := byKind[kind := entity];
    var plural := TrimSpace(entity.plural);
    if plural == "" {
      structural' := structural + [Render(PluralEmpty(kind), quote)];
      TextsAppend(index.structural, [PluralEmpty(kind)], quote);
      return;
    }
    if plural in pluralKind {
      var line := PluralTaken(kind, plural, pluralKind[plural]);
      structural' := structural + [Render(line, quote)];
      TextsAppend(index.structural, [line], quote);
      return;
    }
    pluralKind' := pluralKind[plural := kind];
  }

  /** slices.SortFunc by kind. It is not stable: of the sorted orders it may give any. */
  method SortRows(expected: seq<Row>) returns (rows: seq<Row>)
    ensures SortedBy(rows, KindOf) && multiset(rows) == multiset(expected)
  {
    rows := Sort(expected, KindOf);
  }

  /** apiEntityDiffs */
  method ApiEntityDiffs(expected: seq<Row>, deployed: seq<Deployed>, quote: string -> string)
    returns (diffs: seq<string>, ghost rows: seq<Row>)
    ensures SortedBy(rows, KindOf) && multiset(rows) == multiset(expected)
    ensures diffs == Report(rows, deployed, quote)
    ensures OneRowAKind(expected) ==> diffs == Report(Sort(expected, KindOf), deployed, quote)
    ensures deployed == [] ==> diffs == ["config.entities is missing or empty in the deployed Helm values"]
    ensures deployed != [] && DistinctKinds(expected) ==> InTwoParts(diffs, expected, deployed, quote)
    ensures forall i :: 0 <= i < |deployed| ==> RowReported(deployed, i, diffs, quote)
    ensures deployed != [] ==> forall want :: want in expected ==> ExpectedReported(want, deployed, diffs, quote)
  {
    if |deployed| == 0 {
      diffs := [Render(NoEntities, quote)];
      rows := Sort(expected, KindOf);
      SortedRowsAreUnique(expected, rows);
      return;
    }
    var structural, byKind := StructuralEntityDiffs(deployed, quote);
    var sorted := SortRows(expected);
    var compared := CompareRows(sorted, byKind, quote);
    rows, diffs := sorted, structural + compared;
    SortedRowsAreUnique(expected, rows);
    SaysEverything(expected, rows, deployed, quote);
  }

  lemma SaysEverything(expected: seq<Row>, rows: seq<Row>, deployed: seq<Deployed>, quote: string -> string)
    requires SortedBy(rows, KindOf) && multiset(rows) == multiset(expected) && deployed != []
    ensures var diffs := Report(rows, deployed, quote);
            && (DistinctKinds(expected) ==> InTwoParts(diffs, expected, deployed, quote))
            && (forall i :: 0 <= i < |deployed| ==> RowReported(deployed, i, diffs, quote))
            && forall want :: want in expected ==> ExpectedReported(want, deployed, diffs, quote)
  {
    if DistinctKinds(expected) { ReportInTwoParts(expected, rows, deployed, quote); }
    forall i: nat | i < |deployed| ensures RowReported(deployed, i, Report(rows, deployed, quote), quote) {
      RowIsReported(deployed, rows, i, quote);
    }
    forall want | want in expected ensures ExpectedReported(want, deployed, Report(rows, deployed, quote), quote) {
      assert want in multiset(rows);
      ExpectedIsReported(rows, deployed, want, quote);
    }
  }

  /** The loop of apiEntityDiffs over the expected rows. */
  method CompareRows(rows: seq<Row>, byKind: map<string, Deployed>, quote: string -> string)
    returns (diffs: seq<string>)
    ensures diffs == Texts(ComparisonLines(byKind, rows), quote)
  {
    diffs := [];
    for i := 0 to |rows|
      invariant diffs == Texts(ComparisonLines(byKind, rows[..i]), quote)
    {
      var want := rows[i];
      ComparisonStep(byKind, rows[..i], want);
      assert rows[..i + 1] == rows[..i] + [want];
      TextsAppend(ComparisonLines(byKind, rows[..i]), RowLines(byKind, want), quote);
      if want.kind !in byKind {
        diffs := diffs + [Render(Missing(want.kind), quote)];
        continue;
      }
      var more := CompareFields(want, byKind[want.kind], ALL_FIELDS, quote);
      diffs := diffs + more;
    }
    assert rows[..|rows|] == rows;
  }

  /** The inner loop over the fields. */
  method CompareFields(want: Row, got: Deployed, fields: seq<Field>, quote: string -> string)
    returns (texts: seq<string>)
    ensures texts == Texts(FieldLines(want, got, fields), quote)
  {
    texts := [];
    for i := 0 to |fields|
      invariant texts == Texts(FieldLines(want, got, fields[..i]), quote)
    {
      var field := fields[i];
      ghost var before := FieldLines(want, got, fields[..i]);
      FieldStep(want, got, fields[..i], field);
      assert fields[..i + 1] == fields[..i] + [field];
      OneField(want, got, field);
      TextsAppend(before, FieldLines(want, got, [field]), quote);
      if Got(got, field) != Wanted(want, field) {
        texts := texts + [Render(Differs(want.kind, field, Got(got, field), Wanted(want, field)), quote)];
      }
    }
    assert fields[..|fields|] == fields;
  }
}
