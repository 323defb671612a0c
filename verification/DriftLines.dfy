/** The lines of the drift report: what the deployed API's entity configuration, and the expected descriptor rows
    compared with it, give rise to. */
module DriftLines {
  import opened Sequences
  import opened Text
  import opened Descriptor
  import opened Sorting

  datatype Deployed = Deployed(kind: string, plural: string, parentKind: string, onParentDelete: string)

  datatype Field = Plural | ParentKind | OnParentDelete

  datatype Line =
    | NoEntities
    | EntryWithoutKind
    | KindRepeated(kind: string)
    | PluralEmpty(kind: string)
    | PluralTaken(kind: string, plural: string, other: string)
    | Missing(kind: string)
    | Differs(kind: string, field: Field, got: string, want: string)

  function FieldName(f: Field): string {
    match f
    case Plural => "plural"
    case ParentKind => "parent_kind"
    case OnParentDelete => "on_parent_delete"
  }

  /** The text of a line; "quote" is the %q verb. */
  function Render(line: Line, quote: string -> string): string {
    match line
    case NoEntities => "config.entities is missing or empty in the deployed Helm values"
    case EntryWithoutKind => "config.entities has an entry without a kind"
    case KindRepeated(kind) => kind + ": duplicate kind in config.entities"
    case PluralEmpty(kind) => kind + ": plural is empty in config.entities"
    case PluralTaken(kind, plural, other) => kind + ": plural " + quote(plural) + " is already used by kind " + other
    case Missing(kind) => kind + ": missing from config.entities"
    case Differs(kind, field, got, want) =>
      kind + ": " + FieldName(field) + ": deployed " + quote(got) + ", expected " + quote(want)
  }

  // ---------------------------------------------------------------- indexing the deployed rows

  /** The three things structuralEntityDiffs updates as it goes. */
  datatype Index = Index(structural: seq<Line>, byKind: map<string, Deployed>, pluralKind: map<string, string>)

  function Add(index: Index, e: Deployed): Index {
    if Blank(e.kind) then index.(structural := index.structural + [EntryWithoutKind])
    else if e.kind in index.byKind then index.(structural := index.structural + [KindRepeated(e.kind)])
    else
      var next := index.(byKind := index.byKind[e.kind := e]);
      var plural := TrimSpace(e.plural);
      if plural == "" then next.(structural := next.structural + [PluralEmpty(e.kind)])
      else if plural in next.pluralKind then
        next.(structural := next.structural + [PluralTaken(e.kind, plural, next.pluralKind[plural])])
      else next.(pluralKind := next.pluralKind[plural := e.kind])
  }

  function IndexAll(deployed: seq<Deployed>): Index {
    if deployed == [] then Index([], map[], map[])
    else Add(IndexAll(deployed[..|deployed| - 1]), deployed[|deployed| - 1])
  }

  // ---------------------------------------------------------------- comparing the expected rows

  function Wanted(e: Row, f: Field): string {
    match f case Plural => e.plural case ParentKind => e.parentKind case OnParentDelete => e.onParentDelete
  }

  function Got(e: Deployed, f: Field): string {
    match f case Plural => e.plural case ParentKind => e.parentKind case OnParentDelete => e.onParentDelete
  }

  const ALL_FIELDS := [Plural, ParentKind, OnParentDelete]

  function FieldLines(want: Row, got: Deployed, fields: seq<Field>): seq<Line> {
    if fields == [] then []
    else
      (if Got(got, fields[0]) != Wanted(want, fields[0])
       then [Differs(want.kind, fields[0], Got(got, fields[0]), Wanted(want, fields[0]))] else [])
      + FieldLines(want, got, fields[1..])
  }

  function RowLines(byKind: map<string, Deployed>, want: Row): seq<Line> {
    if want.kind in byKind then FieldLines(want, byKind[want.kind], ALL_FIELDS) else [Missing(want.kind)]
  }

  function ComparisonLines(byKind: map<string, Deployed>, rows: seq<Row>): seq<Line> {
    FlatMap((want: Row) => RowLines(byKind, want), rows)
  }

  function Texts(lines: seq<Line>, quote: string -> string): (texts: seq<string>)
    ensures |texts| == |lines|
  {
    seq(|lines|, i requires 0 <= i < |lines| => Render(lines[i], quote))
  }

  function KindOf(e: Row): string { e.kind }

  /** The report for expected rows already in kind order. */
  function Report(rows: seq<Row>, deployed: seq<Deployed>, quote: string -> string): seq<string> {
    if deployed == [] then [Render(NoEntities, quote)]
    else
      var index := IndexAll(deployed);
      Sort(Texts(index.structural, quote), Itself) + Texts(ComparisonLines(index.byKind, rows), quote)
  }

  ghost predicate OneRowAKind(rows: seq<Row>) {
    forall e, f :: e in rows && f in rows && e.kind == f.kind ==> e == f
  }

  lemma SortedRowsAreUnique(expected: seq<Row>, rows: seq<Row>)
    requires SortedBy(rows, KindOf) && multiset(rows) == multiset(expected)
    ensures OneRowAKind(expected) ==> rows == Sort(expected, KindOf)
  {
    if OneRowAKind(expected) {
      forall e, f | e in rows && f in rows && KindOf(e) == KindOf(f) ensures e == f {
        assert e in multiset(rows) && f in multiset(rows);
        assert e in multiset(expected) && f in multiset(expected);
      }
      SortedOrderIsUnique(rows, Sort(expected, KindOf), KindOf);
    }
  }

  lemma {:induction false} OneField(want: Row, got: Deployed, field: Field)
    ensures FieldLines(want, got, [field]) ==
            if Got(got, field) != Wanted(want, field)
            then [Differs(want.kind, field, Got(got, field), Wanted(want, field))] else []
  {
    assert [field][1..] == [];
  }

  lemma TextsAppend(lines: seq<Line>, more: seq<Line>, quote: string -> string)
    ensures Texts(lines + more, quote) == Texts(lines, quote) + Texts(more, quote)
  {
  }

  lemma {:induction false} FieldStep(want: Row, got: Deployed, fields: seq<Field>, field: Field)
    ensures FieldLines(want, got, fields + [field]) == FieldLines(want, got, fields) + FieldLines(want, got, [field])
  {
    if fields == [] {
      assert fields + [field] == [field];
    } else {
      assert (fields + [field])[1..] == fields[1..] + [field];
      FieldStep(want, got, fields[1..], field);
    }
  }

  lemma {:induction false} ComparisonStep(byKind: map<string, Deployed>, rows: seq<Row>, want: Row)
    ensures ComparisonLines(byKind, rows + [want]) == ComparisonLines(byKind, rows) + RowLines(byKind, want)
  {
    var f := (want: Row) => RowLines(byKind, want);
    FlatMapAppend(f, rows, [want]);
    assert FlatMap(f, [want]) == RowLines(byKind, want) + [];
  }
}
