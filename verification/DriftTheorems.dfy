/** The drift report is exact, and the same drift always gives the same report. */
module DriftTheorems {
  import opened Sequences
  import opened Text
  import opened Descriptor
  import opened Sorting
  import opened DriftLines

  // ---------------------------------------------------------------- the index

  function FirstOfKind(deployed: seq<Deployed>, kind: string): Option<Deployed> {
    if deployed == [] then None
    else if deployed[0].kind == kind then Some(deployed[0])
    else FirstOfKind(deployed[1..], kind)
  }

  lemma {:induction false} FirstOfKindAppend(deployed: seq<Deployed>, e: Deployed, kind: string)
    ensures FirstOfKind(deployed + [e], kind) ==
            if FirstOfKind(deployed, kind).Some? then FirstOfKind(deployed, kind)
            else if e.kind == kind then Some(e) else None
  {
    if deployed == [] {
      assert [e][1..] == [];
    } else {
      assert (deployed + [e])[1..] == deployed[1..] + [e];
      FirstOfKindAppend(deployed[1..], e, kind);
    }
  }

  /** What the comparison of an expected row finds: the first deployed row of its kind, unless the kind is blank. */
  function Match(deployed: seq<Deployed>, kind: string): Option<Deployed> {
    if Blank(kind) then None else FirstOfKind(deployed, kind)
  }

  lemma {:induction false} IndexFindsMatch(deployed: seq<Deployed>, kind: string)
    ensures var byKind := IndexAll(deployed).byKind;
            Match(deployed, kind) == if kind in byKind then Some(byKind[kind]) else None
  {
    if deployed != [] {
      var before, e := deployed[..|deployed| - 1], deployed[|deployed| - 1];
      assert deployed == before + [e];
      IndexFindsMatch(before, kind);
      FirstOfKindAppend(before, e, kind);
      IndexFindsMatch(before, e.kind);
    }
  }

  /** Every deployed row gives either one structural line or one usable plural. */
  lemma {:induction false} RowsAccountedFor(deployed: seq<Deployed>)
    ensures |IndexAll(deployed).structural| + |IndexAll(deployed).pluralKind| == |deployed|
  {
    if deployed != [] {
      RowsAccountedFor(deployed[..|deployed| - 1]);
    }
  }

  /** The kinds, and the plurals, of the rows that have one. */
  function NamedKinds(deployed: seq<Deployed>): set<string> {
    set e | e in deployed && !Blank(e.kind) :: e.kind
  }

  function NamedPlurals(deployed: seq<Deployed>): set<string> {
    set e | e in deployed && !Blank(e.kind) && !Blank(e.plural) :: TrimSpace(e.plural)
  }

  /** The i-th row carries this plural and has no structural line of its own. */
  ghost predicate Owner(deployed: seq<Deployed>, i: nat, plural: string)
    decreases i, 1
  {
    i < |deployed| && TrimSpace(deployed[i].plural) == plural && LineAt(deployed, i).None?
  }

  /** The structural line of the i-th row, said by looking back at the rows before it: a plural is taken when an
      earlier row owns it. */
  ghost function LineAt(deployed: seq<Deployed>, i: nat): Option<Line>
    requires i < |deployed|
    decreases i, 0
  {
    var e, plural := deployed[i], TrimSpace(deployed[i].plural);
    if Blank(e.kind) then Some(EntryWithoutKind)
    else if e.kind in NamedKinds(deployed[..i]) then Some(KindRepeated(e.kind))
    else if plural == "" then Some(PluralEmpty(e.kind))
    else if exists j: nat :: j < i && Owner(deployed, j, plural) then
      var j: nat :| j < i && Owner(deployed, j, plural);
      Some(PluralTaken(e.kind, plural, deployed[j].kind))
    else None
  }

  ghost function LinesUpTo(deployed: seq<Deployed>, n: nat): seq<Line>
    requires n <= |deployed|
  {
    if n == 0 then []
    else LinesUpTo(deployed, n - 1) + match LineAt(deployed, n - 1) case None => [] case Some(line) => [line]
  }

  /** The plurals recorded so far are those some row owns, each with its owner's kind. */
  ghost predicate RecordsOwners(pluralKind: map<string, string>, deployed: seq<Deployed>, n: nat)
    requires n <= |deployed|
  {
    && (forall p :: p in pluralKind ==> exists j: nat :: j < n && Owner(deployed, j, p))
    && (forall p, j: nat :: j < n && Owner(deployed, j, p) ==> p in pluralKind && pluralKind[p] == deployed[j].kind)
  }

  /** The structural lines are exactly those the rows call for, one row at a time. */
  lemma {:induction false} StructuralIsExact(deployed: seq<Deployed>, n: nat)
    requires n <= |deployed|
    ensures IndexAll(deployed[..n]).structural == LinesUpTo(deployed, n)
    ensures IndexAll(deployed[..n]).byKind.Keys == NamedKinds(deployed[..n])
    ensures RecordsOwners(IndexAll(deployed[..n]).pluralKind, deployed, n)
  {
    if n == 0 {
      assert deployed[..0] == [] && NamedKinds([]) == {};
    } else {
      StructuralIsExact(deployed, n - 1);
      assert deployed[..n][..n - 1] == deployed[..n - 1];
      assert IndexAll(deployed[..n]) == Add(IndexAll(deployed[..n - 1]), deployed[n - 1]);
      StructuralStep(IndexAll(deployed[..n - 1]), deployed, n - 1);
    }
  }

  lemma StructuralStep(index: Index, deployed: seq<Deployed>, n: nat)
    requires n < |deployed|
    requires index.byKind.Keys == NamedKinds(deployed[..n]) && RecordsOwners(index.pluralKind, deployed, n)
    ensures var next := Add(index, deployed[n]);
            && next.byKind.Keys == NamedKinds(deployed[..n + 1])
            && RecordsOwners(next.pluralKind, deployed, n + 1)
            && next.structural == index.structural + match LineAt(deployed, n) case None => [] case Some(line) => [line]
  {
    assert deployed[..n + 1] == deployed[..n] + [deployed[n]];
    NamesGrow(deployed[..n], deployed[n]);
    LineExplained(index, deployed, n);
    OwnersGrow(index, deployed, n);
    LineAdded(index, deployed[n]);
  }

  lemma LineAdded(index: Index, e: Deployed)
    ensures Add(index, e).structural ==
            index.structural + match NewLine(index, e) case None => [] case Some(line) => [line]
    ensures Add(index, e).byKind.Keys == index.byKind.Keys + if Blank(e.kind) then {} else {e.kind}
  {
  }

  function NewLine(index: Index, e: Deployed): Option<Line> {
    if Blank(e.kind) then Some(EntryWithoutKind)
    else if e.kind in index.byKind then Some(KindRepeated(e.kind))
    else if TrimSpace(e.plural) == "" then Some(PluralEmpty(e.kind))
    else if TrimSpace(e.plural) in index.pluralKind then
      Some(PluralTaken(e.kind, TrimSpace(e.plural), index.pluralKind[TrimSpace(e.plural)]))
    else None
  }

  lemma LineExplained(index: Index, deployed: seq<Deployed>, n: nat)
    requires n < |deployed|
    requires index.byKind.Keys == NamedKinds(deployed[..n]) && RecordsOwners(index.pluralKind, deployed, n)
    ensures LineAt(deployed, n) == NewLine(index, deployed[n])
  {
    var plural := TrimSpace(deployed[n].plural);
    assert plural in index.pluralKind <==> exists j: nat :: j < n && Owner(deployed, j, plural);
  }

  lemma OwnersGrow(index: Index, deployed: seq<Deployed>, n: nat)
    requires n < |deployed| && RecordsOwners(index.pluralKind, deployed, n)
    requires LineAt(deployed, n) == NewLine(index, deployed[n])
    ensures RecordsOwners(Add(index, deployed[n]).pluralKind, deployed, n + 1)
  {
    PluralAdded(index, deployed[n]);
    if LineAt(deployed, n).None? {
      NewOwner(index.pluralKind, deployed, n, TrimSpace(deployed[n].plural));
    } else {
      NoNewOwner(index.pluralKind, deployed, n);
    }
  }

  lemma PluralAdded(index: Index, e: Deployed)
    ensures NewLine(index, e).Some? ==> Add(index, e).pluralKind == index.pluralKind
    ensures NewLine(index, e).None? ==>
              && Add(index, e).pluralKind == index.pluralKind[TrimSpace(e.plural) := e.kind]
              && TrimSpace(e.plural) !in index.pluralKind
  {
  }

  lemma NoNewOwner(m: map<string, string>, deployed: seq<Deployed>, n: nat)
    requires n < |deployed| && RecordsOwners(m, deployed, n) && LineAt(deployed, n).Some?
    ensures RecordsOwners(m, deployed, n + 1)
  {
    assert forall p :: !Owner(deployed, n, p);
    assert forall p, j: nat :: j < n + 1 && Owner(deployed, j, p) ==> j < n;
  }

  lemma NewOwner(m: map<string, string>, deployed: seq<Deployed>, n: nat, plural: string)
    requires n < |deployed| && RecordsOwners(m, deployed, n)
    requires Owner(deployed, n, plural) && plural !in m
    ensures RecordsOwners(m[plural := deployed[n].kind], deployed, n + 1)
  {
    forall p, j: nat | j < n + 1 && Owner(deployed, j, p)
      ensures p in m[plural := deployed[n].kind] && m[plural := deployed[n].kind][p] == deployed[j].kind
    {
      if j < n { assert p in m; } else { assert p == plural; }
    }
  }

  lemma NamesGrow(before: seq<Deployed>, e: Deployed)
    ensures NamedKinds(before + [e]) == NamedKinds(before) + if Blank(e.kind) then {} else {e.kind}
    ensures NamedPlurals(before + [e])
            == NamedPlurals(before) + if Blank(e.kind) || Blank(e.plural) then {} else {TrimSpace(e.plural)}
  {
    assert forall x :: x in before + [e] <==> x in before || x == e;
  }

  // ---------------------------------------------------------------- when the report is empty

  /** Rows the comparison can use as they are. */
  ghost predicate Usable(deployed: seq<Deployed>) {
    && (forall i :: 0 <= i < |deployed| ==> !Blank(deployed[i].kind) && !Blank(deployed[i].plural))
    && (forall i, j :: 0 <= i < j < |deployed| ==>
          deployed[i].kind != deployed[j].kind && TrimSpace(deployed[i].plural) != TrimSpace(deployed[j].plural))
  }

  function KindSet(deployed: seq<Deployed>): set<string> { set e | e in deployed :: e.kind }

  function PluralSet(deployed: seq<Deployed>): set<string> { set e | e in deployed :: TrimSpace(e.plural) }

  lemma {:induction false} StructuralEmptyIff(deployed: seq<Deployed>)
    ensures IndexAll(deployed).structural == [] <==> Usable(deployed)
    ensures Usable(deployed) ==>
              IndexAll(deployed).byKind.Keys == KindSet(deployed)
              && IndexAll(deployed).pluralKind.Keys == PluralSet(deployed)
  {
    if deployed != [] {
      var before, e := deployed[..|deployed| - 1], deployed[|deployed| - 1];
      assert deployed == before + [e];
      StructuralEmptyIff(before);
      UsableAppend(before, e);
      assert KindSet(deployed) == KindSet(before) + {e.kind};
      assert PluralSet(deployed) == PluralSet(before) + {TrimSpace(e.plural)};
    }
  }

  lemma UsableAppend(before: seq<Deployed>, e: Deployed)
    ensures Usable(before + [e]) <==>
            && Usable(before) && !Blank(e.kind) && !Blank(e.plural)
            && e.kind !in KindSet(before) && TrimSpace(e.plural) !in PluralSet(before)
  {
    var deployed := before + [e];
    assert forall i :: 0 <= i < |before| ==> deployed[i] == before[i] && before[i] in before;
    assert deployed[|before|] == e;
  }

  ghost predicate Agrees(want: Row, got: Deployed) {
    got.plural == want.plural && got.parentKind == want.parentKind && got.onParentDelete == want.onParentDelete
  }

  lemma {:induction false} RowLinesEmptyIff(deployed: seq<Deployed>, want: Row)
    ensures RowLines(IndexAll(deployed).byKind, want) == [] <==>
            Match(deployed, want.kind).Some? && Agrees(want, Match(deployed, want.kind).value)
  {
    IndexFindsMatch(deployed, want.kind);
    var byKind := IndexAll(deployed).byKind;
    if want.kind in byKind {
      FieldLinesEmptyIff(want, byKind[want.kind]);
    }
  }

  lemma {:induction false} FieldLinesEmptyIff(want: Row, got: Deployed)
    ensures FieldLines(want, got, ALL_FIELDS) == [] <==> Agrees(want, got)
  {
    AllFieldLines(want, got);
  }

  function FieldLine(want: Row, got: Deployed, f: Field): seq<Line> {
    if Got(got, f) != Wanted(want, f) then [Differs(want.kind, f, Got(got, f), Wanted(want, f))] else []
  }

  lemma {:induction false} AllFieldLines(want: Row, got: Deployed)
    ensures FieldLines(want, got, ALL_FIELDS)
            == FieldLine(want, got, Plural) + FieldLine(want, got, ParentKind) + FieldLine(want, got, OnParentDelete)
  {
    assert ALL_FIELDS[1..] == [ParentKind, OnParentDelete];
    assert [ParentKind, OnParentDelete][1..] == [OnParentDelete];
    assert [OnParentDelete][1..] == [];
    assert FieldLines(want, got, [OnParentDelete]) == FieldLine(want, got, OnParentDelete) + [];
    assert FieldLines(want, got, [ParentKind, OnParentDelete])
        == FieldLine(want, got, ParentKind) + FieldLine(want, got, OnParentDelete);
  }

  /** There is no drift exactly when the deployed rows are non-empty, with non-blank, distinct kinds and plurals, and
      the deployed match of every expected row agrees with it on all three fields. */
  lemma {:induction false} ReportEmptyIff(rows: seq<Row>, deployed: seq<Deployed>, quote: string -> string)
    ensures Report(rows, deployed, quote) == [] <==>
            && deployed != []
            && Usable(deployed)
            && forall want :: want in rows ==>
                 Match(deployed, want.kind).Some? && Agrees(want, Match(deployed, want.kind).value)
  {
    if deployed != [] {
      var index := IndexAll(deployed);
      StructuralEmptyIff(deployed);
      SortKeepsLength(Texts(index.structural, quote));
      ComparisonEmptyIff(deployed, rows);
    }
  }

  lemma SortKeepsLength(texts: seq<string>)
    ensures |Sort(texts, Itself)| == |texts|
  {
    assert |multiset(Sort(texts, Itself))| == |multiset(texts)|;
  }

  lemma {:induction false} ComparisonEmptyIff(deployed: seq<Deployed>, rows: seq<Row>)
    ensures ComparisonLines(IndexAll(deployed).byKind, rows) == [] <==>
            forall want :: want in rows ==>
              Match(deployed, want.kind).Some? && Agrees(want, Match(deployed, want.kind).value)
  {
    if rows != [] {
      var last := |rows| - 1;
      ComparisonEmptyIff(deployed, rows[..last]);
      ComparisonStep(IndexAll(deployed).byKind, rows[..last], rows[last]);
      RowLinesEmptyIff(deployed, rows[last]);
      assert rows == rows[..last] + [rows[last]];
    }
  }

  // ---------------------------------------------------------------- what the comparison reports

  /** The lines an expected row calls for. */
  predicate CalledFor(deployed: seq<Deployed>, want: Row, line: Line) {
    match line
    case Missing(kind) => kind == want.kind && Match(deployed, kind).None?
    case Differs(kind, field, got, wanted) =>
      && kind == want.kind && Match(deployed, kind).Some? && got != wanted
      && got == Got(Match(deployed, kind).value, field) && wanted == Wanted(want, field)
    case _ => false
  }

  lemma {:induction false} RowLinesCalledFor(deployed: seq<Deployed>, want: Row, line: Line)
    ensures line in RowLines(IndexAll(deployed).byKind, want) <==> CalledFor(deployed, want, line)
  {
    IndexFindsMatch(deployed, want.kind);
    var byKind := IndexAll(deployed).byKind;
    if want.kind in byKind {
      FieldLinesMembers(want, byKind[want.kind], line);
    }
  }

  lemma {:induction false} FieldLinesMembers(want: Row, got: Deployed, line: Line)
    ensures line in FieldLines(want, got, ALL_FIELDS) <==>
            line.Differs? && line in FieldLine(want, got, line.field)
  {
    AllFieldLines(want, got);
  }

  function FieldRank(f: Field): nat {
    match f case Plural => 0 case ParentKind => 1 case OnParentDelete => 2
  }

  /** The order of the comparison lines: by kind, then by field. */
  predicate Precedes(a: Line, b: Line) {
    && (a.Missing? || a.Differs?) && (b.Missing? || b.Differs?)
    && (|| Before(a.kind, b.kind)
        || (a.Differs? && b.Differs? && a.kind == b.kind && FieldRank(a.field) < FieldRank(b.field)))
  }

  ghost predicate InOrder(lines: seq<Line>) {
    forall i, j :: 0 <= i < j < |lines| ==> Precedes(lines[i], lines[j])
  }

  ghost predicate DistinctKinds(rows: seq<Row>) {
    forall i, j :: 0 <= i < j < |rows| ==> rows[i].kind != rows[j].kind
  }

  lemma {:induction false} RowLinesInOrder(deployed: seq<Deployed>, want: Row)
    ensures InOrder(RowLines(IndexAll(deployed).byKind, want))
    ensures forall line :: line in RowLines(IndexAll(deployed).byKind, want) ==>
              (line.Missing? || line.Differs?) && line.kind == want.kind
  {
    var byKind := IndexAll(deployed).byKind;
    if want.kind in byKind {
      FieldLinesInOrder(want, byKind[want.kind]);
    }
  }

  lemma {:induction false} FieldLinesInOrder(want: Row, got: Deployed)
    ensures InOrder(FieldLines(want, got, ALL_FIELDS))
    ensures forall line :: line in FieldLines(want, got, ALL_FIELDS) ==> line.Differs? && line.kind == want.kind
  {
    AllFieldLines(want, got);
    var a, b, c := FieldLine(want, got, Plural), FieldLine(want, got, ParentKind), FieldLine(want, got, OnParentDelete);
    OrderedTogether(a, b);
    OrderedTogether(a + b, c);
  }

  lemma OrderedTogether(some: seq<Line>, more: seq<Line>)
    requires InOrder(some) && InOrder(more) && forall a, b :: a in some && b in more ==> Precedes(a, b)
    ensures InOrder(some + more)
  {
    forall i, j | 0 <= i < j < |some + more| ensures Precedes((some + more)[i], (some + more)[j]) {
      if i < |some| <= j { assert some[i] in some && more[j - |some|] in more; }
    }
  }

  /** Each missing kind and each differing field of a kind has one line, and the lines follow kind order and then
      field order; nothing else is reported. */
  lemma {:induction false} ComparisonIsExact(deployed: seq<Deployed>, rows: seq<Row>)
    requires SortedBy(rows, KindOf) && DistinctKinds(rows)
    ensures InOrder(ComparisonLines(IndexAll(deployed).byKind, rows))
    ensures forall line :: line in ComparisonLines(IndexAll(deployed).byKind, rows) <==>
                           exists want :: want in rows && CalledFor(deployed, want, line)
  {
    var byKind := IndexAll(deployed).byKind;
    if rows != [] {
      var n := |rows| - 1;
      var before, last := rows[..n], rows[n];
      assert rows == before + [last];
      ComparisonIsExact(deployed, before);
      ComparisonStep(byKind, before, last);
      RowLinesInOrder(deployed, last);
      var head, tail := ComparisonLines(byKind, before), RowLines(byKind, last);
      forall a, b | a in head && b in tail ensures Precedes(a, b) {
        var want :| want in before && CalledFor(deployed, want, a);
        var i :| 0 <= i < n && rows[i] == want;
        assert AtMost(KindOf(rows[i]), KindOf(rows[n]));
      }
      OrderedTogether(head, tail);
      forall line ensures line in head + tail <==> exists want :: want in rows && CalledFor(deployed, want, line) {
        RowLinesCalledFor(deployed, last, line);
        assert last in rows;
      }
    }
  }

  lemma LinesInOrderAreDistinct(lines: seq<Line>, i: nat, j: nat)
    requires InOrder(lines) && i < j < |lines|
    ensures lines[i] != lines[j]
  {
    assert Precedes(lines[i], lines[j]);
    if lines[i] == lines[j] { BeforeIrreflexive(lines[i].kind); }
  }

  // ---------------------------------------------------------------- independence of row order

  /** The order of the expected rows does not matter, nor which of the sorted orders an unstable sort gives, as long
      as a kind does not have two different rows. */
  lemma {:induction false} ExpectedOrderIrrelevant(expected: seq<Row>, expected': seq<Row>, rows: seq<Row>,
                                                   rows': seq<Row>, deployed: seq<Deployed>, quote: string -> string)
    requires multiset(expected) == multiset(expected')
    requires OneRowAKind(expected)
    requires SortedBy(rows, KindOf) && multiset(rows) == multiset(expected)
    requires SortedBy(rows', KindOf) && multiset(rows') == multiset(expected')
    ensures Report(rows, deployed, quote) == Report(rows', deployed, quote)
  {
    SortedRowsAreUnique(expected, rows);
    SortedRowsAreUnique(expected, rows');
  }

  /** The order of the deployed rows does matter when two share a kind: of the two, the comparison uses the first. */
  lemma {:induction false} RepeatedKindOrderMatters(want: Row, good: Deployed, bad: Deployed, quote: string -> string)
    requires good.kind == bad.kind == want.kind && !Blank(want.kind)
    requires !Blank(good.plural) && !Blank(bad.plural)
    requires Agrees(want, good) && !Agrees(want, bad)
    ensures Report([want], [good, bad], quote) != Report([want], [bad, good], quote)
  {
    RepeatedKindReport(want, good, bad, quote);
    RepeatedKindReport(want, bad, good, quote);
    FieldLinesEmptyIff(want, good);
    FieldLinesEmptyIff(want, bad);
  }

  lemma {:induction false} RepeatedKindReport(want: Row, first: Deployed, second: Deployed, quote: string -> string)
    requires first.kind == second.kind == want.kind && !Blank(want.kind) && !Blank(first.plural)
    ensures |Report([want], [first, second], quote)| == 1 + |FieldLines(want, first, ALL_FIELDS)|
  {
    var deployed := [first, second];
    assert deployed[..1] == [first] && [first][..0] == [];
    assert IndexAll([first]) == Add(IndexAll([]), first);
    var index := IndexAll(deployed);
    assert index == Add(IndexAll([first]), second);
    assert |index.structural| == 1 && index.byKind[want.kind] == first;
    SortKeepsLength(Texts(index.structural, quote));
    ComparisonStep(index.byKind, [], want);
    assert [] + [want] == [want];
  }
}
