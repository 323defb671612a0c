/** When the order of the deployed rows does not change the drift report: exactly. */
module DriftOrder {
  import opened Sequences
  import opened Text
  import opened Descriptor
  import opened Sorting
  import opened DriftLines
  import opened DriftTheorems

  predicate Expected(rows: seq<Row>, kind: string) {
    exists want :: want in rows && want.kind == kind
  }

  /** Two different rows of one kind, which is not expected then, both have a plural or both have none. */
  ghost predicate KindsUnambiguous(rows: seq<Row>, deployed: seq<Deployed>) {
    forall x, y :: x in deployed && y in deployed && x != y && x.kind == y.kind && !Blank(x.kind) ==>
      !Expected(rows, x.kind) && (Blank(x.plural) <==> Blank(y.plural))
  }

  ghost predicate SharePlural(x: Deployed, y: Deployed) {
    && !Blank(x.kind) && !Blank(y.kind) && x.kind != y.kind
    && !Blank(x.plural) && TrimSpace(x.plural) == TrimSpace(y.plural)
  }

  /** No two kinds share a plural. */
  ghost predicate PluralsUnambiguous(deployed: seq<Deployed>) {
    forall x, y :: x in deployed && y in deployed ==> !SharePlural(x, y)
  }

  ghost predicate SameMultiset<T>(a: seq<T>, b: seq<T>) {
    multiset(a) == multiset(b)
  }

  /** Every order of the deployed rows gives the same structural lines, each as often, and the same comparison. */
  ghost predicate OrderFree(rows: seq<Row>, deployed: seq<Deployed>) {
    forall shuffled :: SameMultiset(shuffled, deployed) ==>
      SameMultiset(IndexAll(shuffled).structural, IndexAll(deployed).structural)
      && ComparisonLines(IndexAll(shuffled).byKind, rows) == ComparisonLines(IndexAll(deployed).byKind, rows)
  }

  // ---------------------------------------------------------------- enough

  function WithKind(kind: string): Deployed -> seq<Deployed> {
    (e: Deployed) => if e.kind == kind then [e] else []
  }

  function WithoutKind(e: Deployed): seq<Deployed> {
    if Blank(e.kind) then [e] else []
  }

  function KindCount(deployed: seq<Deployed>, kind: string): nat {
    |FlatMap(WithKind(kind), deployed)|
  }

  /** The kinds some row of which has no plural. */
  function UnnamedKinds(deployed: seq<Deployed>): set<string> {
    set e | e in deployed && !Blank(e.kind) && Blank(e.plural) :: e.kind
  }

  /** How often a structural line is reported, when plurals are unambiguous. */
  function LineCount(deployed: seq<Deployed>, line: Line): int {
    match line
    case EntryWithoutKind => |FlatMap(WithoutKind, deployed)|
    case KindRepeated(kind) => if kind in NamedKinds(deployed) then KindCount(deployed, kind) - 1 else 0
    case PluralEmpty(kind) => if kind in UnnamedKinds(deployed) then 1 else 0
    case _ => 0
  }

  ghost predicate Counted(lines: seq<Line>, deployed: seq<Deployed>) {
    forall line :: multiset(lines)[line] == LineCount(deployed, line)
  }

  ghost predicate Recorded(index: Index, deployed: seq<Deployed>) {
    && index.byKind.Keys == NamedKinds(deployed)
    && index.pluralKind.Keys <= NamedPlurals(deployed)
  }

  lemma {:induction false} UnnamedGrow(before: seq<Deployed>, e: Deployed)
    ensures UnnamedKinds(before + [e])
            == UnnamedKinds(before) + if !Blank(e.kind) && Blank(e.plural) then {e.kind} else {}
    ensures UnnamedKinds(before) <= NamedKinds(before)
  {
    assert forall x :: x in before + [e] <==> x in before || x == e;
  }

  lemma {:induction false} CountsGrow(before: seq<Deployed>, e: Deployed, kind: string)
    ensures KindCount(before + [e], kind) == KindCount(before, kind) + if e.kind == kind then 1 else 0
    ensures |FlatMap(WithoutKind, before + [e])| == |FlatMap(WithoutKind, before)| + if Blank(e.kind) then 1 else 0
  {
    FlatMapAppend(WithKind(kind), before, [e]);
    FlatMapOne(WithKind(kind), e);
    FlatMapAppend(WithoutKind, before, [e]);
    FlatMapOne(WithoutKind, e);
  }

  lemma {:induction false} NoneOfKind(deployed: seq<Deployed>, kind: string)
    requires !Blank(kind) && kind !in NamedKinds(deployed)
    ensures KindCount(deployed, kind) == 0
  {
    if deployed != [] {
      var n := |deployed| - 1;
      assert deployed == deployed[..n] + [deployed[n]];
      NamesGrow(deployed[..n], deployed[n]);
      NoneOfKind(deployed[..n], kind);
      CountsGrow(deployed[..n], deployed[n], kind);
    }
  }

  /** The line a row adds, told by the rows before it as a set. */
  function AddedLine(before: seq<Deployed>, e: Deployed): Option<Line> {
    if Blank(e.kind) then Some(EntryWithoutKind)
    else if e.kind in NamedKinds(before) then Some(KindRepeated(e.kind))
    else if Blank(e.plural) then Some(PluralEmpty(e.kind))
    else None
  }

  lemma {:induction false} UnambiguousBefore(rows: seq<Row>, before: seq<Deployed>, e: Deployed)
    requires KindsUnambiguous(rows, before + [e]) && PluralsUnambiguous(before + [e])
    ensures KindsUnambiguous(rows, before) && PluralsUnambiguous(before)
    ensures forall x :: x in before ==> !SharePlural(x, e)
    ensures forall x :: x in before && !Blank(e.kind) && x.kind == e.kind ==> (Blank(x.plural) <==> Blank(e.plural))
  {
    assert forall x :: x in before + [e] <==> x in before || x == e;
  }

  lemma {:induction false} LineTold(index: Index, before: seq<Deployed>, e: Deployed)
    requires Recorded(index, before) && forall x :: x in before ==> !SharePlural(x, e)
    ensures NewLine(index, e) == AddedLine(before, e)
  {
    if !Blank(e.kind) && e.kind !in NamedKinds(before) && !Blank(e.plural) {
      PluralIsNew(before, e);
    }
  }

  lemma {:induction false} PluralIsNew(before: seq<Deployed>, e: Deployed)
    requires !Blank(e.kind) && e.kind !in NamedKinds(before) && !Blank(e.plural)
    requires forall x :: x in before ==> !SharePlural(x, e)
    ensures TrimSpace(e.plural) !in NamedPlurals(before)
  {
    forall x | x in before && !Blank(x.kind) && !Blank(x.plural) ensures TrimSpace(x.plural) != TrimSpace(e.plural) {
      assert !SharePlural(x, e) && x.kind in NamedKinds(before);
    }
  }

  lemma {:induction false} CountStep(before: seq<Deployed>, e: Deployed, line: Line)
    requires forall x :: x in before && !Blank(e.kind) && x.kind == e.kind ==> (Blank(x.plural) <==> Blank(e.plural))
    ensures LineCount(before + [e], line)
            == LineCount(before, line) + if AddedLine(before, e) == Some(line) then 1 else 0
  {
    NamesGrow(before, e);
    UnnamedGrow(before, e);
    match line
    case KindRepeated(kind) =>
      CountsGrow(before, e, kind);
      if !Blank(kind) && kind !in NamedKinds(before) { NoneOfKind(before, kind); }
    case EntryWithoutKind => CountsGrow(before, e, "");
    case PluralEmpty(kind) =>
      if e.kind == kind && kind in NamedKinds(before) && Blank(e.plural) {
        var x :| x in before && !Blank(x.kind) && x.kind == kind;
        assert Blank(x.plural);
      }
    case _ =>
  }

  lemma {:induction false} RecordedStep(index: Index, before: seq<Deployed>, e: Deployed)
    requires Recorded(index, before)
    ensures Recorded(Add(index, e), before + [e])
  {
    NamesGrow(before, e);
    LineAdded(index, e);
    PluralAdded(index, e);
  }

  /** With unambiguous rows each structural line is reported as often as the rows, in any order, call for. */
  lemma {:induction false} LinesCounted(rows: seq<Row>, deployed: seq<Deployed>)
    requires KindsUnambiguous(rows, deployed) && PluralsUnambiguous(deployed)
    ensures Counted(IndexAll(deployed).structural, deployed) && Recorded(IndexAll(deployed), deployed)
  {
    if deployed == [] {
      assert IndexAll(deployed).structural == [];
    } else {
      var before, e := deployed[..|deployed| - 1], deployed[|deployed| - 1];
      assert deployed == before + [e];
      UnambiguousBefore(rows, before, e);
      LinesCounted(rows, before);
      RecordedStep(IndexAll(before), before, e);
      LineTold(IndexAll(before), before, e);
      LineAdded(IndexAll(before), e);
      CountedStep(IndexAll(before).structural, before, e, IndexAll(deployed).structural);
    }
  }

  lemma {:induction false} CountedStep(lines: seq<Line>, before: seq<Deployed>, e: Deployed, lines': seq<Line>)
    requires Counted(lines, before)
    requires lines' == lines + match AddedLine(before, e) case None => [] case Some(line) => [line]
    requires forall x :: x in before && !Blank(e.kind) && x.kind == e.kind ==> (Blank(x.plural) <==> Blank(e.plural))
    ensures Counted(lines', before + [e])
  {
    forall line ensures multiset(lines')[line] == LineCount(before + [e], line) {
      CountStep(before, e, line);
    }
  }

  lemma {:induction false} SameMembers(a: seq<Deployed>, b: seq<Deployed>)
    requires SameMultiset(a, b)
    ensures forall x :: x in a <==> x in b
    ensures NamedKinds(a) == NamedKinds(b) && UnnamedKinds(a) == UnnamedKinds(b)
  {
    forall x ensures x in a <==> x in b {
      assert x in a <==> x in multiset(a);
      assert x in b <==> x in multiset(b);
    }
  }

  lemma {:induction false} CountIgnoresOrder(a: seq<Deployed>, b: seq<Deployed>, line: Line)
    requires SameMultiset(a, b)
    ensures LineCount(a, line) == LineCount(b, line)
  {
    SameMembers(a, b);
    FlatMapPermuted(WithoutKind, a, b);
    assert |multiset(FlatMap(WithoutKind, a))| == |multiset(FlatMap(WithoutKind, b))|;
    if line.KindRepeated? {
      FlatMapPermuted(WithKind(line.kind), a, b);
      assert |multiset(FlatMap(WithKind(line.kind), a))| == |multiset(FlatMap(WithKind(line.kind), b))|;
    }
  }

  lemma {:induction false} SameStructure(rows: seq<Row>, a: seq<Deployed>, b: seq<Deployed>)
    requires SameMultiset(a, b)
    requires KindsUnambiguous(rows, a) && PluralsUnambiguous(a)
    ensures SameMultiset(IndexAll(a).structural, IndexAll(b).structural)
  {
    SameMembers(a, b);
    LinesCounted(rows, a);
    LinesCounted(rows, b);
    var m, n := multiset(IndexAll(a).structural), multiset(IndexAll(b).structural);
    forall line ensures m[line] == n[line] {
      CountIgnoresOrder(a, b, line);
    }
    assert m == n;
  }

  lemma {:induction false} FoundInDeployed(deployed: seq<Deployed>, kind: string)
    ensures FirstOfKind(deployed, kind).Some? ==>
              FirstOfKind(deployed, kind).value in deployed && FirstOfKind(deployed, kind).value.kind == kind
    ensures FirstOfKind(deployed, kind).None? <==> forall e :: e in deployed ==> e.kind != kind
  {
    if deployed != [] {
      FoundInDeployed(deployed[1..], kind);
      assert deployed == [deployed[0]] + deployed[1..];
    }
  }

  lemma {:induction false} SameMatch(rows: seq<Row>, a: seq<Deployed>, b: seq<Deployed>, want: Row)
    requires SameMultiset(a, b) && KindsUnambiguous(rows, a) && want in rows
    ensures Match(a, want.kind) == Match(b, want.kind)
  {
    SameMembers(a, b);
    FoundInDeployed(a, want.kind);
    FoundInDeployed(b, want.kind);
    assert Expected(rows, want.kind);
  }

  lemma {:induction false} SameComparison(all: seq<Row>, rows: seq<Row>, a: seq<Deployed>, b: seq<Deployed>)
    requires SameMultiset(a, b) && KindsUnambiguous(all, a)
    requires forall i :: 0 <= i < |rows| ==> rows[i] in all
    ensures ComparisonLines(IndexAll(a).byKind, rows) == ComparisonLines(IndexAll(b).byKind, rows)
  {
    if rows == [] {
      assert ComparisonLines(IndexAll(a).byKind, rows) == [];
    } else {
      var n := |rows| - 1;
      SameComparison(all, rows[..n], a, b);
      SameMatch(all, a, b, rows[n]);
      IndexFindsMatch(a, rows[n].kind);
      IndexFindsMatch(b, rows[n].kind);
      assert rows == rows[..n] + [rows[n]];
      ComparisonStep(IndexAll(a).byKind, rows[..n], rows[n]);
      ComparisonStep(IndexAll(b).byKind, rows[..n], rows[n]);
    }
  }

  lemma {:induction false} UnambiguousIsOrderFree(rows: seq<Row>, deployed: seq<Deployed>)
    requires KindsUnambiguous(rows, deployed) && PluralsUnambiguous(deployed)
    ensures OrderFree(rows, deployed)
  {
    forall shuffled | SameMultiset(shuffled, deployed)
      ensures SameMultiset(IndexAll(shuffled).structural, IndexAll(deployed).structural)
      ensures ComparisonLines(IndexAll(shuffled).byKind, rows) == ComparisonLines(IndexAll(deployed).byKind, rows)
    {
      SameStructure(rows, deployed, shuffled);
      SameComparison(rows, rows, deployed, shuffled);
    }
  }

  // ---------------------------------------------------------------- and needed

  /** What the index says of a plural or a line, the rest of the rows do not unsay. */
  lemma {:induction false} LineStays(before: seq<Deployed>, more: seq<Deployed>, line: Line)
    requires line in IndexAll(before).structural
    ensures line in IndexAll(before + more).structural
  {
    if more == [] {
      assert before + more == before;
    } else {
      var n := |more| - 1;
      var longer, all := before + more[..n], before + more;
      LineStays(before, more[..n], line);
      assert all[..|all| - 1] == longer && all[|all| - 1] == more[n];
      LineAdded(IndexAll(longer), more[n]);
    }
  }

  lemma {:induction false} OwnerStays(before: seq<Deployed>, more: seq<Deployed>, plural: string)
    requires plural in IndexAll(before).pluralKind
    ensures plural in IndexAll(before + more).pluralKind
    ensures IndexAll(before + more).pluralKind[plural] == IndexAll(before).pluralKind[plural]
  {
    if more == [] {
      assert before + more == before;
    } else {
      var n := |more| - 1;
      var longer, all := before + more[..n], before + more;
      OwnerStays(before, more[..n], plural);
      assert all[..|all| - 1] == longer && all[|all| - 1] == more[n];
      PluralAdded(IndexAll(longer), more[n]);
    }
  }

  /** A line about a plural names the kind that has it. */
  lemma {:induction false} TakenNamesOwner(deployed: seq<Deployed>, line: Line)
    requires line in IndexAll(deployed).structural && line.PluralTaken?
    ensures var owners := IndexAll(deployed).pluralKind; line.plural in owners && owners[line.plural] == line.other
  {
    var n := |deployed| - 1;
    var before, e := deployed[..n], deployed[n];
    LineAdded(IndexAll(before), e);
    PluralAdded(IndexAll(before), e);
    if line in IndexAll(before).structural {
      TakenNamesOwner(before, line);
    }
  }

  /** A line about a missing plural is about the first row of its kind. */
  lemma {:induction false} EmptyIsFirst(deployed: seq<Deployed>, kind: string)
    requires !Blank(kind)
    ensures PluralEmpty(kind) in IndexAll(deployed).structural <==>
            FirstOfKind(deployed, kind).Some? && Blank(FirstOfKind(deployed, kind).value.plural)
  {
    if deployed == [] {
      assert IndexAll(deployed).structural == [];
    } else {
      var n := |deployed| - 1;
      var before, e := deployed[..n], deployed[n];
      assert deployed == before + [e];
      EmptyIsFirst(before, kind);
      FirstOfKindAppend(before, e, kind);
      IndexFindsMatch(before, e.kind);
      LineAdded(IndexAll(before), e);
      assert PluralEmpty(kind) in IndexAll(deployed).structural <==>
          PluralEmpty(kind) in IndexAll(before).structural || NewLine(IndexAll(before), e) == Some(PluralEmpty(kind));
    }
  }

  lemma {:induction false} Without(x: Deployed, deployed: seq<Deployed>) returns (rest: seq<Deployed>)
    requires x in deployed
    ensures multiset([x] + rest) == multiset(deployed)
  {
    var i :| 0 <= i < |deployed| && deployed[i] == x;
    rest := deployed[..i] + deployed[i + 1..];
    assert deployed == deployed[..i] + [x] + deployed[i + 1..];
    assert multiset(deployed) == multiset(deployed[..i]) + multiset{x} + multiset(deployed[i + 1..]);
    assert multiset([x] + rest) == multiset{x} + multiset(deployed[..i]) + multiset(deployed[i + 1..]);
  }

  lemma {:induction false} TwoFirst(x: Deployed, y: Deployed, deployed: seq<Deployed>) returns (rest: seq<Deployed>)
    requires x in deployed && y in deployed && x != y
    ensures SameMultiset([x, y] + rest, deployed) && SameMultiset([y, x] + rest, deployed)
  {
    var others := Without(x, deployed);
    assert multiset([x] + others) == multiset{x} + multiset(others);
    assert y in multiset(deployed) && y in multiset(others);
    rest := Without(y, others);
    assert multiset([y] + rest) == multiset{y} + multiset(rest);
    assert multiset([x, y] + rest) == multiset{x, y} + multiset(rest);
    assert multiset([y, x] + rest) == multiset{x, y} + multiset(rest);
  }

  lemma {:induction false} FirstIs(x: Deployed, y: Deployed, rest: seq<Deployed>)
    ensures FirstOfKind([x, y] + rest, x.kind) == Some(x)
  {
  }

  /** Rows that share a plural: the line names the kind that came first. */
  lemma {:induction false} SharedPluralMatters(x: Deployed, y: Deployed, rest: seq<Deployed>)
    requires SharePlural(x, y)
    ensures !SameMultiset(IndexAll([x, y] + rest).structural, IndexAll([y, x] + rest).structural)
  {
    var line := PluralTaken(y.kind, TrimSpace(x.plural), x.kind);
    PairTakes(x, y);
    LineStays([x, y], rest, line);
    OwnPlural(y);
    OwnerStays([y], [x] + rest, TrimSpace(y.plural));
    assert [y] + ([x] + rest) == [y, x] + rest;
    var swapped := IndexAll([y, x] + rest);
    assert swapped.pluralKind[TrimSpace(y.plural)] == y.kind;
    if line in swapped.structural {
      TakenNamesOwner([y, x] + rest, line);
    }
    assert line in multiset(IndexAll([x, y] + rest).structural) && line !in multiset(swapped.structural);
  }

  lemma {:induction false} OwnPlural(x: Deployed)
    requires !Blank(x.kind) && !Blank(x.plural)
    ensures IndexAll([x]) == Index([], map[x.kind := x], map[TrimSpace(x.plural) := x.kind])
  {
    assert [x][..0] == [];
    assert IndexAll([x]) == Add(IndexAll([]), x);
  }

  lemma {:induction false} PairTakes(x: Deployed, y: Deployed)
    requires SharePlural(x, y)
    ensures PluralTaken(y.kind, TrimSpace(x.plural), x.kind) in IndexAll([x, y]).structural
  {
    OwnPlural(x);
    assert [x, y][..1] == [x];
    assert IndexAll([x, y]) == Add(IndexAll([x]), y);
    LineAdded(IndexAll([x]), y);
  }

  /** Rows of one kind, one of them without plural: whether that is reported depends on which came first. */
  lemma {:induction false} MissingPluralMatters(x: Deployed, y: Deployed, rest: seq<Deployed>)
    requires x.kind == y.kind && !Blank(x.kind) && Blank(x.plural) && !Blank(y.plural)
    ensures !SameMultiset(IndexAll([x, y] + rest).structural, IndexAll([y, x] + rest).structural)
  {
    FirstIs(x, y, rest);
    FirstIs(y, x, rest);
    EmptyIsFirst([x, y] + rest, x.kind);
    EmptyIsFirst([y, x] + rest, x.kind);
    assert PluralEmpty(x.kind) in multiset(IndexAll([x, y] + rest).structural);
    assert PluralEmpty(x.kind) !in multiset(IndexAll([y, x] + rest).structural);
  }

  lemma {:induction false} ComparisonMembers(deployed: seq<Deployed>, rows: seq<Row>, line: Line)
    ensures line in ComparisonLines(IndexAll(deployed).byKind, rows) <==>
            exists want :: want in rows && CalledFor(deployed, want, line)
  {
    if rows == [] {
      assert ComparisonLines(IndexAll(deployed).byKind, rows) == [];
    } else {
      var n := |rows| - 1;
      ComparisonMembers(deployed, rows[..n], line);
      ComparisonStep(IndexAll(deployed).byKind, rows[..n], rows[n]);
      RowLinesCalledFor(deployed, rows[n], line);
      assert rows == rows[..n] + [rows[n]];
      assert forall want :: want in rows <==> want in rows[..n] || want == rows[n];
    }
  }

  /** Different rows of an expected kind: they differ in a field, and the line about it shows which came first. */
  lemma {:induction false} ExpectedKindMatters(rows: seq<Row>, x: Deployed, y: Deployed, rest: seq<Deployed>)
    requires x != y && x.kind == y.kind && !Blank(x.kind) && Expected(rows, x.kind)
    ensures ComparisonLines(IndexAll([x, y] + rest).byKind, rows)
            != ComparisonLines(IndexAll([y, x] + rest).byKind, rows)
  {
    var want :| want in rows && want.kind == x.kind;
    var f := DifferingField(x, y);
    if Got(x, f) != Wanted(want, f) {
      LineOfFirst(rows, x, y, rest, want, f);
    } else {
      LineOfFirst(rows, y, x, rest, want, f);
    }
  }

  lemma DifferingField(x: Deployed, y: Deployed) returns (f: Field)
    requires x != y && x.kind == y.kind
    ensures Got(x, f) != Got(y, f)
  {
    f := if x.plural != y.plural then Plural else if x.parentKind != y.parentKind then ParentKind else OnParentDelete;
  }

  lemma {:induction false} LineOfFirst(rows: seq<Row>, x: Deployed, y: Deployed, rest: seq<Deployed>, want: Row,
                                       f: Field)
    requires x.kind == y.kind == want.kind && !Blank(x.kind) && want in rows
    requires Got(x, f) != Got(y, f) && Got(x, f) != Wanted(want, f)
    ensures ComparisonLines(IndexAll([x, y] + rest).byKind, rows)
            != ComparisonLines(IndexAll([y, x] + rest).byKind, rows)
  {
    var line := Differs(x.kind, f, Got(x, f), Wanted(want, f));
    FirstIs(x, y, rest);
    FirstIs(y, x, rest);
    ComparisonMembers([x, y] + rest, rows, line);
    ComparisonMembers([y, x] + rest, rows, line);
    assert CalledFor([x, y] + rest, want, line);
    assert forall other :: other in rows ==> !CalledFor([y, x] + rest, other, line);
  }

  lemma {:induction false} OrderFreeKinds(rows: seq<Row>, deployed: seq<Deployed>)
    requires OrderFree(rows, deployed)
    ensures KindsUnambiguous(rows, deployed)
  {
    forall x, y | x in deployed && y in deployed && x != y && x.kind == y.kind && !Blank(x.kind)
      ensures !Expected(rows, x.kind) && (Blank(x.plural) <==> Blank(y.plural))
    {
      var rest := TwoFirst(x, y, deployed);
      BothOrders(rows, deployed, [x, y] + rest, [y, x] + rest);
      if Expected(rows, x.kind) {
        ExpectedKindMatters(rows, x, y, rest);
      } else if Blank(x.plural) && !Blank(y.plural) {
        MissingPluralMatters(x, y, rest);
      } else if !Blank(x.plural) && Blank(y.plural) {
        MissingPluralMatters(y, x, rest);
      }
    }
  }

  lemma {:induction false} OrderFreePlurals(rows: seq<Row>, deployed: seq<Deployed>)
    requires OrderFree(rows, deployed)
    ensures PluralsUnambiguous(deployed)
  {
    forall x, y | x in deployed && y in deployed ensures !SharePlural(x, y) {
      if SharePlural(x, y) {
        var rest := TwoFirst(x, y, deployed);
        BothOrders(rows, deployed, [x, y] + rest, [y, x] + rest);
        SharedPluralMatters(x, y, rest);
      }
    }
  }

  lemma {:induction false} BothOrders(rows: seq<Row>, deployed: seq<Deployed>, a: seq<Deployed>, b: seq<Deployed>)
    requires OrderFree(rows, deployed) && SameMultiset(a, deployed) && SameMultiset(b, deployed)
    ensures SameMultiset(IndexAll(a).structural, IndexAll(b).structural)
    ensures ComparisonLines(IndexAll(a).byKind, rows) == ComparisonLines(IndexAll(b).byKind, rows)
  {
  }

  /** The order of the deployed rows makes no difference exactly when different rows of one kind are of a kind that is
      not expected, all with a plural or all without, and no two kinds share a plural. */
  lemma {:induction false} OrderIrrelevantIff(rows: seq<Row>, deployed: seq<Deployed>)
    ensures OrderFree(rows, deployed) <==> KindsUnambiguous(rows, deployed) && PluralsUnambiguous(deployed)
  {
    if OrderFree(rows, deployed) {
      OrderFreeKinds(rows, deployed);
      OrderFreePlurals(rows, deployed);
    }
    if KindsUnambiguous(rows, deployed) && PluralsUnambiguous(deployed) {
      UnambiguousIsOrderFree(rows, deployed);
    }
  }

  // ---------------------------------------------------------------- the rendered report

  function RenderedAlone(quote: string -> string): Line -> seq<string> {
    (line: Line) => [Render(line, quote)]
  }

  lemma {:induction false} TextsOneByOne(lines: seq<Line>, quote: string -> string)
    ensures Texts(lines, quote) == FlatMap(RenderedAlone(quote), lines)
  {
    if lines != [] {
      TextsOneByOne(lines[1..], quote);
      assert Texts(lines, quote) == [Render(lines[0], quote)] + Texts(lines[1..], quote);
    }
  }

  /** Then the report itself is the same, text by text. */
  lemma {:induction false} DeployedOrderIrrelevant(rows: seq<Row>, deployed: seq<Deployed>, shuffled: seq<Deployed>,
                                                   quote: string -> string)
    requires SameMultiset(shuffled, deployed)
    requires KindsUnambiguous(rows, deployed) && PluralsUnambiguous(deployed)
    ensures Report(rows, deployed, quote) == Report(rows, shuffled, quote)
  {
    assert |deployed| == |multiset(deployed)| == |shuffled|;
    SameStructure(rows, deployed, shuffled);
    SameComparison(rows, rows, deployed, shuffled);
    SortedTextsAlike(IndexAll(deployed).structural, IndexAll(shuffled).structural, quote);
  }

  lemma {:induction false} SortedTextsAlike(a: seq<Line>, b: seq<Line>, quote: string -> string)
    requires SameMultiset(a, b)
    ensures Sort(Texts(a, quote), Itself) == Sort(Texts(b, quote), Itself)
  {
    TextsOneByOne(a, quote);
    TextsOneByOne(b, quote);
    FlatMapPermuted(RenderedAlone(quote), a, b);
    SortedOrderIsUnique(Sort(Texts(a, quote), Itself), Sort(Texts(b, quote), Itself), Itself);
  }
}
