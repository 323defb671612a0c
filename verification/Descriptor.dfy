/** The entity table and the rules a catalog is built by, on values.
    Catalog.dfy holds the class that runs these rules on the heap. */
module Descriptor {
  import opened Sequences
  import opened Text

  /** Durations are nanoseconds. */
  type Duration = int

  datatype EntityTimeouts = EntityTimeouts(reconciled: Duration, deleted: Duration)

  datatype EntityThresholds = EntityThresholds(
    read: Duration, list: Duration, create: Duration, update: Duration, delete: Duration,
    createReconciled: Duration, updateReconciled: Duration, deleted: Duration, cascadeDeleted: Duration)

  /** A descriptor's two lists are Go slices: "Names" is a sequence where only their values
      matter, and an array where ownership does. */
  datatype CleanupPolicy<Names> = CleanupPolicy(
    childKinds: Names, waitForHardDelete: bool, ignoreNotFound: bool, ignoreConflict: bool)

  datatype EntityDescriptor<Names> = EntityDescriptor(
    kind: string, plural: string,
    parentKind: string, parentPlural: string, onParentDelete: string,
    requiredAdapters: Names, cleanup: CleanupPolicy<Names>,
    thresholds: EntityThresholds, timeouts: EntityTimeouts)

  type Row = EntityDescriptor<seq<string>>

  type Table = map<string, Row>

  datatype Problem =
    | KindAndPluralRequired(kind: string, plural: string)
    | DuplicateKind(kind: string)
    | DuplicatePlural(plural: string)
    | UnknownParent(kind: string, parent: string)
    | ParentPluralMismatch(kind: string, plural: string)
    | RootHasParentMetadata(kind: string)
    | ParentMetadataMissing(kind: string)
    | NegativeTimeouts(kind: string)
    | AdaptersWithoutTimeout(kind: string)
    | HardDeleteWithoutTimeout(kind: string)
    | CyclicParents(kind: string)
    | ForeignCleanupChild(child: string, kind: string)

  predicate ValidSegment(value: string) {
    value != "" && value != "." && value != ".." && forall c :: c in value ==> PathSafe(c)
  }

  predicate ValidName<N>(e: EntityDescriptor<N>) {
    !Blank(e.kind) && ValidSegment(e.plural)
  }

  predicate ValidRouting<N>(e: EntityDescriptor<N>) {
    if e.parentKind == "" then e.parentPlural == "" && e.onParentDelete == ""
    else ValidSegment(e.parentPlural) && e.onParentDelete in {"cascade", "restrict"}
  }

  predicate ValidSettings(e: Row) {
    && e.timeouts.reconciled >= 0
    && e.timeouts.deleted >= 0
    && (e.requiredAdapters != [] ==> e.timeouts.reconciled != 0)
    && (e.cleanup.waitForHardDelete ==> e.timeouts.deleted > 0)
  }

  /** EntityDescriptor.Validate */
  function Validate(e: Row): (problem: Option<Problem>)
    ensures problem.None? <==> ValidName(e) && ValidRouting(e) && ValidSettings(e)
  {
    if Blank(e.kind) || !ValidSegment(e.plural) then Some(KindAndPluralRequired(e.kind, e.plural))
    else if e.parentKind == "" && (e.parentPlural != "" || e.onParentDelete != "") then
      Some(RootHasParentMetadata(e.kind))
    else if e.parentKind != "" && (!ValidSegment(e.parentPlural)
            || (e.onParentDelete != "cascade" && e.onParentDelete != "restrict")) then
      Some(ParentMetadataMissing(e.kind))
    else if e.timeouts.reconciled < 0 || e.timeouts.deleted < 0 then Some(NegativeTimeouts(e.kind))
    else if |e.requiredAdapters| > 0 && e.timeouts.reconciled == 0 then Some(AdaptersWithoutTimeout(e.kind))
    else if e.cleanup.waitForHardDelete && e.timeouts.deleted <= 0 then Some(HardDeleteWithoutTimeout(e.kind))
    else None
  }

  // ---------------------------------------------------------------- first pass: names

  function NameProblem<N>(e: EntityDescriptor<N>, entries: Table, plurals: set<string>): Option<Problem> {
    if !ValidName(e) then Some(KindAndPluralRequired(e.kind, e.plural))
    else if e.kind in entries then Some(DuplicateKind(e.kind))
    else if e.plural in plurals then Some(DuplicatePlural(e.plural))
    else None
  }

  /** The first loop of NewCatalog: index the rows by kind, or report the first unusable one. */
  function IndexRows(rows: seq<Row>, entries: Table, plurals: set<string>): Result<Table, Problem> {
    if rows == [] then Ok(entries)
    else
      match NameProblem(rows[0], entries, plurals)
      case Some(problem) => Err(problem)
      case None => IndexRows(rows[1..], entries[rows[0].kind := rows[0]], plurals + {rows[0].plural})
  }

  ghost predicate DistinctNames(rows: seq<Row>) {
    forall i, j :: 0 <= i < j < |rows| ==> rows[i].kind != rows[j].kind && rows[i].plural != rows[j].plural
  }

  function ByKind(rows: seq<Row>): (t: Table)
    ensures forall k :: k in t <==> exists e :: e in rows && e.kind == k
    ensures forall k :: k in t ==> t[k] in rows && t[k].kind == k
  {
    if rows == [] then map[] else ByKind(rows[1..])[rows[0].kind := rows[0]]
  }

  ghost predicate Avoids(rows: seq<Row>, entries: Table, plurals: set<string>) {
    forall e :: e in rows ==> e.kind !in entries && e.plural !in plurals
  }

  lemma DistinctStepwise(rows: seq<Row>)
    requires rows != []
    ensures DistinctNames(rows) <==>
            && DistinctNames(rows[1..])
            && forall e :: e in rows[1..] ==> e.kind != rows[0].kind && e.plural != rows[0].plural
  {
    var e, rest := rows[0], rows[1..];
    if DistinctNames(rows) {
      forall f | f in rest ensures f.kind != e.kind && f.plural != e.plural {
        var j :| 0 <= j < |rest| && rest[j] == f;
        assert rows[j + 1] == f;
      }
      forall i, j | 0 <= i < j < |rest| ensures rest[i].kind != rest[j].kind && rest[i].plural != rest[j].plural {
        assert rows[i + 1] == rest[i] && rows[j + 1] == rest[j];
      }
    }
    if DistinctNames(rest) && forall f :: f in rest ==> f.kind != e.kind && f.plural != e.plural {
      forall i, j | 0 <= i < j < |rows| ensures rows[i].kind != rows[j].kind && rows[i].plural != rows[j].plural {
        assert rows[j] == rest[j - 1];
        if i > 0 { assert rows[i] == rest[i - 1]; } else { assert rest[j - 1] in rest; }
      }
    }
  }

  lemma AvoidsStepwise(rows: seq<Row>, entries: Table, plurals: set<string>)
    requires rows != []
    ensures var e, rest := rows[0], rows[1..];
            (&& Avoids(rest, entries[e.kind := e], plurals + {e.plural})
             && e.kind !in entries && e.plural !in plurals) <==>
            (Avoids(rows, entries, plurals) && forall f :: f in rest ==> f.kind != e.kind && f.plural != e.plural)
  {
    assert rows == [rows[0]] + rows[1..];
  }

  ghost predicate ValidNames(rows: seq<Row>) {
    forall e :: e in rows ==> ValidName(e)
  }

  lemma ValidNamesStepwise(rows: seq<Row>)
    requires rows != []
    ensures ValidNames(rows) <==> ValidName(rows[0]) && ValidNames(rows[1..])
  {
    assert rows == [rows[0]] + rows[1..];
  }

  /** The first pass accepts exactly the rows with usable and distinct names, and then indexes every row. */
  lemma {:induction false} IndexRowsCorrect(rows: seq<Row>, entries: Table, plurals: set<string>)
    ensures IndexRows(rows, entries, plurals).Ok?
            <==> ValidNames(rows) && DistinctNames(rows) && Avoids(rows, entries, plurals)
    ensures IndexRows(rows, entries, plurals).Ok? ==> IndexRows(rows, entries, plurals).value == entries + ByKind(rows)
  {
    if rows == [] {
      assert entries + ByKind(rows) == entries;
    } else {
      var e, rest := rows[0], rows[1..];
      DistinctStepwise(rows);
      AvoidsStepwise(rows, entries, plurals);
      ValidNamesStepwise(rows);
      if ValidName(e) && e.kind !in entries && e.plural !in plurals {
        IndexRowsCorrect(rest, entries[e.kind := e], plurals + {e.plural});
        if IndexRows(rows, entries, plurals).Ok? {
          IndexedTable(rows, entries);
        }
      }
    }
  }

  lemma IndexedTable(rows: seq<Row>, entries: Table)
    requires rows != []
    requires forall f :: f in rows[1..] ==> f.kind != rows[0].kind
    ensures entries + ByKind(rows) == entries[rows[0].kind := rows[0]] + ByKind(rows[1..])
  {
    assert rows[0].kind !in ByKind(rows[1..]);
  }

  lemma ByKindOfDistinct(rows: seq<Row>)
    requires DistinctNames(rows)
    ensures forall e :: e in rows ==> e.kind in ByKind(rows) && ByKind(rows)[e.kind] == e
  {
    forall e | e in rows ensures ByKind(rows)[e.kind] == e {
      var f := ByKind(rows)[e.kind];
      var i :| 0 <= i < |rows| && rows[i] == e;
      var j :| 0 <= j < |rows| && rows[j] == f;
      assert i == j;
    }
  }

  // ---------------------------------------------------------------- second pass: relations

  /** c.entries[kind].ParentKind; a missing entry reads as the zero row. */
  function Parent(t: Table, kind: string): string {
    if kind in t then t[kind].parentKind else ""
  }

  /** The ancestor walk: true when it reaches a root without meeting a kind again. */
  function ReachesRoot(t: Table, seen: set<string>, ancestor: string): bool
    decreases t.Keys - seen, if ancestor == "" then 0 else 1
  {
    if ancestor == "" then true
    else if ancestor in seen then false
    else
      assert ancestor in t ==> t.Keys - (seen + {ancestor}) < t.Keys - seen by {
        assert ancestor in t ==> ancestor in t.Keys - seen && ancestor !in t.Keys - (seen + {ancestor});
      }
      assert ancestor !in t ==> t.Keys - (seen + {ancestor}) == t.Keys - seen;
      ReachesRoot(t, seen + {ancestor}, Parent(t, ancestor))
  }

  /** The row NewCatalog stores back: a child's parent plural is filled in. */
  function ResolveRow(t: Table, e: Row): Row {
    if e.parentKind != "" && e.parentKind in t then e.(parentPlural := t[e.parentKind].plural) else e
  }

  function ForeignChild(t: Table, kind: string, children: seq<string>): (child: Option<string>)
    ensures child.None? <==> forall c :: c in children ==> c in t && t[c].parentKind == kind
  {
    if children == [] then None
    else if children[0] !in t || t[children[0]].parentKind != kind then Some(children[0])
    else ForeignChild(t, kind, children[1..])
  }

  /** One iteration of the second loop of NewCatalog, in the order of its checks. */
  function RowProblem(t: Table, kind: string, e: Row): Option<Problem> {
    if e.parentKind != "" && e.parentKind !in t then Some(UnknownParent(kind, e.parentKind))
    else if e.parentKind != "" && e.parentPlural != "" && e.parentPlural != t[e.parentKind].plural then
      Some(ParentPluralMismatch(kind, t[e.parentKind].plural))
    else if Validate(ResolveRow(t, e)).Some? then Validate(ResolveRow(t, e))
    else if !ReachesRoot(t, {kind}, e.parentKind) then Some(CyclicParents(kind))
    else
      match ForeignChild(t, kind, e.cleanup.childKinds)
      case Some(child) => Some(ForeignCleanupChild(child, kind))
      case None => None
  }

  /** The second loop, ranging over the map in the given order and writing each resolved row back into it. */
  function ResolveInOrder(t: Table, order: seq<string>): Result<Table, Problem>
    requires forall k :: k in order ==> k in t
  {
    if order == [] then Ok(t)
    else
      var kind := order[0];
      match RowProblem(t, kind, t[kind])
      case Some(problem) => Err(problem)
      case None => ResolveInOrder(t[kind := ResolveRow(t, t[kind])], order[1..])
  }

  function ResolveAll(t: Table): Table {
    map k | k in t :: ResolveRow(t, t[k])
  }

  function Kinds(rows: seq<Row>): set<string> {
    set e | e in rows :: e.kind
  }

  /** NewCatalog, when the map range visits the kinds in "order". */
  function Build(rows: seq<Row>, order: seq<string>): Result<Table, Problem>
    requires Enumerates(order, Kinds(rows))
  {
    IndexRowsCorrect(rows, map[], {});
    match IndexRows(rows, map[], {})
    case Err(problem) => Err(problem)
    case Ok(t) => ResolveInOrder(t, order)
  }

  // ---------------------------------------------------------------- order independence

  /** The two columns one row's checks read of the other rows. */
  ghost predicate SameRoutes(t: Table, u: Table) {
    t.Keys == u.Keys && forall k :: k in t ==> t[k].plural == u[k].plural && t[k].parentKind == u[k].parentKind
  }

  lemma {:induction false} WalkReadsOnlyRoutes(t: Table, u: Table, seen: set<string>, ancestor: string)
    requires SameRoutes(t, u)
    ensures ReachesRoot(t, seen, ancestor) == ReachesRoot(u, seen, ancestor)
    decreases t.Keys - seen, if ancestor == "" then 0 else 1
  {
    if ancestor != "" && ancestor !in seen {
      assert ancestor in t ==> ancestor in t.Keys - seen && ancestor !in t.Keys - (seen + {ancestor});
      assert ancestor !in t ==> t.Keys - (seen + {ancestor}) == t.Keys - seen;
      WalkReadsOnlyRoutes(t, u, seen + {ancestor}, Parent(t, ancestor));
    }
  }

  lemma {:induction false} ForeignChildReadsOnlyRoutes(t: Table, u: Table, kind: string, children: seq<string>)
    requires SameRoutes(t, u)
    ensures ForeignChild(t, kind, children) == ForeignChild(u, kind, children)
  {
    if children != [] { ForeignChildReadsOnlyRoutes(t, u, kind, children[1..]); }
  }

  lemma ChecksReadOnlyRoutes(t: Table, u: Table, kind: string, e: Row)
    requires SameRoutes(t, u)
    ensures RowProblem(t, kind, e) == RowProblem(u, kind, e)
    ensures ResolveRow(t, e) == ResolveRow(u, e)
  {
    WalkReadsOnlyRoutes(t, u, {kind}, e.parentKind);
    ForeignChildReadsOnlyRoutes(t, u, kind, e.cleanup.childKinds);
  }

  /** Every row not yet visited is as it was, every visited one is resolved. */
  ghost predicate Midway(t: Table, now: Table, ahead: seq<string>) {
    && now.Keys == t.Keys
    && forall k :: k in t ==> now[k] == if k in ahead then t[k] else ResolveRow(t, t[k])
  }

  /** The first problem the range meets, judging every row on the table as it was before the range. */
  function FirstProblem(t: Table, order: seq<string>): (problem: Option<Problem>)
    requires forall k :: k in order ==> k in t
    ensures problem.None? <==> forall k :: k in order ==> RowProblem(t, k, t[k]).None?
    ensures problem.Some? ==> exists k :: k in order && RowProblem(t, k, t[k]) == problem
  {
    if order == [] then None
    else if RowProblem(t, order[0], t[order[0]]).Some? then RowProblem(t, order[0], t[order[0]])
    else FirstProblem(t, order[1..])
  }

  /** The range reports the first rejected kind it visits, and when it rejects none it has resolved every row. */
  lemma {:induction false} RangeOutcome(t: Table, now: Table, order: seq<string>)
    requires Distinct(order) && forall k :: k in order ==> k in t
    requires Midway(t, now, order)
    ensures ResolveInOrder(now, order) ==
            match FirstProblem(t, order) case Some(problem) => Err(problem) case None => Ok(ResolveAll(t))
  {
    if order == [] {
      assert now == ResolveAll(t);
    } else {
      var kind, rest := order[0], order[1..];
      assert order == [kind] + rest;
      ChecksReadOnlyRoutes(t, now, kind, t[kind]);
      if RowProblem(t, kind, t[kind]).None? {
        var next := now[kind := ResolveRow(now, now[kind])];
        assert Midway(t, next, rest) by {
          forall k | k in t ensures next[k] == if k in rest then t[k] else ResolveRow(t, t[k]) {
            assert k in order <==> k == kind || k in rest;
          }
        }
        RangeOutcome(t, next, rest);
      }
    }
  }

  /** Whatever order the runtime ranges in, the writes made during the range change neither the verdict
      nor the catalog that results. */
  lemma RangeOrderIrrelevant(t: Table, order1: seq<string>, order2: seq<string>)
    requires Enumerates(order1, t.Keys) && Enumerates(order2, t.Keys)
    ensures ResolveInOrder(t, order1).Ok? <==> ResolveInOrder(t, order2).Ok?
    ensures ResolveInOrder(t, order1).Ok? ==> ResolveInOrder(t, order1) == ResolveInOrder(t, order2)
  {
    RangeOutcome(t, t, order1);
    RangeOutcome(t, t, order2);
  }

  /** All the kinds that have a problem have the same one. */
  ghost predicate OneProblem(t: Table) {
    forall k, l :: k in t && l in t && RowProblem(t, k, t[k]).Some? && RowProblem(t, l, t[l]).Some?
                   ==> RowProblem(t, k, t[k]) == RowProblem(t, l, t[l])
  }

  ghost predicate ReportsAlike(t: Table) {
    forall order1, order2 :: Enumerates(order1, t.Keys) && Enumerates(order2, t.Keys)
                             ==> ResolveInOrder(t, order1) == ResolveInOrder(t, order2)
  }

  /** The reported problem does depend on the order: it is the same for all orders exactly when the kinds
      that have a problem all have the same one. */
  lemma ReportOrderIrrelevantIff(t: Table)
    ensures OneProblem(t) <==> ReportsAlike(t)
  {
    if OneProblem(t) {
      forall order1, order2 | Enumerates(order1, t.Keys) && Enumerates(order2, t.Keys)
        ensures ResolveInOrder(t, order1) == ResolveInOrder(t, order2)
      {
        RangeOutcome(t, t, order1);
        RangeOutcome(t, t, order2);
      }
    } else {
      TwoReports(t);
    }
  }

  /** Every problem names its kind, so that comes to at most one kind being rejected. */
  lemma ReportOrderIrrelevantIffOneRejected(t: Table)
    requires forall k :: k in t ==> t[k].kind == k
    ensures ReportsAlike(t) <==>
            forall k, l :: k in t && l in t && RowProblem(t, k, t[k]).Some? && RowProblem(t, l, t[l]).Some? ==> k == l
  {
    ReportOrderIrrelevantIff(t);
    forall k | k in t && RowProblem(t, k, t[k]).Some? ensures Rejected(RowProblem(t, k, t[k]).value) == Some(k) {
      assert ResolveRow(t, t[k]).kind == k;
    }
  }

  /** The kind a problem of the second pass is about. */
  function Rejected(problem: Problem): Option<string> {
    match problem
    case DuplicatePlural(_) => None
    case ForeignCleanupChild(_, kind) => Some(kind)
    case _ => Some(problem.kind)
  }

  lemma TwoReports(t: Table)
    requires !OneProblem(t)
    ensures !ReportsAlike(t)
  {
    var k, l :| k in t && l in t && RowProblem(t, k, t[k]).Some? && RowProblem(t, l, t[l]).Some?
                && RowProblem(t, k, t[k]) != RowProblem(t, l, t[l]);
    var order1 := OrderStartingWith(t.Keys, k);
    var order2 := OrderStartingWith(t.Keys, l);
    assert ResolveInOrder(t, order1) != ResolveInOrder(t, order2);
  }

  /** Two kinds under an unknown parent are enough for the report to depend on the order. */
  lemma TwoOrphansReportDifferently(row: Row, a: string, b: string, parent: string)
    requires a != b && parent != "" && parent !in {a, b}
    ensures !ReportsAlike(map[a := row.(kind := a, parentKind := parent), b := row.(kind := b, parentKind := parent)])
  {
    var t := map[a := row.(kind := a, parentKind := parent), b := row.(kind := b, parentKind := parent)];
    assert RowProblem(t, a, t[a]) == Some(UnknownParent(a, parent));
    assert RowProblem(t, b, t[b]) == Some(UnknownParent(b, parent));
    TwoReports(t);
  }

  lemma OrderStartingWith(keys: set<string>, first: string) returns (order: seq<string>)
    requires first in keys
    ensures Enumerates(order, keys) && order[0] == first
  {
    order := [first];
    var left := keys - {first};
    while left != {}
      invariant Distinct(order) && |order| >= 1 && order[0] == first
      invariant forall k :: k in order <==> k in keys - left
      invariant left <= keys
    {
      var k :| k in left;
      assert k !in order;
      order, left := order + [k], left - {k};
    }
  }
}
