/** descriptor.Catalog on the heap: the class that owns the entries, and the copies it takes and hands out. */
module Catalogs {
  import opened Sequences
  import opened Text
  import opened Descriptor
  import opened Forest
  import opened Acceptance
  import opened Rejection

  /** A descriptor as Go holds it: its two lists are arrays other code may share and write to. */
  type HeapRow = EntityDescriptor<array<string>>

  function Contents(e: HeapRow): Row
    reads e.requiredAdapters, e.cleanup.childKinds
  {
    EntityDescriptor(e.kind, e.plural, e.parentKind, e.parentPlural, e.onParentDelete, e.requiredAdapters[..],
      CleanupPolicy(e.cleanup.childKinds[..], e.cleanup.waitForHardDelete, e.cleanup.ignoreNotFound,
        e.cleanup.ignoreConflict),
      e.thresholds, e.timeouts)
  }

  /** Each column of the contents is that of the row. */
  lemma ContentsColumns(e: HeapRow)
    ensures var r := Contents(e);
            && r.kind == e.kind && r.plural == e.plural && r.timeouts == e.timeouts && r.thresholds == e.thresholds
            && r.parentKind == e.parentKind && r.parentPlural == e.parentPlural && r.onParentDelete == e.onParentDelete
            && r.requiredAdapters == e.requiredAdapters[..] && r.cleanup.childKinds == e.cleanup.childKinds[..]
            && r.cleanup.waitForHardDelete == e.cleanup.waitForHardDelete
            && r.cleanup.ignoreNotFound == e.cleanup.ignoreNotFound
            && r.cleanup.ignoreConflict == e.cleanup.ignoreConflict
  {
  }

  ghost function Lists(e: HeapRow): set<array<string>> {
    {e.requiredAdapters, e.cleanup.childKinds}
  }

  ghost predicate SameLists(e: HeapRow, f: HeapRow) {
    e.requiredAdapters == f.requiredAdapters && e.cleanup.childKinds == f.cleanup.childKinds
  }

  ghost function AllLists(rows: seq<HeapRow>): set<array<string>> {
    (set e | e in rows :: e.requiredAdapters) + (set e | e in rows :: e.cleanup.childKinds)
  }

  lemma AllListsOfRest(rows: seq<HeapRow>)
    requires rows != []
    ensures Lists(rows[0]) <= AllLists(rows) && AllLists(rows[1..]) <= AllLists(rows)
  {
    assert rows[0] in rows && forall e :: e in rows[1..] ==> e in rows;
  }

  ghost function ContentsOf(rows: seq<HeapRow>): (contents: seq<Row>)
    reads AllLists(rows)
    ensures |contents| == |rows|
    ensures forall i :: 0 <= i < |rows| ==> contents[i] == Contents(rows[i])
  {
    if rows == [] then [] else
      AllListsOfRest(rows);
      [Contents(rows[0])] + ContentsOf(rows[1..])
  }

  /** slices.Clone */
  method CloneList(a: array<string>) returns (b: array<string>)
    ensures fresh(b) && b[..] == a[..]
  {
    b := new string[a.Length](i requires 0 <= i < a.Length reads a => a[i]);
  }

  /** EntityDescriptor.clone: both lists of the copy are new. */
  method Clone(e: HeapRow) returns (copy: HeapRow)
    ensures fresh(Lists(copy)) && copy.requiredAdapters != copy.cleanup.childKinds
    ensures Contents(copy) == Contents(e)
  {
    var adapters := CloneList(e.requiredAdapters);
    var children := CloneList(e.cleanup.childKinds);
    copy := e.(requiredAdapters := adapters, cleanup := e.cleanup.(childKinds := children));
  }

  class Catalog {
    var entries: map<string, HeapRow>

    constructor ()
      ensures entries == map[]
    {
      entries := map[];
    }

    ghost function Owned(): set<array<string>>
      reads this
    {
      ListsOf(entries)
    }

    ghost function View(): Table
      reads this, Owned()
    {
      map k | k in entries :: Contents(entries[k])
    }

    /** The loop over ancestors: "seen" grows until the chain ends or meets a kind again. */
    method WalkAncestors(kind: string, parent: string) returns (reaches: bool)
      ensures reaches == ReachesRoot(View(), {kind}, parent)
    {
      var seen, ancestor := {kind}, parent;
      while ancestor != ""
        invariant ReachesRoot(View(), seen, ancestor) == ReachesRoot(View(), {kind}, parent)
        decreases entries.Keys - seen, if ancestor == "" then 0 else 1
      {
        if ancestor in seen {
          return false;
        }
        assert ancestor in entries ==>
            ancestor in entries.Keys - seen && ancestor !in entries.Keys - (seen + {ancestor});
        assert ancestor !in entries ==> entries.Keys - (seen + {ancestor}) == entries.Keys - seen;
        seen, ancestor := seen + {ancestor}, if ancestor in entries then entries[ancestor].parentKind else "";
      }
      reaches := true;
    }

    /** The loop over cleanup children. */
    method FindForeignChild(kind: string, children: array<string>) returns (child: Option<string>)
      ensures child == ForeignChild(View(), kind, children[..])
    {
      var i := 0;
      while i < children.Length
        invariant 0 <= i <= children.Length
        invariant ForeignChild(View(), kind, children[..]) == ForeignChild(View(), kind, children[i..])
      {
        var childKind := children[i];
        assert children[i..][1..] == children[i + 1..];
        if childKind !in entries || entries[childKind].parentKind != kind {
          return Some(childKind);
        }
        i := i + 1;
      }
      child := None;
    }

    /** The body of the second loop for one kind, up to the write. */
    method ResolveEntry(kind: string, e: HeapRow) returns (entity: HeapRow, problem: Option<Problem>)
      ensures problem == RowProblem(View(), kind, Contents(e))
      ensures problem.None? ==> Contents(entity) == ResolveRow(View(), Contents(e)) && SameLists(entity, e)
      ensures problem.None? ==>
                && entity == e.(parentPlural := entity.parentPlural)
                && if e.parentKind == "" then entity.parentPlural == e.parentPlural
                   else e.parentKind in entries && entity.parentPlural == entries[e.parentKind].plural
    {
      ghost var t := View();
      entity, problem := e, None;
      if entity.parentKind != "" {
        if entity.parentKind !in entries {
          return entity, Some(UnknownParent(kind, entity.parentKind));
        }
        var parent := entries[entity.parentKind];
        if entity.parentPlural != "" && entity.parentPlural != parent.plural {
          return entity, Some(ParentPluralMismatch(kind, parent.plural));
        }
        entity := entity.(parentPlural := parent.plural);
      }
      assert Contents(entity) == ResolveRow(t, Contents(e));
      problem := Validate(Contents(entity));
      if problem.Some? {
        return;
      }
      var reaches := WalkAncestors(kind, entity.parentKind);
      assert View() == t;
      if !reaches {
        return entity, Some(CyclicParents(kind));
      }
      var child := FindForeignChild(kind, entity.cleanup.childKinds);
      assert View() == t;
      assert ReachesRoot(t, {kind}, entity.parentKind);
      assert child == ForeignChild(t, kind, Contents(e).cleanup.childKinds);
      if child.Some? {
        problem := Some(ForeignCleanupChild(child.value, kind));
      }
    }

    /** NewCatalog. "order" is the order the runtime happened to range in: Range picks it kind by kind. */
    static method NewCatalog(rows: seq<HeapRow>) returns (catalog: Result<Catalog, Problem>, ghost order: seq<string>)
      ensures Enumerates(order, Kinds(ContentsOf(rows)))
      ensures catalog.Ok? <==> Build(ContentsOf(rows), order).Ok?
      ensures catalog.Err? ==> catalog.error == Build(ContentsOf(rows), order).error
      ensures catalog.Ok? ==> fresh(catalog.value) && fresh(catalog.value.Owned())
      ensures catalog.Ok? ==> catalog.value.View() == Build(ContentsOf(rows), order).value
      ensures catalog.Ok? <==> Acceptable(ContentsOf(rows))
      ensures catalog.Ok? ==> catalog.value.View() == ResolveAll(ByKind(ContentsOf(rows)))
      ensures catalog.Ok? ==> FilledIn(ContentsOf(rows), catalog.value.View())
      ensures catalog.Err? ==> FirstReported(ContentsOf(rows), order, catalog.error)
    {
      ghost var source := ContentsOf(rows);
      order := AnyOrder(Kinds(source));
      var c, problem := Index(rows, source);
      assert ContentsOf(rows) == source;
      if problem.Some? {
        catalog := Err(problem.value);
      } else {
        catalog, order := c.Range(source);
      }
      assert ContentsOf(rows) == source;
      Consequences(source, order);
    }

    /** The first loop of NewCatalog, over rows with the given contents. */
    static method Index(rows: seq<HeapRow>, ghost source: seq<Row>) returns (c: Catalog, problem: Option<Problem>)
      requires |source| == |rows| && forall j :: 0 <= j < |rows| ==> Contents(rows[j]) == source[j]
      ensures fresh(c) && fresh(c.Owned())
      ensures IndexRows(source, map[], {}) == match problem case Some(p) => Err(p) case None => Ok(c.View())
    {
      c := new Catalog();
      assert c.View() == map[];
      ghost var added;
      problem, added := c.AdmitAll(rows, source);
    }

    /** "added" are the lists the copies were given. */
    method AdmitAll(rows: seq<HeapRow>, ghost source: seq<Row>)
      returns (problem: Option<Problem>, ghost added: set<array<string>>)
      requires |source| == |rows| && forall j :: 0 <= j < |rows| ==> Contents(rows[j]) == source[j]
      modifies this
      ensures IndexRows(source, old(View()), {}) == match problem case Some(p) => Err(p) case None => Ok(View())
      ensures fresh(added) && Owned() <= old(Owned()) + added
    {
      var plurals: set<string> := {};
      added := {};
      ghost var now, owned := View(), Owned();
      assert source[0..] == source;
      for i := 0 to |rows|
        invariant fresh(added) && Owned() <= owned + added && View() == now
        invariant IndexRows(source, old(View()), {}) == IndexRows(source[i..], now, plurals)
      {
        assert Contents(rows[i]) == old(Contents(rows[i])) == source[i];
        IndexStep(source, i, now, plurals);
        ghost var more;
        problem, more := Admit(rows[i], plurals);
        added := added + more;
        if problem.Some? {
          return;
        }
        plurals, now := plurals + {rows[i].plural}, View();
      }
      assert source[|rows|..] == [];
      problem := None;
    }

    /** The body of its loop. */
    method Admit(entity: HeapRow, plurals: set<string>)
      returns (problem: Option<Problem>, ghost added: set<array<string>>)
      modifies this
      ensures problem == NameProblem(old(Contents(entity)), old(View()), plurals)
      ensures problem.None? ==> View() == old(View())[entity.kind := old(Contents(entity))]
      ensures problem.Some? ==> View() == old(View())
      ensures fresh(added) && Owned() <= old(Owned()) + added
    {
      if Blank(entity.kind) || !ValidSegment(entity.plural) {
        return Some(KindAndPluralRequired(entity.kind, entity.plural)), {};
      }
      if entity.kind in entries {
        return Some(DuplicateKind(entity.kind)), {};
      }
      if entity.plural in plurals {
        return Some(DuplicatePlural(entity.plural)), {};
      }
      added := Store(entity.kind, entity);
      problem := None;
    }

    method Store(kind: string, entity: HeapRow) returns (ghost added: set<array<string>>)
      modifies this
      ensures View() == old(View())[kind := old(Contents(entity))]
      ensures fresh(added) && Owned() <= old(Owned()) + added
    {
      var copy := Clone(entity);
      added := Lists(copy);
      entries := entries[kind := copy];
    }

    /** c.entries[kind] = entity, for an entity that keeps the lists of the entry it replaces. */
    method Replace(kind: string, entity: HeapRow)
      requires kind in entries && SameLists(entity, entries[kind])
      modifies this
      ensures View() == old(View())[kind := old(Contents(entity))] && Owned() == old(Owned())
    {
      SameListsOwned(entries, kind, entity);
      entries := entries[kind := entity];
    }

    /** One iteration of the second loop: the kind's resolved row is stored unless it is rejected. */
    method Visit(kind: string) returns (problem: Option<Problem>)
      requires kind in entries
      modifies this
      ensures problem == RowProblem(old(View()), kind, old(View())[kind])
      ensures problem.None? ==> View() == old(View())[kind := ResolveRow(old(View()), old(View())[kind])]
      ensures Owned() == old(Owned())
    {
      ghost var now := View();
      assert now[kind] == Contents(entries[kind]);
      var entity;
      entity, problem := ResolveEntry(kind, entries[kind]);
      assert View() == now && problem == RowProblem(now, kind, now[kind]);
      if problem.None? {
        Replace(kind, entity);
      }
    }

    /** The second loop of NewCatalog. */
    method Range(ghost source: seq<Row>) returns (catalog: Result<Catalog, Problem>, ghost order: seq<string>)
      requires IndexRows(source, map[], {}) == Ok(View())
      modifies this
      ensures Enumerates(order, Kinds(source))
      ensures catalog.Ok? <==> Build(source, order).Ok?
      ensures catalog.Err? ==> catalog.error == Build(source, order).error
      ensures catalog.Ok? ==> catalog.value == this && View() == Build(source, order).value
      ensures Owned() == old(Owned())
    {
      ghost var t := View();
      var problem;
      problem, order := RangeAll();
      BuildRanges(source, t, order);
      catalog := if problem.Some? then Err(problem.value) else Ok(this);
    }

    method RangeAll() returns (problem: Option<Problem>, ghost order: seq<string>)
      modifies this
      ensures Enumerates(order, old(View()).Keys)
      ensures ResolveInOrder(old(View()), order) ==
              match problem case Some(p) => Err(p) case None => Ok(View())
      ensures Owned() == old(Owned())
    {
      ghost var t, now := View(), View();
      var ahead := entries.Keys;
      order := [];
      while ahead != {}
        invariant View() == now && Owned() == old(Owned())
        invariant Ranged(t, now, order, ahead)
        decreases ahead
      {
        var kind :| kind in ahead;
        RangedStep(t, now, order, ahead, kind);
        problem := Visit(kind);
        if problem.Some? {
          order := RangeStops(t, now, order, kind, ahead);
          return;
        }
        now, ahead, order := View(), ahead - {kind}, order + [kind];
      }
      problem := None;
      RangedAll(t, now, order);
    }

    /** Catalog.Lookup: the caller gets a copy of its own. */
    method Lookup(kind: string) returns (row: Option<HeapRow>)
      ensures row.Some? <==> kind in View()
      ensures row.Some? ==> Contents(row.value) == View()[kind]
      ensures row.Some? ==> fresh(Lists(row.value)) && row.value.requiredAdapters != row.value.cleanup.childKinds
    {
      if kind in entries {
        var copy := Clone(entries[kind]);
        return Some(copy);
      }
      row := None;
    }
  }

  ghost function ListsOf(entries: map<string, HeapRow>): set<array<string>> {
    (set k | k in entries :: entries[k].requiredAdapters) + (set k | k in entries :: entries[k].cleanup.childKinds)
  }

  lemma SameListsOwned(entries: map<string, HeapRow>, kind: string, entity: HeapRow)
    requires kind in entries && SameLists(entity, entries[kind])
    ensures ListsOf(entries[kind := entity]) == ListsOf(entries)
  {
    var next := entries[kind := entity];
    assert forall k :: k in entries ==> SameLists(next[k], entries[k]);
  }

  lemma AnyOrder(keys: set<string>) returns (order: seq<string>)
    ensures Enumerates(order, keys)
  {
    if keys == {} {
      order := [];
    } else {
      var first :| first in keys;
      order := OrderStartingWith(keys, first);
    }
  }

  lemma IndexStep(rows: seq<Row>, i: nat, entries: Table, plurals: set<string>)
    requires i < |rows|
    ensures IndexRows(rows[i..], entries, plurals) ==
            var e := rows[i];
            match NameProblem(e, entries, plurals)
            case Some(problem) => Err(problem)
            case None => IndexRows(rows[i + 1..], entries[e.kind := e], plurals + {e.plural})
  {
    assert rows[i..][1..] == rows[i + 1..];
  }

  lemma DistinctTogether<T(!new)>(s: seq<T>, u: seq<T>)
    requires Distinct(s) && Distinct(u) && forall k :: k in s ==> k !in u
    ensures Distinct(s + u)
  {
    forall i, j | 0 <= i < j < |s + u| ensures (s + u)[i] != (s + u)[j] {
      if i < |s| <= j { assert s[i] in s && u[j - |s|] in u; }
    }
  }

  /** What building from these rows gives, said without its steps. */
  lemma Consequences(rows: seq<Row>, order: seq<string>)
    requires Enumerates(order, Kinds(rows))
    ensures Build(rows, order).Ok? <==> Acceptable(rows)
    ensures Build(rows, order).Ok? ==> Build(rows, order).value == ResolveAll(ByKind(rows))
    ensures Build(rows, order).Ok? ==> FilledIn(rows, Build(rows, order).value)
    ensures Build(rows, order).Err? ==> FirstReported(rows, order, Build(rows, order).error)
  {
    AcceptedIffAcceptable(rows, order);
    if Build(rows, order).Ok? {
      CatalogIsFilledIn(rows, order);
    } else {
      FirstProblemReported(rows, order);
    }
  }

  lemma BuildRanges(rows: seq<Row>, t: Table, order: seq<string>)
    requires IndexRows(rows, map[], {}) == Ok(t) && Enumerates(order, t.Keys)
    ensures Enumerates(order, Kinds(rows)) && Build(rows, order) == ResolveInOrder(t, order)
  {
    IndexRowsCorrect(rows, map[], {});
    assert map[] + ByKind(rows) == ByKind(rows);
    assert t.Keys == Kinds(rows);
  }

  /** Midway through the range: visited kinds are resolved, the kinds still ahead are as they were. */
  ghost predicate Ranged(t: Table, now: Table, visited: seq<string>, ahead: set<string>) {
    && now.Keys == t.Keys && ahead <= t.Keys
    && Enumerates(visited, t.Keys - ahead)
    && (forall k :: k in t ==> now[k] == if k in ahead then t[k] else ResolveRow(t, t[k]))
    && (forall k :: k in visited ==> RowProblem(t, k, t[k]).None?)
  }

  lemma RangedStep(t: Table, now: Table, visited: seq<string>, ahead: set<string>, kind: string)
    requires Ranged(t, now, visited, ahead) && kind in ahead
    ensures RowProblem(now, kind, now[kind]) == RowProblem(t, kind, t[kind])
    ensures RowProblem(t, kind, t[kind]).None? ==>
              Ranged(t, now[kind := ResolveRow(now, now[kind])], visited + [kind], ahead - {kind})
  {
    assert SameRoutes(t, now);
    ChecksReadOnlyRoutes(t, now, kind, t[kind]);
    EnumerationGrows(visited, t.Keys - ahead, kind);
    assert t.Keys - ahead + {kind} == t.Keys - (ahead - {kind});
  }

  lemma RangedAll(t: Table, now: Table, visited: seq<string>)
    requires Ranged(t, now, visited, {})
    ensures now == ResolveAll(t) && ResolveInOrder(t, visited) == Ok(now)
  {
    RangeOutcome(t, t, visited);
  }

  lemma EnumerationGrows(order: seq<string>, done: set<string>, kind: string)
    requires Enumerates(order, done) && kind !in done
    ensures Enumerates(order + [kind], done + {kind})
  {
    DistinctTogether(order, [kind]);
  }

  /** A range that meets a rejected kind reports it, in whatever order the rest would have come. */
  lemma RangeStops(t: Table, now: Table, visited: seq<string>, kind: string, ahead: set<string>)
    returns (order: seq<string>)
    requires Ranged(t, now, visited, ahead) && kind in ahead
    requires RowProblem(t, kind, t[kind]).Some?
    ensures Enumerates(order, t.Keys)
    ensures ResolveInOrder(t, order) == Err(RowProblem(t, kind, t[kind]).value)
  {
    var rest := AnyOrder(ahead - {kind});
    order := visited + [kind] + rest;
    EnumerationGrows(visited, t.Keys - ahead, kind);
    DistinctTogether(visited + [kind], rest);
    assert forall k :: k in order <==> k in visited || k == kind || k in rest;
    RangeOutcome(t, t, order);
    FirstProblemAt(t, visited, kind, rest);
  }

  lemma {:induction false} FirstProblemAt(t: Table, before: seq<string>, kind: string, rest: seq<string>)
    requires forall k :: k in before || k == kind || k in rest ==> k in t
    requires forall k :: k in before ==> RowProblem(t, k, t[k]).None?
    requires RowProblem(t, kind, t[kind]).Some?
    ensures FirstProblem(t, before + [kind] + rest) == RowProblem(t, kind, t[kind])
  {
    var order := before + [kind] + rest;
    if before == [] {
      assert order[0] == kind;
    } else {
      assert order[0] == before[0] && before[0] in before;
      assert order[1..] == before[1..] + [kind] + rest;
      assert forall k :: k in before[1..] ==> k in before;
      FirstProblemAt(t, before[1..], kind, rest);
      assert FirstProblem(t, order) == FirstProblem(t, order[1..]);
    }
  }

  /** What a spec may do with a catalog: look kinds up, and write to any list it can reach, whether one of the
      rows the catalog was built from or one an earlier lookup returned. */
  datatype Step =
    | LookUp(kind: string)
    | Write(list: nat, index: nat, name: string)

  /** Nothing a caller can reach is owned by the catalog. */
  ghost predicate Apart(catalog: Catalog, reachable: seq<array<string>>)
    reads catalog
  {
    forall a :: a in reachable ==> a !in catalog.Owned()
  }

  /** One step of a spec. A write outside a list panics in Go and changes nothing here. */
  method Act(catalog: Catalog, reachable: seq<array<string>>, step: Step)
    returns (answer: Option<Row>, reachable': seq<array<string>>)
    requires Apart(catalog, reachable)
    modifies Members(reachable)
    ensures catalog.View() == old(catalog.View()) && Apart(catalog, reachable')
    ensures forall a :: a in reachable' ==> a in reachable || fresh(a)
    ensures step.LookUp? ==> answer == Find(catalog.View(), step.kind)
  {
    answer, reachable' := None, reachable;
    match step {
      case LookUp(kind) =>
        var row := catalog.Lookup(kind);
        if row.Some? {
          reachable' := reachable + [row.value.requiredAdapters, row.value.cleanup.childKinds];
          answer := Some(Contents(row.value));
        }
      case Write(list, index, name) =>
        if list < |reachable| && index < reachable[list].Length {
          var target := reachable[list];
          assert target !in catalog.Owned();
          target[index] := name;
        }
    }
  }

  method BuildApart(rows: seq<HeapRow>, ghost source: seq<Row>) returns (built: Option<Catalog>)
    requires source == ContentsOf(rows)
    ensures built.Some? <==> Acceptable(source)
    ensures built.Some? ==> fresh(built.value) && built.value.Owned() !! AllLists(rows)
    ensures built.Some? ==> built.value.View() == ResolveAll(ByKind(source))
  {
    var catalog, _ := Catalog.NewCatalog(rows);
    assert ContentsOf(rows) == source;
    built := if catalog.Ok? then Some(catalog.value) else None;
  }

  /** The run itself, on a catalog that shares nothing with the rows. */
  method RunOn(catalog: Catalog, rows: seq<HeapRow>, script: seq<Step>) returns (answers: seq<Option<Row>>)
    requires catalog.Owned() !! AllLists(rows)
    modifies AllLists(rows)
    ensures |answers| == |script|
    ensures forall i :: 0 <= i < |script| && script[i].LookUp? ==>
              answers[i] == Find(old(catalog.View()), script[i].kind)
  {
    var reachable := ReachableLists(rows);
    assert Members(reachable) == AllLists(rows);
    answers := RunScript(catalog, reachable, script);
  }

  ghost function Members(lists: seq<array<string>>): set<array<string>> {
    set a | a in lists
  }

  method RunScript(catalog: Catalog, reachable: seq<array<string>>, script: seq<Step>)
    returns (answers: seq<Option<Row>>)
    requires Apart(catalog, reachable)
    modifies Members(reachable)
    ensures |answers| == |script|
    ensures forall i :: 0 <= i < |script| && script[i].LookUp? ==>
              answers[i] == Find(old(catalog.View()), script[i].kind)
  {
    answers := [];
    var reached := reachable;
    for i := 0 to |script|
      invariant |answers| == i
      invariant catalog.View() == old(catalog.View()) && Apart(catalog, reached)
      invariant forall a :: a in reached ==> a in reachable || fresh(a)
      invariant forall j :: 0 <= j < i && script[j].LookUp? ==>
              answers[j] == Find(old(catalog.View()), script[j].kind)
    {
      var answer;
      answer, reached := Act(catalog, reached, script[i]);
      answers := answers + [answer];
    }
  }

  function Find(t: Table, kind: string): Option<Row> {
    if kind in t then Some(t[kind]) else None
  }

  method ReachableLists(rows: seq<HeapRow>) returns (lists: seq<array<string>>)
    ensures forall a :: a in lists <==> a in AllLists(rows)
  {
    lists := [];
    assert rows[..|rows|] == rows;
    for i := 0 to |rows|
      invariant forall a :: a in lists <==> a in AllLists(rows[..i])
    {
      assert rows[..i + 1] == rows[..i] + [rows[i]];
      lists := lists + [rows[i].requiredAdapters, rows[i].cleanup.childKinds];
    }
  }

  /** No run of lookups and writes changes what a later lookup returns. */
  method RunSpec(rows: seq<HeapRow>, script: seq<Step>) returns (answers: Option<seq<Option<Row>>>)
    modifies AllLists(rows)
    ensures answers.Some? <==> Acceptable(old(ContentsOf(rows)))
    ensures answers.Some? ==> |answers.value| == |script|
    ensures answers.Some? ==> forall i :: 0 <= i < |script| && script[i].LookUp? ==>
              answers.value[i] == Find(ResolveAll(ByKind(old(ContentsOf(rows)))), script[i].kind)
  {
    var built := BuildApart(rows, ContentsOf(rows));
    if built.Some? {
      var list := RunOn(built.value, rows, script);
      answers := Some(list);
    } else {
      answers := None;
    }
  }
}
