/** What every run of CleanupTestResource has in common, whatever the server answers. */
module TeardownTheorems {
  import opened Sequences
  import opened Descriptor
  import opened Forest
  import opened Paths
  import opened Sorting
  import opened Teardown

  // ---------------------------------------------------------------- which requests, in which order

  function KindsListedBy(e: Event): seq<string> {
    if e.purpose.ListChildren? then [e.purpose.kind] else []
  }

  function ListedKinds(run: seq<Event>): seq<string> {
    FlatMap(KindsListedBy, run)
  }

  datatype Target = Target(kind: string, id: string)

  function Targets(kind: string, ids: seq<string>): (targets: seq<Target>)
    ensures |targets| == |ids| && forall j :: 0 <= j < |ids| ==> targets[j] == Target(kind, ids[j])
  {
    seq(|ids|, j requires 0 <= j < |ids| => Target(kind, ids[j]))
  }

  function ListedBy(e: Event): seq<Target> {
    if e.purpose.ListChildren? && ListResult(e.reply).Ok?
    then Targets(e.purpose.kind, LiveIDs(ListResult(e.reply).value)) else []
  }

  /** The live children the server listed, in the order it listed them. */
  function ListedChildren(run: seq<Event>): seq<Target> {
    FlatMap(ListedBy, run)
  }

  function DeletedBy(e: Event): seq<Target> {
    if e.purpose.DeleteChild? then [Target(e.purpose.kind, e.purpose.id)] else []
  }

  function DeletedChildren(run: seq<Event>): seq<Target> {
    FlatMap(DeletedBy, run)
  }

  lemma {:induction false} AccountOfDeletes(run: seq<Event>, kind: string, child: Row, resourceID: string,
                                            ids: seq<string>)
    requires DeletesInOrder(run, kind, child, resourceID, ids)
    ensures ListedKinds(run) == [] && ListedChildren(run) == []
    ensures DeletedChildren(run) == Targets(kind, ids)
  {
    if run != [] {
      assert DeletesInOrder(run[1..], kind, child, resourceID, ids[1..]);
      AccountOfDeletes(run[1..], kind, child, resourceID, ids[1..]);
      assert IsChildDelete(run[0], kind, child, resourceID, ids[0]);
      assert Targets(kind, ids) == [Target(kind, ids[0])] + Targets(kind, ids[1..]);
    }
  }

  predicate AboutChildren(run: seq<Event>) {
    forall i :: 0 <= i < |run| ==> run[i].purpose.ListChildren? || run[i].purpose.DeleteChild?
  }

  predicate ListFailedIn(e: Event) {
    e.purpose.ListChildren? && ListResult(e.reply).Err?
  }

  lemma SplitRun(t: Table, resourceID: string, kinds: seq<string>, run: seq<Event>, end: ChildrenEnd)
    returns (deletes: seq<Event>, rest: seq<Event>, ids: seq<string>)
    requires ChildrenRun(t, resourceID, kinds, run, end)
    requires kinds != [] && kinds[0] in t && ListResult(run[0].reply).Ok?
    ensures run == [run[0]] + deletes + rest && IsList(run[0], kinds[0], t[kinds[0]], resourceID)
    ensures ids == LiveIDs(ListResult(run[0].reply).value)
    ensures DeletesInOrder(deletes, kinds[0], t[kinds[0]], resourceID, ids)
    ensures ChildrenRun(t, resourceID, kinds[1..], rest, end)
  {
    ids := LiveIDs(ListResult(run[0].reply).value);
    deletes, rest := run[1..1 + |ids|], run[1 + |ids|..];
  }

  /** The kinds are listed once each, in order, up to the one that ends the walk; exactly the live children with an
      ID are deleted, once for each listing, in list order. */
  lemma {:induction false} ChildRequests(t: Table, resourceID: string, kinds: seq<string>, run: seq<Event>,
                                         end: ChildrenEnd)
    requires ChildrenRun(t, resourceID, kinds, run, end)
    ensures ListedKinds(run) <= kinds && (end.Complete? ==> ListedKinds(run) == kinds)
    ensures DeletedChildren(run) == ListedChildren(run)
  {
    if kinds != [] && kinds[0] in t && ListResult(run[0].reply).Ok? {
      var deletes, rest, ids := SplitRun(t, resourceID, kinds, run, end);
      ChildRequests(t, resourceID, kinds[1..], rest, end);
      AccountOfDeletes(deletes, kinds[0], t[kinds[0]], resourceID, ids);
      AccountOfKind(run[0], deletes, rest, kinds[0], ids);
      assert kinds == [kinds[0]] + kinds[1..];
    } else if kinds != [] && kinds[0] in t {
      assert run == [run[0]];
      FlatMapOne(KindsListedBy, run[0]);
      FlatMapOne(ListedBy, run[0]);
      FlatMapOne(DeletedBy, run[0]);
    }
  }

  lemma AccountOfKind(listed: Event, deletes: seq<Event>, rest: seq<Event>, kind: string, ids: seq<string>)
    requires listed.purpose == ListChildren(kind) && ListResult(listed.reply).Ok?
    requires ids == LiveIDs(ListResult(listed.reply).value)
    requires ListedKinds(deletes) == [] && ListedChildren(deletes) == []
            && DeletedChildren(deletes) == Targets(kind, ids)
    ensures var run := [listed] + deletes + rest;
            && ListedKinds(run) == [kind] + ListedKinds(rest)
            && ListedChildren(run) == Targets(kind, ids) + ListedChildren(rest)
            && DeletedChildren(run) == Targets(kind, ids) + DeletedChildren(rest)
  {
    var head := [listed] + deletes;
    HeadOfKind(listed, deletes, kind, ids);
    FlatMapAppend(KindsListedBy, head, rest);
    FlatMapAppend(ListedBy, head, rest);
    FlatMapAppend(DeletedBy, head, rest);
  }

  lemma HeadOfKind(listed: Event, deletes: seq<Event>, kind: string, ids: seq<string>)
    requires listed.purpose == ListChildren(kind) && ListResult(listed.reply).Ok?
    requires ids == LiveIDs(ListResult(listed.reply).value)
    requires ListedKinds(deletes) == [] && ListedChildren(deletes) == []
            && DeletedChildren(deletes) == Targets(kind, ids)
    ensures var head := [listed] + deletes;
            && ListedKinds(head) == [kind]
            && ListedChildren(head) == Targets(kind, ids)
            && DeletedChildren(head) == Targets(kind, ids)
  {
    var head := [listed] + deletes;
    assert head[0] == listed && head[1..] == deletes;
    assert ListedKinds(head) == [kind] + [];
    assert ListedChildren(head) == ListedBy(listed) + [];
    assert DeletedChildren(head) == [] + Targets(kind, ids);
  }

  /** Only the last request about children may be a failed list, and then it is what ended the walk. */
  lemma {:induction false} ListFailureEnds(t: Table, resourceID: string, kinds: seq<string>, run: seq<Event>,
                                           end: ChildrenEnd)
    requires ChildrenRun(t, resourceID, kinds, run, end)
    ensures AboutChildren(run)
    ensures forall i :: 0 <= i < |run| && ListFailedIn(run[i]) ==> i == |run| - 1
    ensures end.ListFailed? <==> run != [] && ListFailedIn(run[|run| - 1])
    ensures end.ListFailed? ==>
              Err(end.error) == ListResult(run[|run| - 1].reply) && end.kind == run[|run| - 1].purpose.kind
    ensures end.UnknownKind? ==> end.kind in kinds && end.kind !in t
  {
    if kinds != [] && kinds[0] in t && ListResult(run[0].reply).Ok? {
      var deletes, rest, ids := SplitRun(t, resourceID, kinds, run, end);
      ListFailureEnds(t, resourceID, kinds[1..], rest, end);
      DeletesAreNotLists(deletes, kinds[0], t[kinds[0]], resourceID, ids);
      FailuresAfter(run[0], deletes, rest);
      assert kinds == [kinds[0]] + kinds[1..];
    } else if kinds != [] && kinds[0] in t {
      assert run == [run[0]];
    }
  }

  lemma FailuresAfter(listed: Event, deletes: seq<Event>, rest: seq<Event>)
    requires listed.purpose.ListChildren? && !ListFailedIn(listed)
    requires forall i :: 0 <= i < |deletes| ==> deletes[i].purpose.DeleteChild?
    requires AboutChildren(rest) && forall i :: 0 <= i < |rest| && ListFailedIn(rest[i]) ==> i == |rest| - 1
    ensures var run := [listed] + deletes + rest;
            && AboutChildren(run)
            && (forall i :: 0 <= i < |run| && ListFailedIn(run[i]) ==> i == |run| - 1)
            && (ListFailedIn(run[|run| - 1]) <==> rest != [] && ListFailedIn(rest[|rest| - 1]))
            && (rest != [] ==> run[|run| - 1] == rest[|rest| - 1])
  {
    var run, n := [listed] + deletes + rest, 1 + |deletes|;
    assert forall i :: 1 <= i < n ==> run[i] == deletes[i - 1];
    assert forall i :: n <= i < |run| ==> run[i] == rest[i - n];
  }

  lemma DeletesAreNotLists(run: seq<Event>, kind: string, child: Row, resourceID: string, ids: seq<string>)
    requires DeletesInOrder(run, kind, child, resourceID, ids)
    ensures forall i :: 0 <= i < |run| ==> run[i].purpose.DeleteChild?
  {
    forall i | 0 <= i < |run| ensures run[i].purpose.DeleteChild? {
      assert IsChildDelete(run[i], kind, child, resourceID, ids[i]);
    }
  }

  /** The parent is deleted once, after everything done to its children, and exactly when every child kind is known
      and every list succeeded. Polls come only after an accepted delete of an entity that waits for hard-delete. */
  lemma RequestOrder(t: Table, entity: Row, parentID: string, resourceID: string, interval: int, run: Run, i: nat)
    requires ValidRun(t, entity, parentID, resourceID, interval, run) && i < |EventsOf(run)|
    ensures run.parent.Some? <==>
            && (forall k :: k in entity.cleanup.childKinds ==> k in t)
            && (forall e :: e in run.children ==> !ListFailedIn(e))
    ensures EventsOf(run)[i].purpose.DeleteParent? <==> run.parent.Some? && i == |run.children|
    ensures i < |run.children| ==> EventsOf(run)[i].purpose.ListChildren? || EventsOf(run)[i].purpose.DeleteChild?
    ensures EventsOf(run)[i].purpose.PollParent? ==>
              i > |run.children| && DeleteResult(EventsOf(run)[|run.children|].reply).None?
              && entity.cleanup.waitForHardDelete
  {
    ParentIffListed(t, entity, parentID, resourceID, interval, run);
    ListFailureEnds(t, resourceID, entity.cleanup.childKinds, run.children, run.end);
    if i < |run.children| {
      assert EventsOf(run)[i] == run.children[i];
    } else if run.parent.Some? && i > |run.children| {
      assert EventsOf(run)[i] == run.polls[i - |run.children| - 1];
    }
  }

  lemma ParentIffListed(t: Table, entity: Row, parentID: string, resourceID: string, interval: int, run: Run)
    requires ValidRun(t, entity, parentID, resourceID, interval, run)
    ensures run.parent.Some? <==>
            && (forall k :: k in entity.cleanup.childKinds ==> k in t)
            && (forall e :: e in run.children ==> !ListFailedIn(e))
  {
    var kinds := entity.cleanup.childKinds;
    ListFailureEnds(t, resourceID, kinds, run.children, run.end);
    if run.end.Complete? {
      KnownWhenComplete(t, resourceID, kinds, run.children);
    }
  }

  lemma {:induction false} KnownWhenComplete(t: Table, resourceID: string, kinds: seq<string>, run: seq<Event>)
    requires ChildrenRun(t, resourceID, kinds, run, Complete)
    ensures forall k :: k in kinds ==> k in t
  {
    if kinds != [] {
      KnownWhenComplete(t, resourceID, kinds[1..], run[1 + |LiveIDs(ListResult(run[0].reply).value)|..]);
      assert kinds == [kinds[0]] + kinds[1..];
    }
  }

  /** What the server sees of an event about children: a list is a GET, and a delete goes to a child's own path. */
  ghost predicate ChildRequest(t: Table, kinds: seq<string>, resourceID: string, e: Event) {
    match e.purpose
    case ListChildren(kind) => e.request.verb == GET
    case DeleteChild(kind, id) => kind in kinds && kind in t && IsChildDelete(e, kind, t[kind], resourceID, id)
    case _ => false
  }

  lemma {:induction false} RequestsAboutChildren(t: Table, resourceID: string, kinds: seq<string>, run: seq<Event>,
                                                 end: ChildrenEnd)
    requires ChildrenRun(t, resourceID, kinds, run, end)
    ensures forall i :: 0 <= i < |run| ==> ChildRequest(t, kinds, resourceID, run[i])
  {
    if kinds != [] && kinds[0] in t && ListResult(run[0].reply).Ok? {
      var deletes, rest, ids := SplitRun(t, resourceID, kinds, run, end);
      RequestsAboutChildren(t, resourceID, kinds[1..], rest, end);
      RequestsOfKind(t, resourceID, kinds, run[0], deletes, rest, ids);
    }
  }

  lemma RequestsOfKind(t: Table, resourceID: string, kinds: seq<string>, listed: Event, deletes: seq<Event>,
                       rest: seq<Event>, ids: seq<string>)
    requires kinds != [] && kinds[0] in t && IsList(listed, kinds[0], t[kinds[0]], resourceID)
    requires DeletesInOrder(deletes, kinds[0], t[kinds[0]], resourceID, ids)
    requires forall i :: 0 <= i < |rest| ==> ChildRequest(t, kinds[1..], resourceID, rest[i])
    ensures var run := [listed] + deletes + rest;
            forall i :: 0 <= i < |run| ==> ChildRequest(t, kinds, resourceID, run[i])
  {
    var run, n := [listed] + deletes + rest, 1 + |deletes|;
    forall i | 0 <= i < |run| ensures ChildRequest(t, kinds, resourceID, run[i]) {
      if 1 <= i < n {
        assert run[i] == deletes[i - 1] && IsChildDelete(deletes[i - 1], kinds[0], t[kinds[0]], resourceID, ids[i - 1]);
      } else if n <= i {
        assert run[i] == rest[i - n] && ChildRequest(t, kinds[1..], resourceID, rest[i - n]);
      }
    }
  }

  /** Of the requests the server sees, the parent's own path is deleted by the one after all those about its children
      and by no other, whatever the IDs hold. */
  lemma OneDeleteOfParent(rows: seq<Row>, order: seq<string>, kind: string, parentID: string, resourceID: string,
                          interval: int, run: Run, i: nat)
    requires Enumerates(order, Kinds(rows)) && Build(rows, order).Ok? && kind in Build(rows, order).value
    requires var t := Build(rows, order).value; ValidRun(t, t[kind], parentID, resourceID, interval, run)
    requires i < |EventsOf(run)|
    ensures EventsOf(run)[i].request
            == Request(DELETE, ResourcePath(Build(rows, order).value[kind], parentID, resourceID))
            <==> run.parent.Some? && i == |run.children|
  {
    var t := Build(rows, order).value;
    RequestsAboutChildren(t, resourceID, t[kind].cleanup.childKinds, run.children, run.end);
    if i < |run.children| {
      var e := EventsOf(run)[i];
      assert e == run.children[i] && ChildRequest(t, t[kind].cleanup.childKinds, resourceID, e);
      if e.purpose.DeleteChild? {
        AcceptedIsLinked(rows, order);
        ChildPathDiffers(t, kind, parentID, resourceID, e.purpose.kind, e.purpose.id);
      }
    } else if run.parent.Some? && i > |run.children| {
      assert EventsOf(run)[i] == run.polls[i - |run.children| - 1];
    }
  }

  /** A row's parent is another kind, whose plural its path begins with. */
  ghost predicate LinkedUp(t: Table, k: string)
    requires k in t
  {
    var parent := t[k].parentKind;
    parent != "" ==> parent in t && parent != k && t[k].parentPlural == t[parent].plural
  }

  ghost predicate LinkedDown(t: Table, k: string)
    requires k in t
  {
    forall c :: c in t[k].cleanup.childKinds ==> c in t && t[c].parentKind == k
  }

  ghost predicate Linked(t: Table) {
    "" !in t && Routable(t) && forall k :: k in t ==> LinkedUp(t, k) && LinkedDown(t, k)
  }

  lemma AcceptedIsLinked(rows: seq<Row>, order: seq<string>)
    requires Enumerates(order, Kinds(rows)) && Build(rows, order).Ok?
    ensures Linked(Build(rows, order).value)
  {
    AcceptedIsRoutable(rows, order);
    AcceptedIffAcceptable(rows, order);
    var source := IndexOf(rows);
    RowsAndTableAgree(source, rows);
    var rank :| Ranks(rank, source);
    forall k | k in source ensures LinkedUp(ResolveAll(source), k) && LinkedDown(ResolveAll(source), k) {
      ResolvedIsLinked(source, rank, k);
    }
  }

  lemma ResolvedIsLinked(source: Table, rank: map<string, nat>, k: string)
    requires "" !in source && TableParentsKnown(source) && TableChildrenOwned(source) && Ranks(rank, source)
    requires k in source
    ensures LinkedUp(ResolveAll(source), k) && LinkedDown(ResolveAll(source), k)
  {
    var t := ResolveAll(source);
    assert t[k] == ResolveRow(source, source[k]);
    if source[k].parentKind != "" { assert rank[source[k].parentKind] < rank[k]; }
  }

  lemma ChildPathDiffers(t: Table, kind: string, parentID: string, resourceID: string, child: string, id: string)
    requires Linked(t) && kind in t && child in t[kind].cleanup.childKinds
    ensures ResourcePath(t[kind], parentID, resourceID) != ResourcePath(t[child], resourceID, id)
  {
    var e, c := t[kind], t[child];
    assert LinkedUp(t, kind) && LinkedDown(t, kind) && LinkedUp(t, child);
    assert c.parentKind == kind && c.parentPlural == e.plural;
    if e.parentKind == "" {
      assert |ResourcePath(e, parentID, resourceID)| < |ResourcePath(c, resourceID, id)|;
    } else {
      assert e.parentPlural != e.plural;
      var rest := AfterParent(e, parentID, resourceID);
      var rest' := AfterParent(c, resourceID, id);
      StartsDiffer(e.parentPlural, rest, e.plural, rest');
    }
  }

  lemma AfterParent(e: Row, parentID: string, resourceID: string) returns (rest: string)
    requires e.parentKind != ""
    ensures ResourcePath(e, parentID, resourceID) == e.parentPlural + "/" + rest
  {
    var middle := "/" + e.plural + "/";
    ChildPath(e, parentID, resourceID);
    rest := parentID + middle + resourceID;
    Regroup(e.parentPlural + "/", parentID + middle, resourceID);
    Regroup(e.parentPlural + "/", parentID, middle);
  }

  lemma StartsDiffer(a: string, r: string, b: string, s: string)
    requires OneSegment(a) && OneSegment(b) && a != b
    ensures a + "/" + r != b + "/" + s
  {
    if a + "/" + r == b + "/" + s { FirstSegment(a, r, b, s); }
  }

  // ---------------------------------------------------------------- when the cleanup succeeds

  /** A child list answered 404: the parent was gone before its children could be listed. */
  predicate ListFoundNoParent(run: Run) {
    run.children != []
    && var last := run.children[|run.children| - 1];
       last.purpose.ListChildren? && last.reply.Answer? && last.reply.status == 404
  }

  predicate ChildDeletesFine(run: Run) {
    forall e :: e in run.children && e.purpose.DeleteChild? ==>
      DeleteResult(e.reply) in {None, Some(HTTPError(404))}
  }

  predicate ParentDeleteFine(entity: Row, run: Run) {
    && run.parent.Some?
    && (DeleteResult(run.parent.value.reply).Some? ==> Tolerated(entity, DeleteResult(run.parent.value.reply).value))
  }

  predicate HardDeleteSeen(run: Run) {
    run.polls != [] && Gone(run.polls[|run.polls| - 1].reply)
  }

  /** Cleanup succeeds exactly when a child list answered 404, or every list succeeded, every child delete was accepted
      or answered 404, the parent delete was accepted or tolerated, and a required poll saw 404. */
  lemma SucceedsIff(t: Table, entity: Row, parentID: string, resourceID: string, interval: int, run: Run)
    requires ValidRun(t, entity, parentID, resourceID, interval, run)
    ensures ResultOf(entity, run).None? <==>
            || ListFoundNoParent(run)
            || (ChildDeletesFine(run) && ParentDeleteFine(entity, run)
                && (ParentAccepted(run) && entity.cleanup.waitForHardDelete ==> HardDeleteSeen(run)))
  {
    NoParentIff(t, entity, parentID, resourceID, interval, run);
    ChildDeletesFineIff(run);
    assert PollFailure(run.polls).None? <==> HardDeleteSeen(run);
  }

  lemma NoParentIff(t: Table, entity: Row, parentID: string, resourceID: string, interval: int, run: Run)
    requires ValidRun(t, entity, parentID, resourceID, interval, run)
    ensures ListFoundNoParent(run) <==> run.end.ListFailed? && run.end.error == HTTPError(404)
  {
    ListFailureEnds(t, resourceID, entity.cleanup.childKinds, run.children, run.end);
    if ListFoundNoParent(run) { assert ListFailedIn(run.children[|run.children| - 1]); }
  }

  lemma ChildDeletesFineIff(run: Run)
    ensures ChildDeletesFine(run) <==> FirstChildFailure(run.children).None?
  {
    assert forall e :: e in run.children ==>
        (ChildFailure(e).None? <==> (e.purpose.DeleteChild? ==> DeleteResult(e.reply) in {None, Some(HTTPError(404))}));
  }

  lemma {:induction false} FirstFailureIsFirst(run: seq<Event>) returns (i: nat)
    requires FirstChildFailure(run).Some?
    ensures i < |run| && FirstChildFailure(run) == ChildFailure(run[i])
    ensures forall j :: 0 <= j < i ==> ChildFailure(run[j]).None?
  {
    if ChildFailure(run[0]).Some? {
      i := 0;
    } else {
      var j := FirstFailureIsFirst(run[1..]);
      i := j + 1;
    }
  }

  /** A failed child delete is what the caller gets only when nothing else failed: an error of a list, of the parent
      delete or of the poll wins over it. Of several, the first is kept. */
  lemma ChildErrorComesLast(t: Table, entity: Row, parentID: string, resourceID: string, interval: int, run: Run,
                            f: Failure)
    requires ValidRun(t, entity, parentID, resourceID, interval, run) && f.ChildDeleteError?
    ensures ResultOf(entity, run) == Some(f) <==>
            && ParentDeleteFine(entity, run)
            && (ParentAccepted(run) && entity.cleanup.waitForHardDelete ==> HardDeleteSeen(run))
            && exists i :: 0 <= i < |run.children| && ChildFailure(run.children[i]) == Some(f)
                           && forall j :: 0 <= j < i ==> ChildFailure(run.children[j]).None?
  {
    assert PollFailure(run.polls).None? <==> HardDeleteSeen(run);
    if FirstChildFailure(run.children).Some? {
      var i := FirstFailureIsFirst(run.children);
      assert FirstChildFailure(run.children) == Some(f) ==> ChildFailure(run.children[i]) == Some(f);
      forall k | 0 <= k < |run.children| && ChildFailure(run.children[k]) == Some(f)
                 && forall j :: 0 <= j < k ==> ChildFailure(run.children[j]).None?
        ensures k == i
      {
      }
    }
  }

  /** A failed child delete goes unreported exactly when a later child list answers 404, and otherwise some error is
      returned. */
  lemma ChildFailureUnreportedIff(t: Table, entity: Row, parentID: string, resourceID: string, interval: int, run: Run)
    requires ValidRun(t, entity, parentID, resourceID, interval, run) && FirstChildFailure(run.children).Some?
    ensures ResultOf(entity, run).None? <==> ListFoundNoParent(run)
  {
    SucceedsIff(t, entity, parentID, resourceID, interval, run);
    ChildDeletesFineIff(run);
  }

  /** That happens: the first of two child kinds has a child whose delete is refused, and by the time the second is
      listed the parent is gone. */
  lemma ChildFailureCanGoUnreported(t: Table, entity: Row, parentID: string, resourceID: string, interval: int,
                                    id: string, now: int) returns (run: Run)
    requires |entity.cleanup.childKinds| == 2 && forall k :: k in entity.cleanup.childKinds ==> k in t
    ensures ValidRun(t, entity, parentID, resourceID, interval, run)
    ensures FirstChildFailure(run.children).Some? && ResultOf(entity, run).None?
  {
    var a, b := entity.cleanup.childKinds[0], entity.cleanup.childKinds[1];
    var listed := Event(ListChildren(a), Request(GET, CollectionPath(t[a], resourceID)), now,
                        Answer(200, true, [Item(Some(id), false)]));
    var refused := Event(DeleteChild(a, id), Request(DELETE, ResourcePath(t[a], resourceID, id)), now,
                         Answer(500, true, []));
    var missing := Event(ListChildren(b), Request(GET, CollectionPath(t[b], resourceID)), now, Answer(404, true, []));
    assert LiveIDs([Item(Some(id), false)]) == [id] by { assert [Item(Some(id), false)][1..] == []; }
    OneKindRun(t, resourceID, a, listed, [refused]);
    AppendRun(t, resourceID, [a], [listed] + [refused], [b], [missing], ListFailed(b, HTTPError(404)));
    assert [a] + [b] == entity.cleanup.childKinds;
    run := Run([listed] + [refused] + [missing], ListFailed(b, HTTPError(404)), None, [], now, now);
    FirstFailureAppend([listed] + [refused], [missing]);
    FirstFailureAppend([listed], [refused]);
    assert FirstChildFailure([refused]) == ChildFailure(refused) && ChildFailure(refused).Some?;
    assert [listed][1..] == [];
  }

  /** For a kind of an accepted catalog, the child lookups of a cleanup never fail. */
  lemma ChildLookupsSucceed(rows: seq<Row>, order: seq<string>, kind: string, parentID: string, resourceID: string,
                            interval: int, run: Run)
    requires Enumerates(order, Kinds(rows)) && Build(rows, order).Ok? && kind in Build(rows, order).value
    requires var t := Build(rows, order).value; ValidRun(t, t[kind], parentID, resourceID, interval, run)
    ensures !run.end.UnknownKind?
  {
    AcceptedIffAcceptable(rows, order);
    var source := IndexOf(rows);
    ChildrenAgree(source, rows);
    var t := Build(rows, order).value;
    ListFailureEnds(t, resourceID, t[kind].cleanup.childKinds, run.children, run.end);
    assert TableChildrenOwned(source);
    assert t[kind].cleanup.childKinds == source[kind].cleanup.childKinds;
  }

  // ---------------------------------------------------------------- polling

  lemma {:induction false} PollsSpread(path: string, start: int, timeout: int, interval: int, polls: seq<Event>, i: nat)
    requires PollRun(path, start, timeout, interval, polls) && i < |polls|
    ensures polls[i].sent >= start + i * interval
  {
    if i > 0 { PollsSpread(path, start, timeout, interval, polls, i - 1); }
  }

  /** At most one poll fits in each interval of the timeout, and none when the timeout is not positive. */
  lemma PollsAreBounded(path: string, start: int, timeout: int, interval: int, polls: seq<Event>)
    requires PollRun(path, start, timeout, interval, polls) && interval > 0
    ensures |polls| <= if timeout <= 0 then 0 else (timeout + interval - 1) / interval
  {
    if polls != [] {
      var n := |polls| - 1;
      PollsSpread(path, start, timeout, interval, polls, n);
      assert n * interval < timeout;
      CeilingBound(n, timeout, interval);
    }
  }

  lemma CeilingBound(n: nat, timeout: int, interval: int)
    requires interval > 0 && n * interval < timeout
    ensures n + 1 <= (timeout + interval - 1) / interval
  {
    var q := (timeout + interval - 1) / interval;
    assert (n + 1) * interval < (q + 1) * interval;
  }

  /** The poll loop, whose polls all begin before the deadline, succeeds exactly when one of them answered 404 after
      only statuses below 400. */
  lemma PollSucceedsIff(path: string, start: int, timeout: int, interval: int, polls: seq<Event>)
    requires PollRun(path, start, timeout, interval, polls)
    ensures PollFailure(polls).None? <==>
            exists i :: 0 <= i < |polls| && Gone(polls[i].reply)
                        && forall j :: 0 <= j < i ==> StillThere(polls[j].reply)
  {
    if PollFailure(polls).None? {
      assert Gone(polls[|polls| - 1].reply);
    }
  }
}
