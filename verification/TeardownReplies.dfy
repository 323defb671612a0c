/** What CleanupTestResource returns and sends, said of the replies and the paths themselves. */
module TeardownReplies {
  import opened Sequences
  import opened Descriptor
  import opened Forest
  import opened Paths
  import opened Teardown
  import opened TeardownTheorems

  predicate Answers(reply: Reply, status: int) {
    reply.Answer? && reply.status == status
  }

  predicate ReadableAnswer(reply: Reply, status: int) {
    Answers(reply, status) && reply.readable
  }

  /** A request that should have been answered with "expected" fails with this error. */
  predicate FailsWith(reply: Reply, expected: int, error: ClientError) {
    match error
    case HTTPError(status) => Answers(reply, status) && status != expected
    case OtherError => reply.Unreachable? || (Answers(reply, expected) && !reply.readable)
  }

  /** A child's delete is fine when it was accepted, or the child was gone. */
  predicate ChildReplyFine(reply: Reply) {
    ReadableAnswer(reply, 202) || Answers(reply, 404)
  }

  predicate ChildRepliesFine(run: Run, n: nat)
    requires n <= |run.children|
  {
    forall i :: 0 <= i < n && run.children[i].purpose.DeleteChild? ==> ChildReplyFine(run.children[i].reply)
  }

  /** The parent's delete was accepted, and hard-deletion seen if it is waited for; or it was gone and that is ignored;
      or there was a conflict and that is ignored. */
  predicate ParentReplyFine(entity: Row, run: Run) {
    && run.parent.Some?
    && var reply := run.parent.value.reply;
       || (ReadableAnswer(reply, 202)
           && (entity.cleanup.waitForHardDelete ==>
                 run.polls != [] && ReadableAnswer(run.polls[|run.polls| - 1].reply, 404)))
       || (Answers(reply, 404) && entity.cleanup.ignoreNotFound)
       || (Answers(reply, 409) && entity.cleanup.ignoreConflict)
  }

  predicate LastListMissing(run: Run) {
    run.children != [] && run.children[|run.children| - 1].purpose.ListChildren?
    && Answers(run.children[|run.children| - 1].reply, 404)
  }

  lemma ChildRepliesFineIff(run: Run)
    ensures ChildDeletesFine(run) <==> ChildRepliesFine(run, |run.children|)
  {
    if ChildDeletesFine(run) {
      assert forall i :: 0 <= i < |run.children| ==> run.children[i] in run.children;
    }
  }

  /** Cleanup succeeds exactly when the last child list answered 404, or the deletes of the children and of the parent
      were fine. */
  lemma SucceedsOnReplies(t: Table, entity: Row, parentID: string, resourceID: string, interval: int, run: Run)
    requires ValidRun(t, entity, parentID, resourceID, interval, run)
    ensures ResultOf(entity, run).None? <==>
            LastListMissing(run) || (ChildRepliesFine(run, |run.children|) && ParentReplyFine(entity, run))
  {
    SucceedsIff(t, entity, parentID, resourceID, interval, run);
    ChildRepliesFineIff(run);
  }

  /** The parent's delete is sent exactly when every child kind is known and every list was answered 200 and read. */
  lemma ParentSentOnReplies(t: Table, entity: Row, parentID: string, resourceID: string, interval: int, run: Run)
    requires ValidRun(t, entity, parentID, resourceID, interval, run)
    ensures run.parent.Some? <==>
            && (forall k :: k in entity.cleanup.childKinds ==> k in t)
            && forall i :: 0 <= i < |run.children| && run.children[i].purpose.ListChildren? ==>
                 ReadableAnswer(run.children[i].reply, 200)
  {
    ParentIffListed(t, entity, parentID, resourceID, interval, run);
    if forall e :: e in run.children ==> !ListFailedIn(e) {
      assert forall i :: 0 <= i < |run.children| ==> run.children[i] in run.children;
    }
  }

  // ---------------------------------------------------------------- every error

  /** What has happened when this error is returned. */
  ghost predicate Happened(t: Table, entity: Row, run: Run, f: Failure) {
    match f
    case LookupFailed(kind) =>
      && FirstUnknown(t, entity.cleanup.childKinds, kind)
      && forall i :: 0 <= i < |run.children| && run.children[i].purpose.ListChildren? ==>
           ReadableAnswer(run.children[i].reply, 200)
    case ListError(kind, error) =>
      && run.children != []
      && run.children[|run.children| - 1].purpose == ListChildren(kind)
      && FailsWith(run.children[|run.children| - 1].reply, 200, error) && error != HTTPError(404)
    case ChildDeleteError(kind, id, error) =>
      && ParentReplyFine(entity, run)
      && exists i :: 0 <= i < |run.children| && run.children[i].purpose == DeleteChild(kind, id)
                     && FailsWith(run.children[i].reply, 202, error) && error != HTTPError(404)
                     && ChildRepliesFine(run, i)
    case ParentDeleteError(error) =>
      && run.parent.Some? && FailsWith(run.parent.value.reply, 202, error)
      && !(error == HTTPError(404) && entity.cleanup.ignoreNotFound)
      && !(error == HTTPError(409) && entity.cleanup.ignoreConflict)
    case PollError(error) =>
      Waited(entity, run) && run.polls != [] && error == OtherError
      && (run.polls[|run.polls| - 1].reply.Unreachable? || !run.polls[|run.polls| - 1].reply.readable)
    case UnexpectedStatus(status) =>
      Waited(entity, run) && run.polls != [] && ReadableAnswer(run.polls[|run.polls| - 1].reply, status)
      && status >= 400 && status != 404
    case NotHardDeleted =>
      Waited(entity, run)
      && (run.polls == [] || (&& run.polls[|run.polls| - 1].reply.Answer? && run.polls[|run.polls| - 1].reply.readable
                              && run.polls[|run.polls| - 1].reply.status < 400))
  }

  ghost predicate FirstUnknown(t: Table, kinds: seq<string>, kind: string) {
    exists n :: 0 <= n < |kinds| && kinds[n] == kind && kind !in t && forall j :: 0 <= j < n ==> kinds[j] in t
  }

  predicate Waited(entity: Row, run: Run) {
    run.parent.Some? && ReadableAnswer(run.parent.value.reply, 202) && entity.cleanup.waitForHardDelete
  }

  lemma ChildErrorOnReplies(t: Table, entity: Row, parentID: string, resourceID: string, interval: int, run: Run,
                            f: Failure)
    requires ValidRun(t, entity, parentID, resourceID, interval, run) && f.ChildDeleteError?
    ensures ResultOf(entity, run) == Some(f) <==> Happened(t, entity, run, f)
  {
    ChildErrorComesLast(t, entity, parentID, resourceID, interval, run, f);
    forall i: nat | i < |run.children|
      ensures ChildFailure(run.children[i]) == Some(f) <==>
              && run.children[i].purpose == DeleteChild(f.kind, f.id)
              && FailsWith(run.children[i].reply, 202, f.error) && f.error != HTTPError(404)
      ensures (forall j :: 0 <= j < i ==> ChildFailure(run.children[j]).None?) <==> ChildRepliesFine(run, i)
    {
      NoFailureIff(run, i);
    }
  }

  lemma NoFailureIff(run: Run, n: nat)
    requires n <= |run.children|
    ensures (forall j :: 0 <= j < n ==> ChildFailure(run.children[j]).None?) <==> ChildRepliesFine(run, n)
  {
    assert forall j :: 0 <= j < n ==>
        (ChildFailure(run.children[j]).None? <==>
         (run.children[j].purpose.DeleteChild? ==> ChildReplyFine(run.children[j].reply)));
  }

  lemma ListErrorOnReplies(t: Table, entity: Row, parentID: string, resourceID: string, interval: int, run: Run,
                           f: Failure)
    requires ValidRun(t, entity, parentID, resourceID, interval, run) && f.ListError?
    ensures ResultOf(entity, run) == Some(f) <==> Happened(t, entity, run, f)
  {
    NoListErrorFromChildren(run.children);
    ListFailureEnds(t, resourceID, entity.cleanup.childKinds, run.children, run.end);
    assert ResultOf(entity, run) == Some(f) <==>
      run.end == ListFailed(f.kind, f.error) && f.error != HTTPError(404);
    if run.children != [] {
      var last := run.children[|run.children| - 1];
      assert FailsWith(last.reply, 200, f.error) <==> ListResult(last.reply) == Err(f.error);
    }
  }

  lemma LookupErrorOnReplies(t: Table, entity: Row, parentID: string, resourceID: string, interval: int, run: Run,
                             f: Failure)
    requires ValidRun(t, entity, parentID, resourceID, interval, run) && f.LookupFailed?
    ensures ResultOf(entity, run) == Some(f) <==> Happened(t, entity, run, f)
  {
    var kinds := entity.cleanup.childKinds;
    NoListErrorFromChildren(run.children);
    assert ResultOf(entity, run) == Some(f) <==> run.end == UnknownKind(f.kind);
    ListFailureEnds(t, resourceID, kinds, run.children, run.end);
    if run.end.UnknownKind? { EndsAtFirstUnknown(t, resourceID, kinds, run.children, run.end.kind); }
    if run.end.Complete? { KnownWhenComplete(t, resourceID, kinds, run.children); }
    assert forall i :: 0 <= i < |run.children| && run.children[i].purpose.ListChildren? ==>
        (ReadableAnswer(run.children[i].reply, 200) <==> !ListFailedIn(run.children[i]));
  }

  lemma {:induction false} EndsAtFirstUnknown(t: Table, resourceID: string, kinds: seq<string>, run: seq<Event>,
                                              kind: string)
    requires ChildrenRun(t, resourceID, kinds, run, UnknownKind(kind))
    ensures FirstUnknown(t, kinds, kind)
  {
    if kinds[0] in t {
      var rest := run[1 + |LiveIDs(ListResult(run[0].reply).value)|..];
      EndsAtFirstUnknown(t, resourceID, kinds[1..], rest, kind);
      var n :| 0 <= n < |kinds[1..]| && kinds[1..][n] == kind && kind !in t
               && forall j :: 0 <= j < n ==> kinds[1..][j] in t;
      assert kinds[n + 1] == kind && forall j :: 0 < j < n + 1 ==> kinds[j] == kinds[1..][j - 1];
    }
  }

  lemma {:induction false} NoListErrorFromChildren(run: seq<Event>)
    ensures match FirstChildFailure(run) case None => true case Some(f) => f.ChildDeleteError?
  {
    if run != [] { NoListErrorFromChildren(run[1..]); }
  }

  lemma ParentErrorOnReplies(t: Table, entity: Row, parentID: string, resourceID: string, interval: int, run: Run,
                             f: Failure)
    requires ValidRun(t, entity, parentID, resourceID, interval, run)
    requires f.ParentDeleteError? || f.PollError? || f.UnexpectedStatus? || f.NotHardDeleted?
    ensures ResultOf(entity, run) == Some(f) <==> Happened(t, entity, run, f)
  {
    NoListErrorFromChildren(run.children);
  }

  /** Each error is returned exactly when what it says has happened, so at most one of these has. */
  lemma ErrorOnReplies(t: Table, entity: Row, parentID: string, resourceID: string, interval: int, run: Run, f: Failure)
    requires ValidRun(t, entity, parentID, resourceID, interval, run)
    ensures ResultOf(entity, run) == Some(f) <==> Happened(t, entity, run, f)
  {
    if f.ChildDeleteError? {
      ChildErrorOnReplies(t, entity, parentID, resourceID, interval, run, f);
    } else if f.LookupFailed? {
      LookupErrorOnReplies(t, entity, parentID, resourceID, interval, run, f);
    } else if f.ListError? {
      ListErrorOnReplies(t, entity, parentID, resourceID, interval, run, f);
    } else {
      ParentErrorOnReplies(t, entity, parentID, resourceID, interval, run, f);
    }
  }

  // ---------------------------------------------------------------- how long it polls

  /** Hard-deletion is polled for within the entity's own deleted timeout, an interval or more apart and for as long as
      the entity is still there. */
  lemma PollingIsTimed(t: Table, entity: Row, parentID: string, resourceID: string, interval: int, run: Run, i: nat)
    requires ValidRun(t, entity, parentID, resourceID, interval, run) && i < |run.polls|
    ensures run.parent.Some? && run.parent.value.sent <= run.start <= run.polls[i].sent
    ensures run.polls[i].sent < run.start + entity.timeouts.deleted
    ensures i > 0 ==> && run.polls[i].sent >= run.polls[i - 1].sent + interval
                      && run.polls[i - 1].reply.Answer? && run.polls[i - 1].reply.status < 400
  {
    if i > 0 { assert StillThere(run.polls[i - 1].reply); }
  }

  /** It gives up only after that timeout. */
  lemma GivingUpTakesTimeout(t: Table, entity: Row, parentID: string, resourceID: string, interval: int, run: Run)
    requires ValidRun(t, entity, parentID, resourceID, interval, run) && ResultOf(entity, run) == Some(NotHardDeleted)
    ensures run.stop >= run.start + entity.timeouts.deleted && run.parent.Some? && run.start >= run.parent.value.sent
  {
    NoListErrorFromChildren(run.children);
  }

  // ---------------------------------------------------------------- which children are live

  /** How many of the first n resources are not deleted and have an ID. */
  function LiveBefore(items: seq<Item>, n: nat): nat
    requires n <= |items|
  {
    |set i: nat | i < n && !items[i].deleted && items[i].id.Some?|
  }

  lemma {:induction false} LiveBeforeNext(items: seq<Item>, n: nat)
    requires n < |items|
    ensures LiveBefore(items, n + 1) == LiveBefore(items, n) + if !items[n].deleted && items[n].id.Some? then 1 else 0
  {
    var before := set i: nat | i < n && !items[i].deleted && items[i].id.Some?;
    var after := set i: nat | i < n + 1 && !items[i].deleted && items[i].id.Some?;
    assert after == before + if !items[n].deleted && items[n].id.Some? then {n} else {};
  }

  /** The live IDs are those of the resources that are not deleted and have one, each once and in list order. */
  lemma {:induction false} LiveIDsAre(items: seq<Item>, n: nat)
    requires n <= |items|
    ensures |LiveIDs(items[..n])| == LiveBefore(items, n)
    ensures forall i: nat :: i < n && !items[i].deleted && items[i].id.Some? ==>
              LiveBefore(items, i) < |LiveIDs(items[..n])|
              && LiveIDs(items[..n])[LiveBefore(items, i)] == items[i].id.value
  {
    if n > 0 {
      LiveIDsAre(items, n - 1);
      LiveBeforeNext(items, n - 1);
      assert items[..n] == items[..n - 1] + [items[n - 1]];
      LiveAppend(items[..n - 1], items[n - 1]);
    }
  }

  // ---------------------------------------------------------------- what goes over the wire

  /** The path of a kind's resources below a parent. */
  function ListPath(e: Row, parentID: string): string {
    (if e.parentKind == "" then "" else e.parentPlural + "/" + parentID + "/") + e.plural
  }

  /** The verb and path each purpose is served by. */
  ghost predicate OnTheWire(t: Table, entity: Row, parentID: string, resourceID: string, e: Event) {
    match e.purpose
    case ListChildren(kind) => kind in t && e.request == Request(GET, ListPath(t[kind], resourceID))
    case DeleteChild(kind, id) => kind in t && e.request == Request(DELETE, ListPath(t[kind], resourceID) + "/" + id)
    case DeleteParent => e.request == Request(DELETE, ListPath(entity, parentID) + "/" + resourceID)
    case PollParent => e.request == Request(GET, ListPath(entity, parentID) + "/" + resourceID)
  }

  lemma PathsAreListPaths(e: Row, parentID: string, id: string)
    ensures CollectionPath(e, parentID) == ListPath(e, parentID)
    ensures ResourcePath(e, parentID, id) == ListPath(e, parentID) + "/" + id
  {
  }

  lemma {:induction false} ChildrenOnTheWire(t: Table, resourceID: string, kinds: seq<string>, run: seq<Event>,
                                             end: ChildrenEnd, i: nat)
    requires ChildrenRun(t, resourceID, kinds, run, end) && i < |run|
    ensures match run[i].purpose
            case ListChildren(kind) => kind in t && IsList(run[i], kind, t[kind], resourceID)
            case DeleteChild(kind, id) => kind in t && IsChildDelete(run[i], kind, t[kind], resourceID, id)
            case _ => false
  {
    if ListResult(run[0].reply).Ok? {
      var deletes, rest, ids := SplitRun(t, resourceID, kinds, run, end);
      if 1 <= i <= |deletes| {
        assert run[i] == deletes[i - 1] && IsChildDelete(deletes[i - 1], kinds[0], t[kinds[0]], resourceID, ids[i - 1]);
      } else if i > |deletes| {
        assert run[i] == rest[i - 1 - |deletes|];
        ChildrenOnTheWire(t, resourceID, kinds[1..], rest, end, i - 1 - |deletes|);
      }
    }
  }

  /** Every request of a cleanup has the verb and the path of what it is for. */
  lemma RequestsOnTheWire(t: Table, entity: Row, parentID: string, resourceID: string, interval: int, run: Run, i: nat)
    requires ValidRun(t, entity, parentID, resourceID, interval, run) && i < |EventsOf(run)|
    ensures OnTheWire(t, entity, parentID, resourceID, EventsOf(run)[i])
  {
    var e := EventsOf(run)[i];
    PathsAreListPaths(entity, parentID, resourceID);
    if i < |run.children| {
      assert e == run.children[i];
      ChildrenOnTheWire(t, resourceID, entity.cleanup.childKinds, run.children, run.end, i);
      var id := if e.purpose.DeleteChild? then e.purpose.id else "";
      PathsAreListPaths(t[e.purpose.kind], resourceID, id);
    } else if run.parent.Some? && i > |run.children| {
      assert e == run.polls[i - |run.children| - 1];
    }
  }
}
