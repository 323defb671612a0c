/** Child-first cleanup of a test resource, run against an arbitrary server and clock. */
module Teardown {
  import opened Sequences
  import opened Descriptor
  import opened Forest
  import opened Paths

  // ---------------------------------------------------------------- the client's view of the server

  datatype Item = Item(id: Option<string>, deleted: bool)

  /** What comes back for a request. "readable" is false when the body cannot be read or decoded;
      "items" are the resources of a list. */
  datatype Reply = Unreachable | Answer(status: int, readable: bool, items: seq<Item>)

  datatype ClientError = HTTPError(status: int) | OtherError

  /** Client.DeleteResource: the API answers 202 with a resource. */
  function DeleteResult(reply: Reply): Option<ClientError> {
    if reply.Unreachable? then Some(OtherError)
    else if reply.status != 202 then Some(HTTPError(reply.status))
    else if !reply.readable then Some(OtherError)
    else None
  }

  /** Client.ListResources */
  function ListResult(reply: Reply): Result<seq<Item>, ClientError> {
    if reply.Unreachable? then Err(OtherError)
    else if reply.status != 200 then Err(HTTPError(reply.status))
    else if !reply.readable then Err(OtherError)
    else Ok(reply.items)
  }

  /** Client.GetResourceHTTPStatus: any status is an answer. */
  function StatusResult(reply: Reply): Result<int, ClientError> {
    if reply.Unreachable? || !reply.readable then Err(OtherError) else Ok(reply.status)
  }

  datatype Verb = GET | DELETE

  datatype Request = Request(verb: Verb, path: string)

  /** Why the cleanup sent a request. The server sees only verb and path. */
  datatype Purpose = ListChildren(kind: string) | DeleteChild(kind: string, id: string) | DeleteParent | PollParent

  datatype Event = Event(purpose: Purpose, request: Request, sent: int, reply: Reply)

  /** A server and a clock: the replies, how long each takes, and how much time passes unseen before the poll loop
      reads the clock again. All may depend on everything that has happened. */
  datatype World = World(
    respond: (seq<Event>, Request) -> Reply,
    elapsed: (seq<Event>, Request) -> nat,
    lag: seq<Event> -> nat)

  // ---------------------------------------------------------------- what a run may look like

  function LiveIDs(items: seq<Item>): seq<string> {
    if items == [] then []
    else if items[0].deleted || items[0].id.None? then LiveIDs(items[1..])
    else [items[0].id.value] + LiveIDs(items[1..])
  }

  datatype ChildrenEnd = Complete | UnknownKind(kind: string) | ListFailed(kind: string, error: ClientError)

  predicate IsList(e: Event, kind: string, child: Row, resourceID: string) {
    e.purpose == ListChildren(kind) && e.request == Request(GET, CollectionPath(child, resourceID))
  }

  predicate IsChildDelete(e: Event, kind: string, child: Row, resourceID: string, id: string) {
    e.purpose == DeleteChild(kind, id) && e.request == Request(DELETE, ResourcePath(child, resourceID, id))
  }

  predicate DeletesInOrder(run: seq<Event>, kind: string, child: Row, resourceID: string, ids: seq<string>) {
    |run| == |ids| && forall j :: 0 <= j < |ids| ==> IsChildDelete(run[j], kind, child, resourceID, ids[j])
  }

  /** Recognizes the events of a walk over the child kinds: for each, one list and then one delete for every live
      child in list order; the first kind that is unknown or cannot be listed ends it. None is for anything else. */
  ghost function EndOf(t: Table, resourceID: string, kinds: seq<string>, run: seq<Event>): Option<ChildrenEnd> {
    if kinds == [] then if run == [] then Some(Complete) else None
    else if kinds[0] !in t then if run == [] then Some(UnknownKind(kinds[0])) else None
    else if run == [] || !IsList(run[0], kinds[0], t[kinds[0]], resourceID) then None
    else
      match ListResult(run[0].reply)
      case Err(error) => if |run| == 1 then Some(ListFailed(kinds[0], error)) else None
      case Ok(items) =>
        var ids := LiveIDs(items);
        if |run| >= 1 + |ids| && DeletesInOrder(run[1..1 + |ids|], kinds[0], t[kinds[0]], resourceID, ids)
        then EndOf(t, resourceID, kinds[1..], run[1 + |ids|..])
        else None
  }

  ghost predicate ChildrenRun(t: Table, resourceID: string, kinds: seq<string>, run: seq<Event>, end: ChildrenEnd) {
    EndOf(t, resourceID, kinds, run) == Some(end)
  }

  /** Polls before the deadline, an interval or more apart, each but the last answered with a status below 400. */
  ghost predicate PollRun(path: string, start: int, timeout: int, interval: int, polls: seq<Event>) {
    && (forall i :: 0 <= i < |polls| ==>
          polls[i].purpose == PollParent && polls[i].request == Request(GET, path)
          && start <= polls[i].sent < start + timeout)
    && (forall i :: 0 <= i < |polls| - 1 ==> StillThere(polls[i].reply))
    && (forall i :: 0 <= i < |polls| - 1 ==> polls[i].sent + interval <= polls[i + 1].sent)
  }

  predicate StillThere(reply: Reply) {
    StatusResult(reply).Ok? && reply.status < 400
  }

  predicate Gone(reply: Reply) {
    StatusResult(reply) == Ok(404)
  }

  datatype Failure =
    | LookupFailed(kind: string)
    | ListError(kind: string, error: ClientError)
    | ChildDeleteError(kind: string, id: string, error: ClientError)
    | ParentDeleteError(error: ClientError)
    | PollError(error: ClientError)
    | UnexpectedStatus(status: int)
    | NotHardDeleted

  /** One call of CleanupTestResource: the events in the order they happened, and when the poll loop
      began and stopped. */
  datatype Run = Run(
    children: seq<Event>, end: ChildrenEnd, parent: Option<Event>, polls: seq<Event>, start: int, stop: int)

  function EventsOf(run: Run): seq<Event> {
    run.children + (if run.parent.Some? then [run.parent.value] else []) + run.polls
  }

  predicate ParentAccepted(run: Run) {
    run.parent.Some? && DeleteResult(run.parent.value.reply).None?
  }

  ghost predicate ValidRun(t: Table, entity: Row, parentID: string, resourceID: string, interval: int, run: Run) {
    && ChildrenRun(t, resourceID, entity.cleanup.childKinds, run.children, run.end)
    && (run.parent.Some? <==> run.end.Complete?)
    && (run.parent.Some? ==>
          && run.parent.value.purpose == DeleteParent
          && run.parent.value.request == Request(DELETE, ResourcePath(entity, parentID, resourceID)))
    && (run.polls != [] ==> ParentAccepted(run) && entity.cleanup.waitForHardDelete)
    && (ParentAccepted(run) ==> run.start >= run.parent.value.sent)
    && PollRun(ResourcePath(entity, parentID, resourceID), run.start, entity.timeouts.deleted, interval, run.polls)
    && (ParentAccepted(run) && entity.cleanup.waitForHardDelete && PollFailure(run.polls) == Some(NotHardDeleted) ==>
          run.stop >= run.start + entity.timeouts.deleted)
  }

  // ---------------------------------------------------------------- the result of a run

  function ChildFailure(e: Event): Option<Failure> {
    if !e.purpose.DeleteChild? then None
    else
      match DeleteResult(e.reply)
      case None => None
      case Some(error) =>
        if error == HTTPError(404) then None else Some(ChildDeleteError(e.purpose.kind, e.purpose.id, error))
  }

  function FirstChildFailure(run: seq<Event>): (f: Option<Failure>)
    ensures f.None? <==> forall e :: e in run ==> ChildFailure(e).None?
  {
    if run == [] then None
    else if ChildFailure(run[0]).Some? then ChildFailure(run[0])
    else FirstChildFailure(run[1..])
  }

  predicate Tolerated(entity: Row, error: ClientError) {
    || (entity.cleanup.ignoreNotFound && error == HTTPError(404))
    || (entity.cleanup.ignoreConflict && error == HTTPError(409))
  }

  function PollFailure(polls: seq<Event>): Option<Failure> {
    if polls == [] then Some(NotHardDeleted)
    else
      match StatusResult(polls[|polls| - 1].reply)
      case Err(error) => Some(PollError(error))
      case Ok(status) =>
        if status == 404 then None else if status >= 400 then Some(UnexpectedStatus(status)) else Some(NotHardDeleted)
  }

  /** The error CleanupTestResource returns for a run. */
  function ResultOf(entity: Row, run: Run): Option<Failure>
    requires run.parent.Some? <==> run.end.Complete?
  {
    match run.end
    case UnknownKind(kind) => Some(LookupFailed(kind))
    case ListFailed(kind, error) => if error == HTTPError(404) then None else Some(ListError(kind, error))
    case Complete =>
      match DeleteResult(run.parent.value.reply)
      case Some(error) =>
        if Tolerated(entity, error) then FirstChildFailure(run.children) else Some(ParentDeleteError(error))
      case None =>
        if entity.cleanup.waitForHardDelete && PollFailure(run.polls).Some? then PollFailure(run.polls)
        else FirstChildFailure(run.children)
  }

  // ---------------------------------------------------------------- the helper

  function EndFailure(end: ChildrenEnd): Option<Failure> {
    match end
    case Complete => None
    case UnknownKind(kind) => Some(LookupFailed(kind))
    case ListFailed(kind, error) => Some(ListError(kind, error))
  }

  ghost predicate RepliesOf(world: World, log: seq<Event>) {
    forall i :: 0 <= i < |log| ==> log[i].reply == world.respond(log[..i], log[i].request)
  }

  lemma RepliesGrow(world: World, log: seq<Event>, event: Event)
    requires RepliesOf(world, log) && event.reply == world.respond(log, event.request)
    ensures RepliesOf(world, log + [event])
  {
    var grown := log + [event];
    forall i | 0 <= i < |grown| ensures grown[i].reply == world.respond(grown[..i], grown[i].request) {
      assert grown[..i] == log[..i];
      assert log[..|log|] == log;
    }
  }

  class Helper {
    const world: World
    const entities: Table
    const interval: int
    var now: int
    var log: seq<Event>

    constructor (world: World, entities: Table, interval: int, now: int)
      ensures this.world == world && this.entities == entities && this.interval == interval
      ensures this.now == now && log == []
    {
      this.world, this.entities, this.interval, this.now := world, entities, interval, now;
      log := [];
    }

    /** Every reply in the log is the one the server gave at that point. */
    ghost predicate Faithful()
      reads this
    {
      RepliesOf(world, log)
    }

    method Send(purpose: Purpose, request: Request) returns (event: Event)
      requires Faithful()
      modifies this
      ensures Faithful() && log == old(log) + [event] && now >= old(now)
      ensures event == Event(purpose, request, old(now), event.reply)
    {
      event := Event(purpose, request, now, world.respond(log, request));
      RepliesGrow(world, log, event);
      now := now + world.elapsed(log, request);
      log := log + [event];
    }

    /** cleanupChildren */
    method CleanupChildren(entity: Row, resourceID: string)
      returns (deleteErr: Option<Failure>, listErr: Option<Failure>, ghost run: seq<Event>, ghost end: ChildrenEnd)
      requires Faithful()
      modifies this
      ensures Faithful() && log == old(log) + run && now >= old(now)
      ensures ChildrenRun(entities, resourceID, entity.cleanup.childKinds, run, end)
      ensures listErr == EndFailure(end)
      ensures end.Complete? ==> deleteErr == FirstChildFailure(run)
    {
      var kinds := entity.cleanup.childKinds;
      deleteErr, listErr, run, end := None, None, [], Complete;
      for i := 0 to |kinds|
        invariant Faithful() && log == old(log) + run && now >= old(now)
        invariant ChildrenRun(entities, resourceID, kinds[..i], run, Complete)
        invariant deleteErr == FirstChildFailure(run) && listErr.None?
      {
        ghost var some;
        deleteErr, listErr, some, end := CleanupKind(kinds[i], resourceID, deleteErr, run);
        ExtendRun(entities, resourceID, kinds, i, run, some, end);
        Regroup(old(log), run, some);
        run := run + some;
        if listErr.Some? {
          return;
        }
      }
      assert kinds[..|kinds|] == kinds;
      end := Complete;
    }

    /** One iteration of the outer loop of cleanupChildren. */
    method CleanupKind(kind: string, resourceID: string, firstErr: Option<Failure>, ghost before: seq<Event>)
      returns (deleteErr: Option<Failure>, listErr: Option<Failure>, ghost run: seq<Event>, ghost end: ChildrenEnd)
      requires Faithful() && firstErr == FirstChildFailure(before)
      modifies this
      ensures Faithful() && log == old(log) + run && now >= old(now)
      ensures ChildrenRun(entities, resourceID, [kind], run, end)
      ensures listErr == EndFailure(end)
      ensures end.Complete? ==> deleteErr == FirstChildFailure(before + run)
    {
      if kind !in entities {
        return None, Some(LookupFailed(kind)), [], UnknownKind(kind);
      }
      var child := entities[kind];
      var listed := Send(ListChildren(kind), Request(GET, CollectionPath(child, resourceID)));
      var result := ListResult(listed.reply);
      if result.Err? {
        return firstErr, Some(ListError(kind, result.error)), [listed], ListFailed(kind, result.error);
      }
      FirstFailureAppend(before, [listed]);
      ghost var deletes;
      deleteErr, deletes := DeleteLive(kind, child, resourceID, result.value, firstErr, before + [listed]);
      OneKindRun(entities, resourceID, kind, listed, deletes);
      Regroup(before, [listed], deletes);
      Regroup(old(log), [listed], deletes);
      listErr, run, end := None, [listed] + deletes, Complete;
    }

    /** The inner loop of cleanupChildren: attempt every live child, keep the first error. */
    method DeleteLive(kind: string, child: Row, resourceID: string, items: seq<Item>, firstErr: Option<Failure>,
                      ghost before: seq<Event>)
      returns (deleteErr: Option<Failure>, ghost run: seq<Event>)
      requires Faithful() && firstErr == FirstChildFailure(before)
      modifies this
      ensures Faithful() && log == old(log) + run && now >= old(now)
      ensures DeletesInOrder(run, kind, child, resourceID, LiveIDs(items))
      ensures deleteErr == FirstChildFailure(before + run)
    {
      deleteErr, run := firstErr, [];
      assert before + [] == before;
      for i := 0 to |items|
        invariant Faithful() && log == old(log) + run && now >= old(now)
        invariant DeletesInOrder(run, kind, child, resourceID, LiveIDs(items[..i]))
        invariant deleteErr == FirstChildFailure(before + run)
      {
        var item := items[i];
        assert items[..i + 1] == items[..i] + [item];
        LiveAppend(items[..i], item);
        if item.deleted || item.id.None? {
          continue;
        }
        var id := item.id.value;
        var sent := Send(DeleteChild(kind, id), Request(DELETE, ResourcePath(child, resourceID, id)));
        var error := DeleteResult(sent.reply);
        FirstFailureAppend(before + run, [sent]);
        Regroup(before, run, [sent]);
        Regroup(old(log), run, [sent]);
        if error.Some? && error != Some(HTTPError(404)) {
          if deleteErr.None? {
            deleteErr := Some(ChildDeleteError(kind, id, error.value));
          }
        }
        DeletesGrow(run, kind, child, resourceID, LiveIDs(items[..i]), sent, id);
        run := run + [sent];
      }
      assert items[..|items|] == items;
    }

    /** pollHardDeletion. The loop ends because an interval passes between two polls. */
    method PollHardDeletion(entity: Row, parentID: string, resourceID: string)
      returns (err: Option<Failure>, ghost polls: seq<Event>, ghost start: int)
      requires Faithful() && interval > 0
      modifies this
      ensures Faithful() && log == old(log) + polls
      ensures PollRun(ResourcePath(entity, parentID, resourceID), start, entity.timeouts.deleted, interval, polls)
      ensures start == old(now) && err == PollFailure(polls)
      ensures err == Some(NotHardDeleted) ==> now >= start + entity.timeouts.deleted
    {
      var path := ResourcePath(entity, parentID, resourceID);
      start, polls := now, [];
      var deadline := now + entity.timeouts.deleted;
      now := now + world.lag(log);
      while now < deadline
        invariant Faithful() && log == old(log) + polls && now >= start
        invariant PollRun(path, start, entity.timeouts.deleted, interval, polls)
        invariant polls != [] ==> StillThere(polls[|polls| - 1].reply) && polls[|polls| - 1].sent + interval <= now
        decreases deadline - now
      {
        var event := Send(PollParent, Request(GET, path));
        PollsGrow(path, start, entity.timeouts.deleted, interval, polls, event);
        polls := polls + [event];
        var status := StatusResult(event.reply);
        if status.Err? {
          return Some(PollError(status.error)), polls, start;
        }
        if status.value == 404 {
          return None, polls, start;
        }
        if status.value >= 400 {
          return Some(UnexpectedStatus(status.value)), polls, start;
        }
        now := now + interval + world.lag(log);
      }
      err := Some(NotHardDeleted);
    }

    /** CleanupTestResource */
    method CleanupTestResource(entity: Row, parentID: string, resourceID: string)
      returns (err: Option<Failure>, ghost run: Run)
      requires Faithful() && interval > 0
      modifies this
      ensures Faithful() && log == old(log) + EventsOf(run)
      ensures ValidRun(entities, entity, parentID, resourceID, interval, run)
      ensures err == ResultOf(entity, run)
    {
      var path := ResourcePath(entity, parentID, resourceID);
      var childErr, listErr;
      ghost var children, end;
      childErr, listErr, children, end := CleanupChildren(entity, resourceID);
      if listErr.Some? {
        run := Run(children, end, None, [], now, now);
        assert EventsOf(run) == children;
        if IsHTTPStatus(listErr.value, 404) {
          return None, run;
        }
        return listErr, run;
      }
      var sent := Send(DeleteParent, Request(DELETE, path));
      run := Run(children, end, Some(sent), [], now, now);
      assert EventsOf(run) == children + [sent];
      var error := DeleteResult(sent.reply);
      if error.Some? {
        if (entity.cleanup.ignoreNotFound && error == Some(HTTPError(404)))
           || (entity.cleanup.ignoreConflict && error == Some(HTTPError(409))) {
          return childErr, run;
        }
        return Some(ParentDeleteError(error.value)), run;
      }
      if entity.cleanup.waitForHardDelete {
        ghost var polls, start;
        err, polls, start := PollHardDeletion(entity, parentID, resourceID);
        run := Run(children, end, Some(sent), polls, start, now);
        assert EventsOf(run) == children + [sent] + polls;
        if err.Some? {
          return;
        }
      }
      err := childErr;
    }
  }

  /** IsHTTPStatus on the errors cleanupChildren aborts with: errors.As sees through the wrapping. */
  predicate IsHTTPStatus(f: Failure, status: int) {
    f.ListError? && f.error == HTTPError(status)
  }

  // ---------------------------------------------------------------- traces grow at the end

  lemma {:induction false} LiveAppend(items: seq<Item>, item: Item)
    ensures LiveIDs(items + [item]) ==
            LiveIDs(items) + if item.deleted || item.id.None? then [] else [item.id.value]
  {
    if items == [] {
      assert [item][1..] == [];
    } else {
      assert (items + [item])[1..] == items[1..] + [item];
      LiveAppend(items[1..], item);
    }
  }

  lemma {:induction false} FirstFailureAppend(run: seq<Event>, more: seq<Event>)
    ensures FirstChildFailure(run + more) ==
            if FirstChildFailure(run).Some? then FirstChildFailure(run) else FirstChildFailure(more)
  {
    if run == [] {
      assert run + more == more;
    } else {
      assert (run + more)[1..] == run[1..] + more;
      FirstFailureAppend(run[1..], more);
    }
  }

  lemma DeletesGrow(run: seq<Event>, kind: string, child: Row, resourceID: string, ids: seq<string>, sent: Event,
                    id: string)
    requires DeletesInOrder(run, kind, child, resourceID, ids) && IsChildDelete(sent, kind, child, resourceID, id)
    ensures DeletesInOrder(run + [sent], kind, child, resourceID, ids + [id])
  {
  }

  lemma PollsGrow(path: string, start: int, timeout: int, interval: int, polls: seq<Event>, event: Event)
    requires PollRun(path, start, timeout, interval, polls)
    requires event.purpose == PollParent && event.request == Request(GET, path)
    requires start <= event.sent < start + timeout
    requires polls != [] ==> StillThere(polls[|polls| - 1].reply) && polls[|polls| - 1].sent + interval <= event.sent
    ensures PollRun(path, start, timeout, interval, polls + [event])
  {
  }

  /** After a complete run over the first i kinds, one more kind. When that one ends the walk, it ends it for the
      whole list. */
  lemma ExtendRun(t: Table, resourceID: string, kinds: seq<string>, i: nat, run: seq<Event>, some: seq<Event>,
                  end: ChildrenEnd)
    requires i < |kinds|
    requires ChildrenRun(t, resourceID, kinds[..i], run, Complete)
    requires ChildrenRun(t, resourceID, [kinds[i]], some, end)
    ensures end.Complete? ==> ChildrenRun(t, resourceID, kinds[..i + 1], run + some, Complete)
    ensures !end.Complete? ==> ChildrenRun(t, resourceID, kinds, run + some, end)
  {
    assert [kinds[i]][1..] == [];
    if end.Complete? {
      assert kinds[..i + 1] == kinds[..i] + [kinds[i]];
      AppendRun(t, resourceID, kinds[..i], run, [kinds[i]], some, end);
    } else {
      assert kinds == kinds[..i] + kinds[i..];
      assert EndOf(t, resourceID, kinds[i..], some) == Some(end) by {
        assert kinds[i..][0] == kinds[i];
        if kinds[i] in t && ListResult(some[0].reply).Ok? {
          ListedKindCompletes(t, resourceID, kinds[i], some, end);
        }
      }
      AppendRun(t, resourceID, kinds[..i], run, kinds[i..], some, end);
    }
  }

  lemma ListedKindCompletes(t: Table, resourceID: string, kind: string, run: seq<Event>, end: ChildrenEnd)
    requires ChildrenRun(t, resourceID, [kind], run, end)
    requires kind in t && ListResult(run[0].reply).Ok?
    ensures end.Complete?
  {
    var rest := run[1 + |LiveIDs(ListResult(run[0].reply).value)|..];
    assert [kind][1..] == [];
    assert EndOf(t, resourceID, [], rest) == Some(end);
  }

  lemma OneKindRun(t: Table, resourceID: string, kind: string, listed: Event, deletes: seq<Event>)
    requires kind in t && IsList(listed, kind, t[kind], resourceID) && ListResult(listed.reply).Ok?
    requires DeletesInOrder(deletes, kind, t[kind], resourceID, LiveIDs(ListResult(listed.reply).value))
    ensures ChildrenRun(t, resourceID, [kind], [listed] + deletes, Complete)
  {
    var run := [listed] + deletes;
    assert run[1..1 + |deletes|] == deletes && run[1 + |deletes|..] == [];
    assert [kind][1..] == [];
  }

  lemma {:induction false} AppendRun(t: Table, resourceID: string, kinds: seq<string>, run: seq<Event>,
                                     kinds': seq<string>, run': seq<Event>, end: ChildrenEnd)
    requires ChildrenRun(t, resourceID, kinds, run, Complete)
    requires ChildrenRun(t, resourceID, kinds', run', end)
    ensures ChildrenRun(t, resourceID, kinds + kinds', run + run', end)
  {
    if kinds == [] {
      assert kinds + kinds' == kinds' && run + run' == run';
    } else {
      var n := |LiveIDs(ListResult(run[0].reply).value)|;
      assert (kinds + kinds')[1..] == kinds[1..] + kinds';
      var all := run + run';
      assert all[0] == run[0] && all[1..1 + n] == run[1..1 + n] && all[1 + n..] == run[1 + n..] + run';
      AppendRun(t, resourceID, kinds[1..], run[1 + n..], kinds', run', end);
    }
  }
}
