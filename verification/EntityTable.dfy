/** The table of kinds the specs run on, before any configuration. */
module EntityTable {
  import opened Sequences
  import opened Text
  import opened Descriptor
  import opened Forest
  import opened Overlay
  import opened OverlayTheorems
  import Catalogs
  import Configuration

  const MINUTE := 60 * Configuration.SECOND

  const RECONCILING := EntityTimeouts(2 * MINUTE, 2 * MINUTE)

  const NO_TIMEOUTS := EntityTimeouts(0, 0)

  const KEEPS_CHILDREN: CleanupPolicy<seq<string>> := CleanupPolicy([], false, true, false)

  const WAITS_FOR_HARD_DELETE: CleanupPolicy<seq<string>> := CleanupPolicy([], true, true, false)

  function Root(kind: string, plural: string, adapters: seq<string>, timeouts: EntityTimeouts,
                cleanup: CleanupPolicy<seq<string>>, thresholds: string -> EntityThresholds): Row
  {
    EntityDescriptor(kind, plural, "", "", "", adapters, cleanup, thresholds(kind), timeouts)
  }

  function Child(kind: string, plural: string, parent: string, onParentDelete: string, adapters: seq<string>,
                 timeouts: EntityTimeouts, cleanup: CleanupPolicy<seq<string>>,
                 thresholds: string -> EntityThresholds): Row
  {
    EntityDescriptor(kind, plural, parent, "", onParentDelete, adapters, cleanup, thresholds(kind), timeouts)
  }

  /** EntityDescriptors. The latency thresholds are left open: loading the catalog does not read them. */
  function EntityDescriptors(thresholds: string -> EntityThresholds): seq<Row> {
    [Root("Parent", "parents", ["parents-success"], RECONCILING, WAITS_FOR_HARD_DELETE, thresholds),
     Child("CascadeChild", "cascadechildren", "Parent", "cascade", ["cascadechildren-success"], RECONCILING,
           WAITS_FOR_HARD_DELETE, thresholds),
     Child("RestrictChild", "restrictchildren", "Parent", "restrict", [], NO_TIMEOUTS, KEEPS_CHILDREN, thresholds),
     Root("Referencer", "referencers", [], NO_TIMEOUTS, KEEPS_CHILDREN, thresholds),
     Root("Target", "targets", [], NO_TIMEOUTS, KEEPS_CHILDREN, thresholds),
     Root("Cluster", "clusters", ["cl-namespace", "cl-job", "cl-deployment", "cl-desire"], RECONCILING,
          WAITS_FOR_HARD_DELETE, thresholds),
     Child("NodePool", "nodepools", "Cluster", "cascade", ["np-configmap"], RECONCILING,
           WAITS_FOR_HARD_DELETE.(ignoreNotFound := false), thresholds),
     Root("Channel", "channels", [], NO_TIMEOUTS, KEEPS_CHILDREN.(childKinds := ["Version"]), thresholds),
     Child("Version", "versions", "Channel", "restrict", [], NO_TIMEOUTS, KEEPS_CHILDREN, thresholds),
     Root("WifConfig", "wifconfigs", [], NO_TIMEOUTS, KEEPS_CHILDREN.(ignoreConflict := true), thresholds)]
  }

  predicate LowerWord(s: string) {
    s != "" && forall i :: 0 <= i < |s| ==> 'a' <= s[i] <= 'z'
  }

  lemma LowerWordsAreSegments(s: string)
    requires LowerWord(s)
    ensures ValidSegment(s)
  {
    assert s[0] != '.';
    forall c | c in s ensures PathSafe(c) {
      var i :| 0 <= i < |s| && s[i] == c;
    }
  }

  lemma RowIsWellFormed(thresholds: string -> EntityThresholds, i: nat)
    requires i < 10
    ensures WellFormed(EntityDescriptors(thresholds)[i])
  {
    var e := EntityDescriptors(thresholds)[i];
    assert e.parentKind == "" || e.onParentDelete == "cascade" || e.onParentDelete == "restrict";
  }

  lemma NameIsValid(thresholds: string -> EntityThresholds, i: nat)
    requires i < 10
    ensures ValidName(EntityDescriptors(thresholds)[i])
  {
    if i < 3 {
      FirstNames(thresholds, i);
    } else if i < 6 {
      MiddleNames(thresholds, i);
    } else {
      LastNames(thresholds, i);
    }
    LowerWordsAreSegments(EntityDescriptors(thresholds)[i].plural);
  }

  lemma FirstNames(thresholds: string -> EntityThresholds, i: nat)
    requires i < 3
    ensures var e := EntityDescriptors(thresholds)[i]; !Blank(e.kind) && LowerWord(e.plural)
  {
    assert !IsSpace(EntityDescriptors(thresholds)[i].kind[0]);
  }

  lemma MiddleNames(thresholds: string -> EntityThresholds, i: nat)
    requires 3 <= i < 6
    ensures var e := EntityDescriptors(thresholds)[i]; !Blank(e.kind) && LowerWord(e.plural)
  {
    assert !IsSpace(EntityDescriptors(thresholds)[i].kind[0]);
  }

  lemma LastNames(thresholds: string -> EntityThresholds, i: nat)
    requires 6 <= i < 10
    ensures var e := EntityDescriptors(thresholds)[i]; !Blank(e.kind) && LowerWord(e.plural)
  {
    assert !IsSpace(EntityDescriptors(thresholds)[i].kind[0]);
  }

  lemma NamesAreDistinct(thresholds: string -> EntityThresholds)
    ensures DistinctNames(EntityDescriptors(thresholds))
  {
  }

  /** The row of a kind's parent, and of a cleanup child: the table is two levels deep. */
  function ParentIndex(i: nat): nat {
    if i == 1 || i == 2 then 0 else if i == 6 then 5 else if i == 8 then 7 else i
  }

  lemma ParentIsKnown(thresholds: string -> EntityThresholds, i: nat)
    requires i < 10
    ensures var rows, p := EntityDescriptors(thresholds), ParentIndex(i);
            p < 10 && rows[p].parentKind == "" && rows[i].parentPlural == ""
            && (if p == i then rows[i].parentKind == "" else rows[i].parentKind == rows[p].kind)
  {
  }

  lemma ChildIsOwned(thresholds: string -> EntityThresholds, i: nat, child: string)
    requires i < 10 && child in EntityDescriptors(thresholds)[i].cleanup.childKinds
    ensures var rows := EntityDescriptors(thresholds);
            rows[8].kind == child && rows[8].parentKind == rows[i].kind
  {
  }

  lemma ParentsByIndex(rows: seq<Row>)
    requires |rows| == 10
    requires forall i: nat :: i < 10 ==>
               var p := ParentIndex(i);
               p < 10 && rows[i].parentPlural == ""
               && (if p == i then rows[i].parentKind == "" else rows[i].parentKind == rows[p].kind)
    ensures ParentsKnown(rows)
  {
    forall e | e in rows && e.parentKind != ""
      ensures exists p :: p in rows && p.kind == e.parentKind && (e.parentPlural == "" || e.parentPlural == p.plural)
    {
      var i: nat :| i < 10 && rows[i] == e;
      assert rows[ParentIndex(i)] in rows;
    }
  }

  lemma ParentsAreRanked(rows: seq<Row>)
    requires DistinctNames(rows) && |rows| == 10
    requires forall i: nat :: i < 10 ==>
               var p := ParentIndex(i);
               p < 10 && rows[p].parentKind == ""
               && (if p == i then rows[i].parentKind == "" else rows[i].parentKind == rows[p].kind)
    ensures exists rank :: ParentsRanked(rows, rank)
  {
    var rank: map<string, nat> := map k | k in Kinds(rows) :: if Parent(ByKind(rows), k) == "" then 0 else 1;
    ByKindOfDistinct(rows);
    forall e | e in rows
      ensures e.kind in rank && (e.parentKind != "" ==> e.parentKind in rank && rank[e.parentKind] < rank[e.kind])
    {
      var i: nat :| i < 10 && rows[i] == e;
      assert rows[ParentIndex(i)] in rows;
    }
    assert ParentsRanked(rows, rank);
  }

  /** NewCatalog accepts the table, whatever order it ranges in. */
  lemma TableIsAccepted(thresholds: string -> EntityThresholds, order: seq<string>)
    requires Enumerates(order, Kinds(EntityDescriptors(thresholds)))
    ensures Build(EntityDescriptors(thresholds), order).Ok?
  {
    var rows := EntityDescriptors(thresholds);
    NamesAreDistinct(thresholds);
    forall i: nat | i < 10
      ensures ValidName(rows[i]) && WellFormed(rows[i])
    {
      NameIsValid(thresholds, i);
      RowIsWellFormed(thresholds, i);
    }
    RelationsHold(thresholds);
    AcceptedIffAcceptable(rows, order);
  }

  /** So whatever is configured, the suite's own catalog is rejected exactly when a timeout ends negative or a kind
      given adapters ends without a reconciled timeout. */
  lemma LoadRejectedIffBroken(thresholds: string -> EntityThresholds, s: Settings, keyOf: string -> string,
                              fields: seq<TimeoutField>, shared: set<string>, order: seq<string>)
    requires LoadRows(s, keyOf, fields, shared, EntityDescriptors(thresholds)).Ok?
    requires Enumerates(order, Kinds(LoadRows(s, keyOf, fields, shared, EntityDescriptors(thresholds)).value))
    ensures var rows := LoadRows(s, keyOf, fields, shared, EntityDescriptors(thresholds)).value;
            Build(rows, order).Err? <==> exists row :: row in rows && BrokenByConfig(s, keyOf, row)
  {
    var base := EntityDescriptors(thresholds);
    var some := Catalogs.AnyOrder(Kinds(base));
    TableIsAccepted(thresholds, some);
    RejectedIffBroken(s, keyOf, fields, base, some, order);
  }

  /** And a bare duration for both timeouts of clusters, with nothing else configured, makes loading the suite's table
      name either field. */
  lemma BareClusterTimeoutsReportEither(thresholds: string -> EntityThresholds, s: Settings, keyOf: string -> string,
                                        shared: set<string>)
    requires BareClusterTimeouts(s) && keyOf("Cluster") == "cluster"
    requires forall i :: 0 <= i < 10 && i != 5 ==> Untouched(s, keyOf(EntityDescriptors(thresholds)[i].kind))
    ensures LoadRows(s, keyOf, [Reconciled, Deleted], shared, EntityDescriptors(thresholds))
            == Err(BadTimeout("cluster", Reconciled))
    ensures LoadRows(s, keyOf, [Deleted, Reconciled], shared, EntityDescriptors(thresholds))
            == Err(BadTimeout("cluster", Deleted))
  {
    var rows := EntityDescriptors(thresholds);
    assert rows == rows[..5] + [rows[5]] + rows[6..];
    TwoBareDurationsReportEither(s, keyOf, shared, rows[..5], rows[5], rows[6..]);
  }

  lemma RelationsHold(thresholds: string -> EntityThresholds)
    ensures var rows := EntityDescriptors(thresholds);
            ParentsKnown(rows) && CleanupChildrenOwned(rows) && exists rank :: ParentsRanked(rows, rank)
  {
    var rows := EntityDescriptors(thresholds);
    NamesAreDistinct(thresholds);
    forall i: nat | i < 10
      ensures var p := ParentIndex(i);
              p < 10 && rows[p].parentKind == "" && rows[i].parentPlural == ""
              && (if p == i then rows[i].parentKind == "" else rows[i].parentKind == rows[p].kind)
    {
      ParentIsKnown(thresholds, i);
    }
    ParentsAreRanked(rows);
    ParentsByIndex(rows);
    forall e, c | e in rows && c in e.cleanup.childKinds
      ensures exists f :: f in rows && f.kind == c && f.parentKind == e.kind
    {
      var i: nat :| i < 10 && rows[i] == e;
      ChildIsOwned(thresholds, i, c);
      assert rows[8] in rows;
    }
  }
}
