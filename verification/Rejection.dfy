/** Which problem NewCatalog reports when there are several. */
module Rejection {
  import opened Sequences
  import opened Text
  import opened Descriptor
  import opened Forest
  import opened Acceptance

  /** What the first pass has against the i-th row. */
  ghost predicate NameComplaint(rows: seq<Row>, i: nat, p: Problem)
    requires i < |rows|
  {
    match p
    case KindAndPluralRequired(kind, plural) => !ValidName(rows[i]) && rows[i].kind == kind && rows[i].plural == plural
    case DuplicateKind(kind) => rows[i].kind == kind && exists j :: 0 <= j < i && rows[j].kind == kind
    case DuplicatePlural(plural) => rows[i].plural == plural && exists j :: 0 <= j < i && rows[j].plural == plural
    case _ => false
  }

  /** A cleanup child that is not a child of the row, the first in its list. */
  ghost predicate FirstForeign(rows: seq<Row>, e: Row, child: string) {
    exists i :: 0 <= i < |e.cleanup.childKinds| && e.cleanup.childKinds[i] == child && Foreign(rows, e, child)
                && forall j :: 0 <= j < i ==> !Foreign(rows, e, e.cleanup.childKinds[j])
  }

  ghost predicate Foreign(rows: seq<Row>, e: Row, child: string) {
    forall f :: f in rows && f.kind == child ==> f.parentKind != e.kind
  }

  /** What the second pass has against a row. */
  ghost predicate RowComplaint(rows: seq<Row>, e: Row, p: Problem) {
    match p
    case UnknownParent(kind, parent) =>
      kind == e.kind && parent == e.parentKind != "" && forall f :: f in rows ==> f.kind != parent
    case ParentPluralMismatch(kind, plural) =>
      && kind == e.kind && e.parentKind != "" && e.parentPlural != "" && e.parentPlural != plural
      && exists f :: f in rows && f.kind == e.parentKind && f.plural == plural
    case RootHasParentMetadata(kind) =>
      kind == e.kind && e.parentKind == "" && (e.parentPlural != "" || e.onParentDelete != "")
    case ParentMetadataMissing(kind) =>
      kind == e.kind && e.parentKind != "" && e.onParentDelete != "cascade" && e.onParentDelete != "restrict"
    case NegativeTimeouts(kind) => kind == e.kind && (e.timeouts.reconciled < 0 || e.timeouts.deleted < 0)
    case AdaptersWithoutTimeout(kind) => kind == e.kind && e.requiredAdapters != [] && e.timeouts.reconciled == 0
    case HardDeleteWithoutTimeout(kind) => kind == e.kind && e.cleanup.waitForHardDelete && e.timeouts.deleted <= 0
    case CyclicParents(kind) => kind == e.kind && Revisits(ByKind(rows), kind)
    case ForeignCleanupChild(child, kind) => kind == e.kind && FirstForeign(rows, e, child)
    case _ => false
  }

  /** The order of the checks. */
  function Check(p: Problem): nat {
    match p
    case KindAndPluralRequired(_, _) => 0
    case DuplicateKind(_) => 1
    case DuplicatePlural(_) => 2
    case UnknownParent(_, _) => 3
    case ParentPluralMismatch(_, _) => 4
    case RootHasParentMetadata(_) => 5
    case ParentMetadataMissing(_) => 6
    case NegativeTimeouts(_) => 7
    case AdaptersWithoutTimeout(_) => 8
    case HardDeleteWithoutTimeout(_) => 9
    case CyclicParents(_) => 10
    case ForeignCleanupChild(_, _) => 11
  }

  // ---------------------------------------------------------------- the first pass

  /** The first of the first pass's complaints: of the first row there is one against, the first check. */
  ghost predicate FirstNaming(rows: seq<Row>, i: nat, p: Problem)
    requires i < |rows|
  {
    && NameComplaint(rows, i, p) && (forall q :: NameComplaint(rows, i, q) ==> Check(p) <= Check(q))
    && forall j: nat, q :: j < i ==> !NameComplaint(rows, j, q)
  }

  /** Midway through the first pass, the kinds and plurals met are those of the rows before. */
  ghost predicate Met(rows: seq<Row>, i: nat, entries: Table, plurals: set<string>)
    requires i <= |rows|
  {
    && (forall k :: k in entries <==> exists j :: 0 <= j < i && rows[j].kind == k)
    && (forall p :: p in plurals <==> exists j :: 0 <= j < i && rows[j].plural == p)
  }

  lemma NamingProblem(rows: seq<Row>, i: nat, entries: Table, plurals: set<string>, q: Problem)
    requires i < |rows| && Met(rows, i, entries, plurals)
    ensures var found := NameProblem(rows[i], entries, plurals);
            && (found.Some? ==> NameComplaint(rows, i, found.value))
            && (NameComplaint(rows, i, q) ==> found.Some? && Check(found.value) <= Check(q))
  {
  }

  lemma {:induction false} FirstNamingReported(rows: seq<Row>, i: nat, entries: Table, plurals: set<string>)
    returns (at: nat)
    requires i <= |rows| && Met(rows, i, entries, plurals)
    requires forall j: nat, q :: j < i ==> !NameComplaint(rows, j, q)
    ensures var result := IndexRows(rows[i..], entries, plurals);
            && (result.Err? ==> at < |rows| && FirstNaming(rows, at, result.error))
            && (result.Ok? ==> forall j: nat, q :: j < |rows| ==> !NameComplaint(rows, j, q))
    decreases |rows| - i
  {
    at := 0;
    if i < |rows| {
      assert rows[i..][0] == rows[i] && rows[i..][1..] == rows[i + 1..];
      var e, found := rows[i], NameProblem(rows[i], entries, plurals);
      forall q
        ensures found.Some? ==> NameComplaint(rows, i, found.value)
        ensures NameComplaint(rows, i, q) ==> found.Some? && Check(found.value) <= Check(q)
      {
        NamingProblem(rows, i, entries, plurals, q);
      }
      if found.Some? {
        NamingProblem(rows, i, entries, plurals, found.value);
        at := i;
      } else {
        at := FirstNamingReported(rows, i + 1, entries[e.kind := e], plurals + {e.plural});
      }
    }
  }

  // ---------------------------------------------------------------- the second pass

  ghost predicate FirstOfRow(rows: seq<Row>, e: Row, p: Problem) {
    RowComplaint(rows, e, p) && forall q :: RowComplaint(rows, e, q) ==> Check(p) <= Check(q)
  }

  lemma ParentComplaint(t: Table, rows: seq<Row>, k: string, q: Problem)
    requires Indexes(t, rows) && k in t
    requires q.UnknownParent? || q.ParentPluralMismatch?
    ensures var found := RowProblem(t, k, t[k]);
            && (found == Some(q) ==> RowComplaint(rows, t[k], q))
            && (RowComplaint(rows, t[k], q) ==> found.Some? && Check(found.value) <= Check(q))
  {
    IndexedHasNoBlankKind(t, rows);
    var e := t[k];
    if e.parentKind in t { assert t[e.parentKind] in rows && t[e.parentKind].kind == e.parentKind; }
  }

  lemma ParentFits(t: Table, rows: seq<Row>, k: string)
    requires Indexes(t, rows) && k in t
    requires RowProblem(t, k, t[k]).None? || Check(RowProblem(t, k, t[k]).value) > 4
    ensures t[k].parentKind == "" || (t[k].parentKind in t && ValidSegment(t[t[k].parentKind].plural))
    ensures ResolveRow(t, t[k]) == t[k].(parentPlural := ResolveRow(t, t[k]).parentPlural)
    ensures ValidName(t[k])
  {
  }

  lemma ValidateComplaint(rows: seq<Row>, e: Row, r: Row, q: Problem)
    requires ValidName(e) && r == e.(parentPlural := r.parentPlural)
    requires if e.parentKind == "" then r.parentPlural == e.parentPlural else ValidSegment(r.parentPlural)
    ensures Validate(r).Some? ==> 5 <= Check(Validate(r).value) <= 9
    ensures Validate(r) == Some(q) ==> RowComplaint(rows, e, q)
    ensures 5 <= Check(q) <= 9 && RowComplaint(rows, e, q) ==>
              Validate(r).Some? && Check(Validate(r).value) <= Check(q)
  {
  }

  lemma SettingsComplaint(t: Table, rows: seq<Row>, k: string, q: Problem)
    requires Indexes(t, rows) && k in t && 5 <= Check(q) <= 9
    ensures var found := RowProblem(t, k, t[k]);
            && (found == Some(q) ==> RowComplaint(rows, t[k], q))
            && (RowComplaint(rows, t[k], q) ==> found.Some? && Check(found.value) <= Check(q))
  {
    var found := RowProblem(t, k, t[k]);
    if found.None? || Check(found.value) > 4 {
      ParentFits(t, rows, k);
      ValidateComplaint(rows, t[k], ResolveRow(t, t[k]), q);
    }
  }

  /** The checks after Validate, on a row that passes it. */
  lemma LastChecks(t: Table, rows: seq<Row>, k: string)
    requires Indexes(t, rows) && k in t
    ensures var found, foreign := RowProblem(t, k, t[k]), ForeignChild(t, k, t[k].cleanup.childKinds);
            || (found.Some? && Check(found.value) <= 9)
            || (if !ReachesRoot(t, {k}, t[k].parentKind) then found == Some(CyclicParents(k))
                else if foreign.Some? then found == Some(ForeignCleanupChild(foreign.value, k)) else found.None?)
  {
    var found := RowProblem(t, k, t[k]);
    if found.None? || Check(found.value) > 4 {
      ParentFits(t, rows, k);
      ValidateComplaint(rows, t[k], ResolveRow(t, t[k]), CyclicParents(k));
    }
  }

  lemma CyclicComplaint(t: Table, rows: seq<Row>, k: string, q: Problem)
    requires Indexes(t, rows) && t == ByKind(rows) && k in t && q.CyclicParents?
    ensures var found := RowProblem(t, k, t[k]);
            && (found == Some(q) ==> RowComplaint(rows, t[k], q))
            && (RowComplaint(rows, t[k], q) ==> found.Some? && Check(found.value) <= Check(q))
  {
    IndexedHasNoBlankKind(t, rows);
    LastChecks(t, rows, k);
    WalkRejectsIffRevisits(t, k);
  }

  lemma ChildComplaint(t: Table, rows: seq<Row>, k: string, q: Problem)
    requires Indexes(t, rows) && k in t && q.ForeignCleanupChild?
    ensures var found := RowProblem(t, k, t[k]);
            && (found == Some(q) ==> RowComplaint(rows, t[k], q))
            && (RowComplaint(rows, t[k], q) ==> found.Some? && Check(found.value) <= Check(q))
  {
    LastChecks(t, rows, k);
    ForeignComplaint(t, rows, k, q.child);
  }

  lemma ForeignComplaint(t: Table, rows: seq<Row>, k: string, child: string)
    requires Indexes(t, rows) && k in t
    ensures ForeignChild(t, k, t[k].cleanup.childKinds) == Some(child) <==> FirstForeign(rows, t[k], child)
  {
    var e := t[k];
    var children := e.cleanup.childKinds;
    forall c ensures Foreign(rows, e, c) <==> c !in t || t[c].parentKind != k {
      if c in t { assert t[c] in rows && t[c].kind == c; }
    }
    var found := ForeignChild(t, k, children);
    if found.Some? {
      var i := ForeignChildAt(t, k, children);
      assert Foreign(rows, e, children[i]);
      assert forall j :: 0 <= j < i ==> !Foreign(rows, e, children[j]);
      assert FirstForeign(rows, e, found.value);
      forall i' | 0 <= i' < |children| && Foreign(rows, e, children[i'])
                  && forall j :: 0 <= j < i' ==> !Foreign(rows, e, children[j])
        ensures i' == i
      {
      }
    }
  }

  lemma {:induction false} ForeignChildAt(t: Table, kind: string, children: seq<string>) returns (i: nat)
    requires ForeignChild(t, kind, children).Some?
    ensures i < |children| && ForeignChild(t, kind, children) == Some(children[i])
    ensures children[i] !in t || t[children[i]].parentKind != kind
    ensures forall j :: 0 <= j < i ==> children[j] in t && t[children[j]].parentKind == kind
  {
    if children[0] !in t || t[children[0]].parentKind != kind {
      i := 0;
    } else {
      var h := ForeignChildAt(t, kind, children[1..]);
      assert forall j :: 1 <= j < |children| ==> children[j] == children[1..][j - 1];
      i := h + 1;
    }
  }

  /** A rejected row's problem is the first, in the order of the checks, that there is against it. */
  lemma RowReportsFirst(t: Table, rows: seq<Row>, k: string)
    requires Indexes(t, rows) && t == ByKind(rows) && k in t
    ensures RowProblem(t, k, t[k]).Some? ==> FirstOfRow(rows, t[k], RowProblem(t, k, t[k]).value)
    ensures RowProblem(t, k, t[k]).None? ==> forall q :: !RowComplaint(rows, t[k], q)
  {
    forall q
      ensures RowProblem(t, k, t[k]) == Some(q) ==> RowComplaint(rows, t[k], q)
      ensures RowComplaint(rows, t[k], q) ==>
                RowProblem(t, k, t[k]).Some? && Check(RowProblem(t, k, t[k]).value) <= Check(q)
    {
      OneComplaint(t, rows, k, q);
    }
  }

  lemma OneComplaint(t: Table, rows: seq<Row>, k: string, q: Problem)
    requires Indexes(t, rows) && t == ByKind(rows) && k in t
    ensures RowProblem(t, k, t[k]) == Some(q) ==> RowComplaint(rows, t[k], q)
    ensures RowComplaint(rows, t[k], q) ==>
              RowProblem(t, k, t[k]).Some? && Check(RowProblem(t, k, t[k]).value) <= Check(q)
  {
    if q.CyclicParents? {
      CyclicComplaint(t, rows, k, q);
    } else if q.ForeignCleanupChild? {
      ChildComplaint(t, rows, k, q);
    } else if Check(q) > 4 {
      SettingsComplaint(t, rows, k, q);
    } else if Check(q) > 2 {
      ParentComplaint(t, rows, k, q);
    } else {
      NoNamingProblem(t, rows, k);
    }
  }

  lemma NoNamingProblem(t: Table, rows: seq<Row>, k: string)
    requires Indexes(t, rows) && k in t
    ensures RowProblem(t, k, t[k]).Some? ==> Check(RowProblem(t, k, t[k]).value) > 2
  {
    var found := RowProblem(t, k, t[k]);
    if found.None? || Check(found.value) > 4 || Check(found.value) <= 2 {
      var e := t[k];
      if e.parentKind == "" || e.parentKind in t {
        if e.parentKind != "" { assert ValidName(t[e.parentKind]); }
        ValidateComplaint(rows, e, ResolveRow(t, e), NegativeTimeouts(k));
      }
    }
  }

  // ---------------------------------------------------------------- both

  /** A naming problem comes first, row by row in the table's order; without one it is the first kind of the range
      that there is anything against. */
  ghost predicate FirstReported(rows: seq<Row>, order: seq<string>, p: Problem) {
    if Check(p) <= 2 then exists i: nat :: i < |rows| && FirstNaming(rows, i, p)
    else
      && (forall i: nat, q :: i < |rows| ==> !NameComplaint(rows, i, q))
      && exists n :: 0 <= n < |order| && ReportedOf(rows, order[n], p)
                     && forall m :: 0 <= m < n ==> NothingAgainst(rows, order[m])
  }

  ghost predicate ReportedOf(rows: seq<Row>, kind: string, p: Problem) {
    exists e :: e in rows && e.kind == kind && FirstOfRow(rows, e, p)
  }

  ghost predicate NothingAgainst(rows: seq<Row>, kind: string) {
    forall e, q :: e in rows && e.kind == kind ==> !RowComplaint(rows, e, q)
  }

  lemma {:induction false} ReportedKind(t: Table, order: seq<string>) returns (n: nat)
    requires (forall k :: k in order ==> k in t) && FirstProblem(t, order).Some?
    ensures n < |order| && FirstProblem(t, order) == RowProblem(t, order[n], t[order[n]])
    ensures forall m :: 0 <= m < n ==> RowProblem(t, order[m], t[order[m]]).None?
  {
    if RowProblem(t, order[0], t[order[0]]).Some? {
      n := 0;
    } else {
      var rest := order[1..];
      var h := ReportedKind(t, rest);
      n := h + 1;
      assert order[n] == rest[h];
      forall m | 0 < m < n ensures RowProblem(t, order[m], t[order[m]]).None? {
        assert order[m] == rest[m - 1];
      }
    }
  }

  lemma RangeReportsFirst(t: Table, rows: seq<Row>, order: seq<string>)
    requires Indexes(t, rows) && t == ByKind(rows) && Enumerates(order, t.Keys) && FirstProblem(t, order).Some?
    requires forall i: nat, q :: i < |rows| ==> !NameComplaint(rows, i, q)
    ensures FirstReported(rows, order, FirstProblem(t, order).value)
  {
    var p := FirstProblem(t, order).value;
    var n := ReportedKind(t, order);
    NoNamingProblem(t, rows, order[n]);
    RowReportsFirst(t, rows, order[n]);
    assert ReportedOf(rows, order[n], p);
    forall m | 0 <= m < n ensures NothingAgainst(rows, order[m]) {
      RowReportsFirst(t, rows, order[m]);
    }
  }

  /** Whatever order the range takes, the problem reported is the first there is. */
  lemma FirstProblemReported(rows: seq<Row>, order: seq<string>)
    requires Enumerates(order, Kinds(rows)) && Build(rows, order).Err?
    ensures FirstReported(rows, order, Build(rows, order).error)
  {
    IndexRowsCorrect(rows, map[], {});
    assert rows[0..] == rows;
    var at := FirstNamingReported(rows, 0, map[], {});
    if IndexRows(rows, map[], {}).Err? {
      assert FirstNaming(rows, at, Build(rows, order).error);
    } else {
      var t := IndexOf(rows);
      assert IndexRows(rows, map[], {}) == Ok(t) by { assert map[] + ByKind(rows) == ByKind(rows); }
      RangeOutcome(t, t, order);
      RangeReportsFirst(t, rows, order);
    }
  }
}
