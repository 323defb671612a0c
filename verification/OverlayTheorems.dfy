/** What configuration can break, what it leaves alone, and what the runtime's map orders can change. */
module OverlayTheorems {
  import opened Sequences
  import opened Text
  import opened Descriptor
  import opened Forest
  import opened Acceptance
  import opened Sorting
  import opened Overlay

  // ---------------------------------------------------------------- what configuration can break

  /** The ways configuration makes a row unusable. */
  predicate BrokenByConfig(s: Settings, keyOf: string -> string, row: Row) {
    || row.timeouts.reconciled < 0
    || row.timeouts.deleted < 0
    || (s.adapterValue(keyOf(row.kind)).Some? && row.timeouts.reconciled == 0)
  }

  predicate SameRouting(e: Row, f: Row) {
    && e.kind == f.kind && e.plural == f.plural
    && e.parentKind == f.parentKind && e.parentPlural == f.parentPlural && e.onParentDelete == f.onParentDelete
    && e.cleanup == f.cleanup && e.thresholds == f.thresholds
  }

  lemma OverlayKeepsRouting(s: Settings, keyOf: string -> string, fields: seq<TimeoutField>, base: seq<Row>)
    requires OverlayRows(s, keyOf, fields, base).Ok?
    ensures var rows := OverlayRows(s, keyOf, fields, base).value;
            |rows| == |base| && forall i :: 0 <= i < |base| ==> SameRouting(rows[i], base[i])
  {
    var rows := OverlayRows(s, keyOf, fields, base).value;
    forall i | 0 <= i < |base| ensures SameRouting(rows[i], base[i]) {
      assert OverlayRow(s, keyOf, fields, base[i]) == Ok(rows[i]);
    }
  }

  lemma RowBrokenIff(s: Settings, keyOf: string -> string, fields: seq<TimeoutField>, row: Row, overlaid: Row)
    requires WellFormed(row) && OverlayRow(s, keyOf, fields, row) == Ok(overlaid)
    ensures WellFormed(overlaid) <==> !BrokenByConfig(s, keyOf, overlaid)
  {
  }

  ghost predicate RowsRouteAlike(rows: seq<Row>, base: seq<Row>) {
    |rows| == |base| && forall i :: 0 <= i < |base| ==> SameRouting(rows[i], base[i])
  }

  lemma RoutingConditionsKept(rows: seq<Row>, base: seq<Row>)
    requires RowsRouteAlike(rows, base) && Acceptable(base)
    ensures ValidNames(rows) && DistinctNames(rows) && ParentsKnown(rows) && CleanupChildrenOwned(rows)
    ensures exists rank :: ParentsRanked(rows, rank)
  {
    RoutesKept(rows, base);
    ChildrenKept(rows, base);
    RanksKept(rows, base);
    NamesKept(rows, base);
  }

  lemma NamesKept(rows: seq<Row>, base: seq<Row>)
    requires RowsRouteAlike(rows, base) && ValidNames(base) && DistinctNames(base)
    ensures ValidNames(rows) && DistinctNames(rows)
  {
    forall e | e in rows ensures ValidName(e) {
      var f := Origin(rows, base, e);
    }
    forall i, j | 0 <= i < j < |rows| ensures rows[i].kind != rows[j].kind && rows[i].plural != rows[j].plural {
      assert SameRouting(rows[i], base[i]) && SameRouting(rows[j], base[j]);
    }
  }

  lemma RanksKept(rows: seq<Row>, base: seq<Row>)
    requires RowsRouteAlike(rows, base) && exists rank :: ParentsRanked(base, rank)
    ensures exists rank :: ParentsRanked(rows, rank)
  {
    var rank :| ParentsRanked(base, rank);
    forall e | e in rows
      ensures e.kind in rank && (e.parentKind != "" ==> e.parentKind in rank && rank[e.parentKind] < rank[e.kind])
    {
      var f := Origin(rows, base, e);
    }
    assert ParentsRanked(rows, rank);
  }

  lemma Origin(rows: seq<Row>, base: seq<Row>, e: Row) returns (f: Row)
    requires RowsRouteAlike(rows, base) && e in rows
    ensures f in base && SameRouting(e, f)
  {
    var i :| 0 <= i < |rows| && rows[i] == e;
    f := base[i];
  }

  lemma Counterpart(rows: seq<Row>, base: seq<Row>, f: Row) returns (e: Row)
    requires RowsRouteAlike(rows, base) && f in base
    ensures e in rows && SameRouting(e, f)
  {
    var i :| 0 <= i < |base| && base[i] == f;
    e := rows[i];
  }

  lemma RoutesKept(rows: seq<Row>, base: seq<Row>)
    requires RowsRouteAlike(rows, base) && ParentsKnown(base)
    ensures ParentsKnown(rows)
  {
    forall e | e in rows && e.parentKind != ""
      ensures exists p :: p in rows && p.kind == e.parentKind && (e.parentPlural == "" || e.parentPlural == p.plural)
    {
      var f := Origin(rows, base, e);
      var p := ParentKept(rows, base, f);
    }
  }

  lemma ParentKept(rows: seq<Row>, base: seq<Row>, f: Row) returns (p: Row)
    requires RowsRouteAlike(rows, base) && ParentsKnown(base) && f in base && f.parentKind != ""
    ensures p in rows && p.kind == f.parentKind && (f.parentPlural == "" || f.parentPlural == p.plural)
  {
    var q :| q in base && q.kind == f.parentKind && (f.parentPlural == "" || f.parentPlural == q.plural);
    p := Counterpart(rows, base, q);
  }

  lemma ChildrenKept(rows: seq<Row>, base: seq<Row>)
    requires RowsRouteAlike(rows, base) && CleanupChildrenOwned(base)
    ensures CleanupChildrenOwned(rows)
  {
    forall e, c | e in rows && c in e.cleanup.childKinds
      ensures exists f :: f in rows && f.kind == c && f.parentKind == e.kind
    {
      var f := Origin(rows, base, e);
      var child :| child in base && child.kind == c && child.parentKind == f.kind;
      var child' := Counterpart(rows, base, child);
    }
  }

  /** Over a table NewCatalog accepts, the overlaid rows are rejected exactly when a timeout ended negative or a kind
      that was given adapters ended without a reconciled timeout. Routing and hard-delete waiting cannot be broken. */
  lemma RejectedIffBroken(s: Settings, keyOf: string -> string, fields: seq<TimeoutField>, base: seq<Row>,
                          order: seq<string>, order': seq<string>)
    requires Enumerates(order, Kinds(base)) && Build(base, order).Ok?
    requires OverlayRows(s, keyOf, fields, base).Ok?
    requires Enumerates(order', Kinds(OverlayRows(s, keyOf, fields, base).value))
    ensures Build(OverlayRows(s, keyOf, fields, base).value, order').Err? <==>
            exists row :: row in OverlayRows(s, keyOf, fields, base).value && BrokenByConfig(s, keyOf, row)
  {
    var rows := OverlayRows(s, keyOf, fields, base).value;
    AcceptedIffAcceptable(base, order);
    AcceptedIffAcceptable(rows, order');
    OverlayKeepsRouting(s, keyOf, fields, base);
    RoutingConditionsKept(rows, base);
    forall i | 0 <= i < |rows| ensures WellFormed(rows[i]) <==> !BrokenByConfig(s, keyOf, rows[i]) {
      assert base[i] in base;
      RowBrokenIff(s, keyOf, fields, base[i], rows[i]);
    }
    AcceptableIffWellFormed(rows);
  }

  lemma AcceptableIffWellFormed(rows: seq<Row>)
    requires ValidNames(rows) && DistinctNames(rows) && ParentsKnown(rows) && CleanupChildrenOwned(rows)
    requires exists rank :: ParentsRanked(rows, rank)
    ensures Acceptable(rows) <==> forall i :: 0 <= i < |rows| ==> WellFormed(rows[i])
  {
    assert (forall row :: row in rows ==> WellFormed(row)) <==> forall i :: 0 <= i < |rows| ==> WellFormed(rows[i]);
  }

  /** The rejection then names one of those two causes, whatever order the catalog's range takes. */
  lemma RejectionBlamesConfig(s: Settings, keyOf: string -> string, fields: seq<TimeoutField>, base: seq<Row>,
                              order: seq<string>,
                              order': seq<string>)
    requires Enumerates(order, Kinds(base)) && Build(base, order).Ok?
    requires OverlayRows(s, keyOf, fields, base).Ok?
    requires Enumerates(order', Kinds(OverlayRows(s, keyOf, fields, base).value))
    requires Build(OverlayRows(s, keyOf, fields, base).value, order').Err?
    ensures var problem := Build(OverlayRows(s, keyOf, fields, base).value, order').error;
            problem.NegativeTimeouts? || problem.AdaptersWithoutTimeout?
  {
    var rows := OverlayRows(s, keyOf, fields, base).value;
    assert Acceptable(base) by { AcceptedIffAcceptable(base, order); }
    OverlayKeepsRouting(s, keyOf, fields, base);
    RoutingConditionsKept(rows, base);
    var t, k := RejectedKind(rows, order');
    var before := OverlaidFrom(s, keyOf, fields, base, t[k]);
    OnlySettingsFail(t, k, before);
  }

  lemma OverlaidFrom(s: Settings, keyOf: string -> string, fields: seq<TimeoutField>, base: seq<Row>, row: Row)
    returns (before: Row)
    requires OverlayRows(s, keyOf, fields, base).Ok? && row in OverlayRows(s, keyOf, fields, base).value
    requires forall e :: e in base ==> WellFormed(e)
    ensures WellFormed(before) && SameRouting(row, before)
    ensures before.timeouts.deleted != 0 ==> row.timeouts.deleted != 0
  {
    var rows := OverlayRows(s, keyOf, fields, base).value;
    var i :| 0 <= i < |rows| && rows[i] == row;
    before := base[i];
    assert OverlayRow(s, keyOf, fields, before) == Ok(row);
  }

  /** Rows whose names and relations are in order can only be rejected by the range, for the row of some kind. */
  lemma RejectedKind(rows: seq<Row>, order: seq<string>) returns (t: Table, k: string)
    requires ValidNames(rows) && DistinctNames(rows) && ParentsKnown(rows) && CleanupChildrenOwned(rows)
    requires exists rank :: ParentsRanked(rows, rank)
    requires Enumerates(order, Kinds(rows)) && Build(rows, order).Err?
    ensures k in t && t[k].kind == k && t[k] in rows && forall l :: l in t ==> ValidName(t[l])
    ensures TableParentsKnown(t) && AllReachRoots(t) && TableChildrenOwned(t)
    ensures RowProblem(t, k, t[k]) == Some(Build(rows, order).error)
  {
    t := IndexOf(rows);
    RowsAndTableAgree(t, rows);
    WalksAcceptIffAcyclic(t);
    k := RejectedByRange(rows, t, order);
  }

  lemma OnlySettingsFail(t: Table, k: string, before: Row)
    requires k in t && t[k].kind == k && forall l :: l in t ==> ValidName(t[l])
    requires TableParentsKnown(t) && AllReachRoots(t) && TableChildrenOwned(t)
    requires WellFormed(before) && SameRouting(t[k], before)
    requires before.timeouts.deleted != 0 ==> t[k].timeouts.deleted != 0
    ensures match RowProblem(t, k, t[k])
            case None => true
            case Some(problem) => problem.NegativeTimeouts? || problem.AdaptersWithoutTimeout?
  {
    var e := t[k];
    if e.parentKind in t { assert ValidName(t[e.parentKind]); }
    assert ValidRouting(ResolveRow(t, e));
  }

  // ---------------------------------------------------------------- what loads, and what an error says

  /** A section is a map, or not set, and each of its keys names a kind of the table or is one of the shared ones. */
  ghost predicate SectionFits(shape: Shape, keyOf: string -> string, base: seq<Row>, shared: set<string>) {
    match shape
    case Unset => true
    case NotAMap => false
    case MapOf(keys) => forall k :: k in keys ==> k in shared || exists row :: row in base && keyOf(row.kind) == k
  }

  /** The configuration of one kind: adapters that are set name some, the timeouts are a map of the two fields, or not
      set, and both decode. */
  ghost predicate KindFits(s: Settings, key: string) {
    && (match s.adapterValue(key)
        case None => true
        case Some(Plain(text)) => Names(Fields(text)) != []
        case Some(Listed(names)) => Names(names) != [])
    && (match s.kindTimeouts(key)
        case Unset => true
        case NotAMap => false
        case MapOf(keys) => forall k :: k in keys ==> k == "reconciled" || k == "deleted")
    && s.timeout(key, Reconciled).Decoded? && s.timeout(key, Deleted).Decoded?
  }

  lemma {:induction false} KindFitsIff(s: Settings, keyOf: string -> string, row: Row)
    ensures KindFits(s, keyOf(row.kind)) <==> RowLoads(s, keyOf, row)
  {
    FieldsFitIff(s.kindTimeouts(keyOf(row.kind)));
  }

  lemma {:induction false} FieldsFitIff(shape: Shape)
    ensures LeastUnknown(shape, TIMEOUT_FIELDS).None? <==>
            (shape.MapOf? ==> forall k :: k in shape.keys ==> k == "reconciled" || k == "deleted")
  {
    if shape.MapOf? { LeastUnknownIsLeast(shape.keys, TIMEOUT_FIELDS); }
  }

  lemma {:induction false} SectionFitsIff(section: string, shape: Shape, keyOf: string -> string, base: seq<Row>,
                                          shared: set<string>)
    ensures SectionProblem(section, shape, KeysOf(keyOf, base) + shared).None?
            <==> SectionFits(shape, keyOf, base, shared)
  {
    if shape.MapOf? { LeastUnknownIsLeast(shape.keys, KeysOf(keyOf, base) + shared); }
  }

  lemma {:induction false} RowsLoadIff(s: Settings, keyOf: string -> string, fields: seq<TimeoutField>, rows: seq<Row>)
    requires FieldOrder(fields)
    ensures OverlayRows(s, keyOf, fields, rows).Ok?
            <==> forall i :: 0 <= i < |rows| ==> KindFits(s, keyOf(rows[i].kind))
  {
    if rows != [] {
      RowsLoadIff(s, keyOf, fields, rows[1..]);
      FirstRowDecides(s, keyOf, fields, rows);
      RowLoadsIff(s, keyOf, fields, rows[0]);
      KindFitsIff(s, keyOf, rows[0]);
      assert forall i :: 1 <= i < |rows| ==> rows[i] == rows[1..][i - 1];
    }
  }

  lemma {:induction false} RowLoadsIff(s: Settings, keyOf: string -> string, fields: seq<TimeoutField>, row: Row)
    requires FieldOrder(fields)
    ensures OverlayRow(s, keyOf, fields, row).Ok? <==> RowLoads(s, keyOf, row)
  {
    if OverlayRow(s, keyOf, fields, row).Ok? { BothDecode(s, keyOf(row.kind), fields); }
    if RowLoads(s, keyOf, row) { NoneFails(s, keyOf(row.kind), fields); }
  }

  /** The rows load exactly when both sections name kinds of the table only, or under timeouts shared settings, and
      the configuration of every kind fits. */
  lemma {:induction false} LoadsIff(s: Settings, keyOf: string -> string, fields: seq<TimeoutField>,
                                    shared: set<string>, base: seq<Row>)
    requires FieldOrder(fields)
    ensures LoadRows(s, keyOf, fields, shared, base).Ok? <==>
            && SectionFits(s.adapters, keyOf, base, {})
            && SectionFits(s.timeouts, keyOf, base, shared)
            && forall i :: 0 <= i < |base| ==> KindFits(s, keyOf(base[i].kind))
  {
    SectionFitsIff("adapters", s.adapters, keyOf, base, {});
    assert KeysOf(keyOf, base) + {} == KeysOf(keyOf, base);
    SectionFitsIff("timeouts", s.timeouts, keyOf, base, shared);
    RowsLoadIff(s, keyOf, fields, base);
  }

  /** What is wrong with a section: it is not a map, or the least of its keys that it may not hold. */
  ghost predicate SectionBlamed(section: string, shape: Shape, keyOf: string -> string, base: seq<Row>,
                                shared: set<string>, error: LoadError) {
    match shape
    case Unset => false
    case NotAMap => error == NotMap(section)
    case MapOf(keys) =>
      && error.UnknownKey? && error.section == section
      && error.key in keys && Misplaced(error.key, keyOf, base, shared)
      && forall k :: k in keys && Misplaced(k, keyOf, base, shared) ==> AtMost(error.key, k)
  }

  ghost predicate Misplaced(key: string, keyOf: string -> string, base: seq<Row>, shared: set<string>) {
    key !in shared && forall row :: row in base ==> keyOf(row.kind) != key
  }

  predicate TimeoutName(name: string) { name == "reconciled" || name == "deleted" }

  /** What is wrong with the configuration of a kind, its adapters before its timeouts; "fields" is the order its
      timeouts are looked at in. */
  ghost predicate KindBlamed(s: Settings, key: string, fields: seq<TimeoutField>, error: LoadError)
    requires FieldOrder(fields)
  {
    if s.adapterValue(key).Some? && Names(Values(s.adapterValue(key).value)) == [] then error == NamesNoAdapter(key)
    else if s.kindTimeouts(key).NotAMap? then error == NotMap("timeouts." + key)
    else if s.kindTimeouts(key).MapOf? && exists k :: k in s.kindTimeouts(key).keys && !TimeoutName(k) then
      && error.UnknownField? && error.key == key
      && error.field in s.kindTimeouts(key).keys && !TimeoutName(error.field)
      && forall k :: k in s.kindTimeouts(key).keys && !TimeoutName(k) ==> AtMost(error.field, k)
    else
      && (s.timeout(key, fields[0]).Undecodable? ==> error == BadTimeout(key, fields[0]))
      && (s.timeout(key, fields[0]).Decoded? ==>
            s.timeout(key, fields[1]).Undecodable? && error == BadTimeout(key, fields[1]))
  }

  lemma {:induction false} SectionErrorIs(section: string, shape: Shape, keyOf: string -> string, base: seq<Row>,
                                          shared: set<string>)
    ensures var problem := SectionProblem(section, shape, KeysOf(keyOf, base) + shared);
            problem.Some? ==> SectionBlamed(section, shape, keyOf, base, shared, problem.value)
  {
    var keys := KeysOf(keyOf, base) + shared;
    forall k ensures k in keys <==> !Misplaced(k, keyOf, base, shared) {
    }
    if shape.MapOf? { LeastUnknownIsLeast(shape.keys, keys); }
  }

  lemma {:induction false} KindErrorIs(s: Settings, keyOf: string -> string, fields: seq<TimeoutField>, row: Row)
    requires FieldOrder(fields) && OverlayRow(s, keyOf, fields, row).Err?
    ensures KindBlamed(s, keyOf(row.kind), fields, OverlayRow(s, keyOf, fields, row).error)
  {
    var shape := s.kindTimeouts(keyOf(row.kind));
    if shape.MapOf? { LeastUnknownIsLeast(shape.keys, TIMEOUT_FIELDS); }
    assert forall k :: TimeoutName(k) <==> k in TIMEOUT_FIELDS;
    FirstOfTwo(s, keyOf(row.kind), fields);
  }

  lemma {:induction false} FirstOfTwo(s: Settings, key: string, fields: seq<TimeoutField>)
    requires FieldOrder(fields)
    ensures FirstUndecodable(s, key, fields) ==
            if s.timeout(key, fields[0]).Undecodable? then Some(fields[0])
            else if s.timeout(key, fields[1]).Undecodable? then Some(fields[1]) else None
  {
    assert fields[1..] == [fields[1]] && [fields[1]][1..] == [];
  }

  lemma {:induction false} FirstFailingRow(s: Settings, keyOf: string -> string, fields: seq<TimeoutField>,
                                           rows: seq<Row>)
    returns (i: nat)
    requires OverlayRows(s, keyOf, fields, rows).Err?
    ensures i < |rows| && OverlayRow(s, keyOf, fields, rows[i]) == Err(OverlayRows(s, keyOf, fields, rows).error)
    ensures forall j :: 0 <= j < i ==> OverlayRow(s, keyOf, fields, rows[j]).Ok?
  {
    FirstRowDecides(s, keyOf, fields, rows);
    if OverlayRow(s, keyOf, fields, rows[0]).Err? {
      i := 0;
    } else {
      var k := FirstFailingRow(s, keyOf, fields, rows[1..]);
      assert forall j :: 1 <= j < |rows| ==> rows[j] == rows[1..][j - 1];
      i := k + 1;
    }
  }

  /** The error of a failed load: the adapters section is looked at first, then the timeouts section, and then kind by
      kind in the order of the table. */
  lemma {:induction false} LoadErrorIs(s: Settings, keyOf: string -> string, fields: seq<TimeoutField>,
                                       shared: set<string>, base: seq<Row>)
    requires FieldOrder(fields) && LoadRows(s, keyOf, fields, shared, base).Err?
    ensures var error := LoadRows(s, keyOf, fields, shared, base).error;
            if !SectionFits(s.adapters, keyOf, base, {}) then
              SectionBlamed("adapters", s.adapters, keyOf, base, {}, error)
            else if !SectionFits(s.timeouts, keyOf, base, shared) then
              SectionBlamed("timeouts", s.timeouts, keyOf, base, shared, error)
            else
              exists i :: 0 <= i < |base| && KindBlamed(s, keyOf(base[i].kind), fields, error)
                          && forall j :: 0 <= j < i ==> KindFits(s, keyOf(base[j].kind))
  {
    assert KeysOf(keyOf, base) + {} == KeysOf(keyOf, base);
    SectionFitsIff("adapters", s.adapters, keyOf, base, {});
    SectionFitsIff("timeouts", s.timeouts, keyOf, base, shared);
    SectionErrorIs("adapters", s.adapters, keyOf, base, {});
    SectionErrorIs("timeouts", s.timeouts, keyOf, base, shared);
    if SettingsProblem(s, keyOf, shared, base).None? { FirstKindBlamed(s, keyOf, fields, base); }
  }

  lemma {:induction false} FirstKindBlamed(s: Settings, keyOf: string -> string, fields: seq<TimeoutField>,
                                           base: seq<Row>)
    requires FieldOrder(fields) && OverlayRows(s, keyOf, fields, base).Err?
    ensures var error := OverlayRows(s, keyOf, fields, base).error;
            exists i :: 0 <= i < |base| && KindBlamed(s, keyOf(base[i].kind), fields, error)
                        && forall j :: 0 <= j < i ==> KindFits(s, keyOf(base[j].kind))
  {
    var i := FirstFailingRow(s, keyOf, fields, base);
    KindErrorIs(s, keyOf, fields, base[i]);
    forall j | 0 <= j < i ensures KindFits(s, keyOf(base[j].kind)) {
      RowLoadsIff(s, keyOf, fields, base[j]);
      KindFitsIff(s, keyOf, base[j]);
    }
  }

  // ---------------------------------------------------------------- the order of map keys

  /** The same configuration, met in another order. */
  ghost predicate SameShape(a: Shape, b: Shape) {
    a == b || (a.MapOf? && b.MapOf? && multiset(a.keys) == multiset(b.keys))
  }

  ghost predicate SameSettings(s: Settings, s': Settings) {
    && SameShape(s.adapters, s'.adapters) && SameShape(s.timeouts, s'.timeouts)
    && s.adapterValue == s'.adapterValue && s.timeout == s'.timeout
    && forall key :: SameShape(s.kindTimeouts(key), s'.kindTimeouts(key))
  }

  lemma {:induction false} SameShapeSameUnknown(a: Shape, b: Shape, valid: set<string>)
    requires SameShape(a, b)
    ensures LeastUnknown(a, valid) == LeastUnknown(b, valid)
  {
    if a != b {
      SortedOrderIsUnique(Sort(a.keys, Itself), Sort(b.keys, Itself), Itself);
    }
  }

  lemma {:induction false} SameUndecodable(s: Settings, s': Settings, key: string, fields: seq<TimeoutField>)
    requires forall f :: s.timeout(key, f) == s'.timeout(key, f)
    ensures FirstUndecodable(s, key, fields) == FirstUndecodable(s', key, fields)
  {
    if fields != [] { SameUndecodable(s, s', key, fields[1..]); }
  }

  lemma {:induction false} RowIgnoresKeyOrder(s: Settings, s': Settings, keyOf: string -> string,
                                              fields: seq<TimeoutField>, row: Row)
    requires SameSettings(s, s')
    ensures OverlayRow(s, keyOf, fields, row) == OverlayRow(s', keyOf, fields, row)
  {
    var key := keyOf(row.kind);
    SameShapeSameUnknown(s.kindTimeouts(key), s'.kindTimeouts(key), TIMEOUT_FIELDS);
    assert s.adapterValue(key) == s'.adapterValue(key);
    SameUndecodable(s, s', key, fields);
  }

  lemma {:induction false} RowsIgnoreKeyOrder(s: Settings, s': Settings, keyOf: string -> string,
                                              fields: seq<TimeoutField>, rows: seq<Row>)
    requires SameSettings(s, s')
    ensures OverlayRows(s, keyOf, fields, rows) == OverlayRows(s', keyOf, fields, rows)
  {
    if rows != [] {
      RowIgnoresKeyOrder(s, s', keyOf, fields, rows[0]);
      RowsIgnoreKeyOrder(s, s', keyOf, fields, rows[1..]);
    }
  }

  /** The order the runtime gives configured keys in changes neither the rows nor the error, down to the key it names,
      whichever order it gives the two timeout fields in. */
  lemma {:induction false} LoadIgnoresKeyOrder(s: Settings, s': Settings, keyOf: string -> string,
                                               fields: seq<TimeoutField>, shared: set<string>,
                                               base: seq<Row>)
    requires SameSettings(s, s')
    ensures LoadRows(s, keyOf, fields, shared, base) == LoadRows(s', keyOf, fields, shared, base)
  {
    var keys := KeysOf(keyOf, base);
    SameShapeSameUnknown(s.adapters, s'.adapters, keys);
    SameShapeSameUnknown(s.timeouts, s'.timeouts, keys + shared);
    RowsIgnoreKeyOrder(s, s', keyOf, fields, base);
  }

  // ---------------------------------------------------------------- the order of timeout fields

  predicate RowLoads(s: Settings, keyOf: string -> string, row: Row) {
    var key := keyOf(row.kind);
    KeyProblem(s, key).None? && s.timeout(key, Reconciled).Decoded? && s.timeout(key, Deleted).Decoded?
  }

  /** Everything that is checked before the timeouts is in order, and neither timeout decodes. */
  predicate TwoBadTimeouts(s: Settings, keyOf: string -> string, row: Row) {
    var key := keyOf(row.kind);
    KeyProblem(s, key).None? && s.timeout(key, Reconciled).Undecodable? && s.timeout(key, Deleted).Undecodable?
  }

  /** The first row that does not load has two bad timeouts. */
  predicate FirstFailureAmbiguous(s: Settings, keyOf: string -> string, rows: seq<Row>) {
    rows != []
    && (TwoBadTimeouts(s, keyOf, rows[0]) || (RowLoads(s, keyOf, rows[0])
         && FirstFailureAmbiguous(s, keyOf, rows[1..])))
  }

  ghost predicate LoadsAlike(s: Settings, keyOf: string -> string, shared: set<string>, base: seq<Row>) {
    forall fields, fields' :: FieldOrder(fields) && FieldOrder(fields') ==>
      LoadRows(s, keyOf, fields, shared, base) == LoadRows(s, keyOf, fields', shared, base)
  }

  lemma {:induction false} RowReports(s: Settings, keyOf: string -> string, row: Row)
    ensures var reconciledFirst := OverlayRow(s, keyOf, [Reconciled, Deleted], row);
            var deletedFirst := OverlayRow(s, keyOf, [Deleted, Reconciled], row);
            && (reconciledFirst.Ok? <==> RowLoads(s, keyOf, row))
            && (reconciledFirst == deletedFirst <==> !TwoBadTimeouts(s, keyOf, row))
  {
    var key := keyOf(row.kind);
    assert [Reconciled, Deleted][1..] == [Deleted] && [Deleted, Reconciled][1..] == [Reconciled];
    assert [Deleted][1..] == [] && [Reconciled][1..] == [];
    var both := FirstUndecodable(s, key, [Reconciled, Deleted]);
    assert both == if s.timeout(key, Reconciled).Undecodable? then Some(Reconciled)
                   else FirstUndecodable(s, key, [Deleted]);
    assert FirstUndecodable(s, key, [Deleted]) == if s.timeout(key, Deleted).Undecodable? then Some(Deleted) else None;
    assert FirstUndecodable(s, key, [Deleted, Reconciled])
        == if s.timeout(key, Deleted).Undecodable? then Some(Deleted) else FirstUndecodable(s, key, [Reconciled]);
  }

  lemma {:induction false} RowsReport(s: Settings, keyOf: string -> string, rows: seq<Row>)
    ensures OverlayRows(s, keyOf, [Reconciled, Deleted], rows) == OverlayRows(s, keyOf, [Deleted, Reconciled], rows)
            <==> !FirstFailureAmbiguous(s, keyOf, rows)
  {
    if rows != [] {
      RowReports(s, keyOf, rows[0]);
      RowsReport(s, keyOf, rows[1..]);
      FirstRowDecides(s, keyOf, [Reconciled, Deleted], rows);
      FirstRowDecides(s, keyOf, [Deleted, Reconciled], rows);
      if RowLoads(s, keyOf, rows[0]) {
        PrependSame(OverlayRow(s, keyOf, [Reconciled, Deleted], rows[0]).value,
          OverlayRows(s, keyOf, [Reconciled, Deleted], rows[1..]),
          OverlayRows(s, keyOf, [Deleted, Reconciled], rows[1..]));
      }
    }
  }

  lemma {:induction false} FirstRowDecides(s: Settings, keyOf: string -> string, fields: seq<TimeoutField>,
                                           rows: seq<Row>)
    requires rows != []
    ensures match OverlayRow(s, keyOf, fields, rows[0])
            case Err(error) => OverlayRows(s, keyOf, fields, rows) == Err(error)
            case Ok(row) =>
              OverlayRows(s, keyOf, fields, rows) == Prepend([row], OverlayRows(s, keyOf, fields, rows[1..]))
  {
  }

  lemma PrependSame(row: Row, a: Result<seq<Row>, LoadError>, b: Result<seq<Row>, LoadError>)
    ensures Prepend([row], a) == Prepend([row], b) <==> a == b
  {
    if a.Ok? && b.Ok? && [row] + a.value == [row] + b.value {
      assert a.value == ([row] + a.value)[1..] && b.value == ([row] + b.value)[1..];
    }
  }

  /** Which field a decode error names is up to the runtime when both are bad: the two field orders give the same
      rows, or the same error, exactly when the first row that does not load has at least one good timeout or fails
      an earlier check. */
  lemma {:induction false} FieldOrderIrrelevantIff(s: Settings, keyOf: string -> string, shared: set<string>,
                                                   base: seq<Row>)
    ensures LoadsAlike(s, keyOf, shared, base)
            <==> SettingsProblem(s, keyOf, shared, base).Some? || !FirstFailureAmbiguous(s, keyOf, base)
  {
    RowsReport(s, keyOf, base);
    var reconciledFirst := LoadRows(s, keyOf, [Reconciled, Deleted], shared, base);
    var deletedFirst := LoadRows(s, keyOf, [Deleted, Reconciled], shared, base);
    assert LoadsAlike(s, keyOf, shared, base) <==> reconciledFirst == deletedFirst;
  }

  /** The configuration of two bare durations, such as "300", which do not decode, for clusters. */
  ghost predicate BareClusterTimeouts(s: Settings) {
    && s.adapters.Unset? && s.timeouts == MapOf(["cluster"])
    && s.adapterValue("cluster").None? && s.kindTimeouts("cluster") == MapOf(["deleted", "reconciled"])
    && s.timeout("cluster", Reconciled).Undecodable? && s.timeout("cluster", Deleted).Undecodable?
  }

  /** Wherever the row of clusters stands in a table whose rows before it are not configured, the error names the
      field that comes first. */
  lemma {:induction false} TwoBareDurationsReportEither(s: Settings, keyOf: string -> string, shared: set<string>,
                                                        before: seq<Row>, row: Row, after: seq<Row>)
    requires BareClusterTimeouts(s) && keyOf(row.kind) == "cluster"
    requires forall i :: 0 <= i < |before| ==> Untouched(s, keyOf(before[i].kind))
    ensures LoadRows(s, keyOf, [Reconciled, Deleted], shared, before + [row] + after)
            == Err(BadTimeout("cluster", Reconciled))
    ensures LoadRows(s, keyOf, [Deleted, Reconciled], shared, before + [row] + after)
            == Err(BadTimeout("cluster", Deleted))
  {
    var rest := [row] + after;
    KeysFit(s, keyOf, shared, before, row, after);
    Regroup(before, [row], after);
    UntouchedRowsSkipped(s, keyOf, [Reconciled, Deleted], before, rest);
    UntouchedRowsSkipped(s, keyOf, [Deleted, Reconciled], before, rest);
    FirstRowDecides(s, keyOf, [Reconciled, Deleted], rest);
    FirstRowDecides(s, keyOf, [Deleted, Reconciled], rest);
  }

  lemma {:induction false} UntouchedRowsSkipped(s: Settings, keyOf: string -> string, fields: seq<TimeoutField>,
                                                before: seq<Row>, rest: seq<Row>)
    requires forall i :: 0 <= i < |before| ==> Untouched(s, keyOf(before[i].kind))
    ensures OverlayRows(s, keyOf, fields, before + rest) == Prepend(before, OverlayRows(s, keyOf, fields, rest))
  {
    if before == [] {
      assert before + rest == rest;
      PrependNothing(OverlayRows(s, keyOf, fields, rest));
    } else {
      var all := before + rest;
      assert all[0] == before[0] && all[1..] == before[1..] + rest;
      UntouchedRowsSkipped(s, keyOf, fields, before[1..], rest);
      UntouchedRowStays(s, keyOf, fields, before[0]);
      FirstRowDecides(s, keyOf, fields, all);
      PrependTogether(before[0], before[1..], OverlayRows(s, keyOf, fields, rest));
      assert [before[0]] + before[1..] == before;
    }
  }

  lemma PrependTogether(row: Row, rows: seq<Row>, result: Result<seq<Row>, LoadError>)
    ensures Prepend([row], Prepend(rows, result)) == Prepend([row] + rows, result)
  {
    if result.Ok? { Regroup([row], rows, result.value); }
  }

  lemma {:induction false} KeysFit(s: Settings, keyOf: string -> string, shared: set<string>, before: seq<Row>,
                                   row: Row, after: seq<Row>)
    requires BareClusterTimeouts(s) && keyOf(row.kind) == "cluster"
    ensures SettingsProblem(s, keyOf, shared, before + [row] + after).None? && KeyProblem(s, "cluster").None?
  {
    var base := before + [row] + after;
    assert base[|before|] == row && row in base;
    OnlyKeyKnown("cluster", KeysOf(keyOf, base) + shared);
    FieldsKnown();
  }

  lemma {:induction false} OnlyKeyKnown(key: string, valid: set<string>)
    requires key in valid
    ensures LeastUnknown(MapOf([key]), valid).None?
  {
    LeastUnknownIsLeast([key], valid);
  }

  lemma {:induction false} FieldsKnown()
    ensures LeastUnknown(MapOf(["deleted", "reconciled"]), TIMEOUT_FIELDS).None?
  {
    LeastUnknownIsLeast(["deleted", "reconciled"], TIMEOUT_FIELDS);
  }

  // ---------------------------------------------------------------- what configuration leaves alone

  /** A key nothing is configured for. */
  ghost predicate Untouched(s: Settings, key: string) {
    && s.adapterValue(key).None?
    && s.kindTimeouts(key).Unset?
    && forall f :: s.timeout(key, f) == Decoded(0)
  }

  /** The same configuration for the given keys, and nothing for the others. */
  function Only(s: Settings, keys: set<string>): Settings {
    s.(adapterValue := key => if key in keys then s.adapterValue(key) else None,
       kindTimeouts := key => if key in keys then s.kindTimeouts(key) else Unset,
       timeout := (key, field) => if key in keys then s.timeout(key, field) else Decoded(0))
  }

  lemma UntouchedRowStays(s: Settings, keyOf: string -> string, fields: seq<TimeoutField>, row: Row)
    requires Untouched(s, keyOf(row.kind))
    ensures OverlayRow(s, keyOf, fields, row) == Ok(row)
  {
  }

  lemma RowOverlaysCompose(s: Settings, keyOf: string -> string, fields: seq<TimeoutField>, row: Row,
                           some: set<string>, others: set<string>)
    requires some !! others && OverlayRow(Only(s, some), keyOf, fields, row).Ok?
    ensures OverlayRow(Only(s, others), keyOf, fields, OverlayRow(Only(s, some), keyOf, fields, row).value)
            == OverlayRow(Only(s, some + others), keyOf, fields, row)
  {
    var first := OverlayRow(Only(s, some), keyOf, fields, row).value;
    assert keyOf(first.kind) == keyOf(row.kind);
    var key := keyOf(row.kind);
    if key !in some {
      UntouchedRowStays(Only(s, some), keyOf, fields, row);
      SameUndecodable(Only(s, others), Only(s, some + others), key, fields);
    } else {
      UntouchedRowStays(Only(s, others), keyOf, fields, first);
      SameUndecodable(Only(s, some), Only(s, some + others), key, fields);
    }
  }

  /** Configuring some kinds and then others is configuring them together, so the order of overlays on different
      kinds does not matter. */
  lemma {:induction false} OverlaysCompose(s: Settings, keyOf: string -> string, fields: seq<TimeoutField>,
                                           base: seq<Row>, some: set<string>,
                                           others: set<string>)
    requires some !! others && OverlayRows(Only(s, some), keyOf, fields, base).Ok?
    ensures OverlayRows(Only(s, others), keyOf, fields, OverlayRows(Only(s, some), keyOf, fields, base).value)
            == OverlayRows(Only(s, some + others), keyOf, fields, base)
  {
    if base != [] {
      var first := OverlayRow(Only(s, some), keyOf, fields, base[0]).value;
      RowOverlaysCompose(s, keyOf, fields, base[0], some, others);
      OverlaysCompose(s, keyOf, fields, base[1..], some, others);
      var rows := OverlayRows(Only(s, some), keyOf, fields, base).value;
      assert rows[0] == first && rows[1..] == OverlayRows(Only(s, some), keyOf, fields, base[1..]).value;
    }
  }

  lemma OverlaysCommute(s: Settings, keyOf: string -> string, fields: seq<TimeoutField>, base: seq<Row>,
                        some: set<string>, others: set<string>)
    requires some !! others
    requires OverlayRows(Only(s, some), keyOf, fields, base).Ok?
            && OverlayRows(Only(s, others), keyOf, fields, base).Ok?
    ensures OverlayRows(Only(s, others), keyOf, fields, OverlayRows(Only(s, some), keyOf, fields, base).value)
            == OverlayRows(Only(s, some), keyOf, fields, OverlayRows(Only(s, others), keyOf, fields, base).value)
  {
    OverlaysCompose(s, keyOf, fields, base, some, others);
    OverlaysCompose(s, keyOf, fields, base, others, some);
    assert some + others == others + some;
  }
}
