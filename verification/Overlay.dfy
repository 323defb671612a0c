/** config.loadEntityCatalog: configured adapters and timeouts laid over a descriptor table. */
module Overlay {
  import opened Sequences
  import opened Text
  import opened Descriptor
  import opened Forest
  import opened Acceptance
  import opened Catalogs
  import opened Sorting

  // ---------------------------------------------------------------- decoded configuration

  /** What viper.Get finds where a map belongs; a map's keys come in the order the runtime ranges over them. */
  datatype Shape = Unset | MapOf(keys: seq<string>) | NotAMap

  datatype Raw = Plain(text: string) | Listed(names: seq<string>)

  /** A duration after decoding; an unset one decodes to zero. */
  datatype Decoded = Decoded(value: Duration) | Undecodable

  datatype TimeoutField = Reconciled | Deleted

  /** The orders a range over the two fields may take. */
  predicate FieldOrder(fields: seq<TimeoutField>) {
    fields == [Reconciled, Deleted] || fields == [Deleted, Reconciled]
  }

  datatype Settings = Settings(
    adapters: Shape,
    timeouts: Shape,
    adapterValue: string -> Option<Raw>,
    kindTimeouts: string -> Shape,
    timeout: (string, TimeoutField) -> Decoded)

  datatype LoadError =
    | NotMap(path: string)
    | UnknownKey(section: string, key: string)
    | NamesNoAdapter(key: string)
    | UnknownField(key: string, field: string)
    | BadTimeout(key: string, timeout: TimeoutField)
    | Rejected(problem: Problem)

  // ---------------------------------------------------------------- string lists

  predicate IsSeparator(c: char) { c == ',' || IsSpace(c) }

  predicate IsWord(s: string) {
    s != "" && forall i :: 0 <= i < |s| ==> !IsSeparator(s[i])
  }

  /** strings.FieldsFunc on commas and white space: the maximal runs without a separator. */
  function Fields(s: string): (fields: seq<string>)
    ensures forall i :: 0 <= i < |fields| ==> IsWord(fields[i])
    ensures |s| > 0 && !IsSeparator(s[0]) ==> fields != []
  {
    if s == "" then []
    else if IsSeparator(s[0]) then Fields(s[1..])
    else if |s| == 1 || IsSeparator(s[1]) then [[s[0]]] + Fields(s[1..])
    else
      var rest := Fields(s[1..]);
      [[s[0]] + rest[0]] + rest[1..]
  }

  lemma {:induction false} FieldsApart(a: string, sep: char, b: string)
    requires IsSeparator(sep)
    ensures Fields(a + [sep] + b) == Fields(a) + Fields(b)
  {
    var s := a + [sep] + b;
    if a == "" {
      assert s[1..] == b;
    } else {
      assert s[1..] == a[1..] + [sep] + b;
      FieldsApart(a[1..], sep, b);
    }
  }

  lemma {:induction false} FieldOfName(name: string)
    requires IsWord(name)
    ensures Fields(name) == [name]
  {
    assert name == [name[0]] + name[1..];
    if |name| == 1 {
      assert !IsSeparator(name[0]) && name[1..] == "" && Fields(name[1..]) == [];
      assert [name[0]] == name;
    } else {
      FieldOfName(name[1..]);
      assert Fields(name[1..])[1..] == [];
    }
  }

  function Values(raw: Raw): seq<string> {
    match raw
    case Plain(text) => Fields(text)
    case Listed(names) => names
  }

  /** The trimmed names, without the blank ones. */
  function Names(values: seq<string>): seq<string> {
    if values == [] then [] else Kept(values[0]) + Names(values[1..])
  }

  predicate Trimmed(name: string) {
    name != "" && !IsSpace(name[0]) && !IsSpace(name[|name| - 1])
  }

  function Kept(value: string): (names: seq<string>)
    ensures names == [] || (names == [TrimSpace(value)] && Trimmed(names[0]))
    ensures names == [] <==> Blank(value)
  {
    if TrimSpace(value) == "" then [] else [TrimSpace(value)]
  }

  /** No name is blank or padded. */
  lemma {:induction false} NamesAreTrimmed(values: seq<string>)
    ensures forall i :: 0 <= i < |Names(values)| ==> Trimmed(Names(values)[i])
  {
    if values != [] {
      NamesAreTrimmed(values[1..]);
    }
  }

  /** There is a name unless every value is blank. */
  lemma {:induction false} NoNamesIff(values: seq<string>)
    ensures Names(values) == [] <==> forall i :: 0 <= i < |values| ==> Blank(values[i])
  {
    if values != [] {
      NoNamesIff(values[1..]);
      assert forall i :: 1 <= i < |values| ==> values[i] == values[1..][i - 1];
    }
  }

  lemma {:induction false} NamesAppend(values: seq<string>, value: string)
    ensures Names(values + [value]) == Names(values) + Kept(value)
  {
    var all := values + [value];
    if values == [] {
      assert all == [value] && all[1..] == [];
      assert Names(all) == Kept(value) + Names(all[1..]);
    } else {
      assert all[0] == values[0] && all[1..] == values[1..] + [value];
      NamesAppend(values[1..], value);
      assert Names(all) == Kept(values[0]) + Names(all[1..]);
      Regroup(Kept(values[0]), Names(values[1..]), Kept(value));
    }
  }

  lemma {:induction false} TrimKeepsName(name: string)
    requires IsWord(name)
    ensures TrimSpace(name) == name
  {
  }

  /** "a,b" and "a b" name a and b, and so does "a, b"; a trailing separator adds nothing. */
  lemma SeparatorsSeparate(first: string, sep: char, rest: string)
    requires IsWord(first) && IsSeparator(sep)
    ensures Names(Fields(first + [sep] + rest)) == [first] + Names(Fields(rest))
    ensures Names(Fields([sep] + rest)) == Names(Fields(rest))
    ensures Names(Fields(first)) == [first]
  {
    FieldsApart(first, sep, rest);
    FieldOfName(first);
    TrimKeepsName(first);
    assert [first][1..] == [];
    assert ([first] + Fields(rest))[1..] == Fields(rest);
    assert ([sep] + rest)[1..] == rest;
  }

  /** viperStringSlice */
  method StringSlice(raw: Raw) returns (names: seq<string>)
    ensures names == Names(Values(raw))
  {
    names := TrimAll(Values(raw));
  }

  method TrimAll(values: seq<string>) returns (names: seq<string>)
    ensures names == Names(values)
  {
    names := [];
    for i := 0 to |values|
      invariant names == Names(values[..i])
    {
      assert values[..i + 1] == values[..i] + [values[i]];
      NamesAppend(values[..i], values[i]);
      var value := TrimSpace(values[i]);
      if value != "" {
        names := names + [value];
      }
    }
    assert values[..|values|] == values;
  }

  // ---------------------------------------------------------------- the overlay

  /** cmp.Or */
  function Or(value: Duration, default: Duration): Duration {
    if value != 0 then value else default
  }

  function FirstOutside(keys: seq<string>, valid: set<string>): (key: Option<string>)
    ensures key.None? <==> forall i :: 0 <= i < |keys| ==> keys[i] in valid
    ensures key.Some? ==> exists i :: 0 <= i < |keys| && keys[i] == key.value && keys[i] !in valid
                                      && forall j :: 0 <= j < i ==> keys[j] in valid
  {
    if keys == [] then None
    else if keys[0] !in valid then Some(keys[0])
    else
      assert keys == [keys[0]] + keys[1..];
      FirstOutside(keys[1..], valid)
  }

  /** The key an error names: keys are sorted before they are checked. */
  function LeastUnknown(shape: Shape, valid: set<string>): Option<string> {
    if shape.MapOf? then FirstOutside(Sort(shape.keys, Itself), valid) else None
  }

  lemma LeastUnknownIsLeast(keys: seq<string>, valid: set<string>)
    ensures match LeastUnknown(MapOf(keys), valid)
            case None => forall k :: k in keys ==> k in valid
            case Some(key) => key in keys && key !in valid && forall k :: k in keys && k !in valid ==> AtMost(key, k)
  {
    var sorted := Sort(keys, Itself);
    forall k | k in keys ensures exists i :: 0 <= i < |sorted| && sorted[i] == k {
      assert k in multiset(keys);
    }
    match FirstOutside(sorted, valid)
    case None =>
    case Some(key) =>
      var i :| 0 <= i < |sorted| && sorted[i] == key && forall j :: 0 <= j < i ==> sorted[j] in valid;
      assert key in multiset(sorted);
      forall k | k in keys && k !in valid ensures AtMost(key, k) {
        var j :| 0 <= j < |sorted| && sorted[j] == k;
        assert AtMost(Itself(sorted[i]), Itself(sorted[j])) || i == j;
      }
  }

  /** The loop over the sorted keys. */
  method FindUnknown(shape: Shape, valid: set<string>) returns (unknown: Option<string>)
    ensures unknown == LeastUnknown(shape, valid)
  {
    if !shape.MapOf? {
      return None;
    }
    var keys := Sort(shape.keys, Itself);
    for i := 0 to |keys|
      invariant FirstOutside(keys, valid) == FirstOutside(keys[i..], valid)
    {
      assert keys[i..][1..] == keys[i + 1..];
      if keys[i] !in valid {
        return Some(keys[i]);
      }
    }
    unknown := None;
  }

  function Timeout(configured: Decoded, default: Duration): Duration {
    if configured.Undecodable? then default else Or(configured.value, default)
  }

  const TIMEOUT_FIELDS := {"reconciled", "deleted"}

  /** The first field that does not decode, when the fields come in this order. */
  function FirstUndecodable(s: Settings, key: string, fields: seq<TimeoutField>): (field: Option<TimeoutField>)
    ensures field.Some? ==> field.value in fields && s.timeout(key, field.value).Undecodable?
    ensures field.None? ==> forall i :: 0 <= i < |fields| ==> s.timeout(key, fields[i]).Decoded?
  {
    if fields == [] then None
    else if s.timeout(key, fields[0]).Undecodable? then Some(fields[0])
    else FirstUndecodable(s, key, fields[1..])
  }

  /** The names a row's adapters are set to, if they are. */
  function ConfiguredAdapters(s: Settings, key: string): Option<seq<string>> {
    match s.adapterValue(key)
    case None => None
    case Some(raw) => Some(Names(Values(raw)))
  }

  /** What is wrong with the configuration of a row before its timeouts are decoded. */
  function KeyProblem(s: Settings, key: string): Option<LoadError> {
    if ConfiguredAdapters(s, key) == Some([]) then Some(NamesNoAdapter(key))
    else if s.kindTimeouts(key).NotAMap? then Some(NotMap("timeouts." + key))
    else
      match LeastUnknown(s.kindTimeouts(key), TIMEOUT_FIELDS)
      case Some(field) => Some(UnknownField(key, field))
      case None => None
  }

  /** One row under the configuration of its key; "fields" is the order the runtime gives the timeout fields in. */
  function OverlayRow(s: Settings, keyOf: string -> string, fields: seq<TimeoutField>, row: Row)
    : Result<Row, LoadError> {
    var key := keyOf(row.kind);
    match KeyProblem(s, key)
    case Some(error) => Err(error)
    case None =>
      match FirstUndecodable(s, key, fields)
      case Some(field) => Err(BadTimeout(key, field))
      case None =>
        Ok(row.(requiredAdapters := match ConfiguredAdapters(s,
            key) case Some(names) => names case None => row.requiredAdapters,
                timeouts := EntityTimeouts(
                  Timeout(s.timeout(key, Reconciled), row.timeouts.reconciled),
                  Timeout(s.timeout(key, Deleted), row.timeouts.deleted))))
  }

  function OverlayRows(s: Settings, keyOf: string -> string, fields: seq<TimeoutField>, rows: seq<Row>)
    : (result: Result<seq<Row>, LoadError>)
    ensures result.Ok? ==>
              && |result.value| == |rows|
              && forall i :: 0 <= i < |rows| ==> OverlayRow(s, keyOf, fields, rows[i]) == Ok(result.value[i])
  {
    if rows == [] then Ok([])
    else
      match OverlayRow(s, keyOf, fields, rows[0])
      case Err(error) => Err(error)
      case Ok(row) =>
        match OverlayRows(s, keyOf, fields, rows[1..])
        case Err(error) => Err(error)
        case Ok(rest) => Ok([row] + rest)
  }

  /** The keys a section may hold: one per kind, and under timeouts the shared ones. */
  function SectionProblem(section: string, shape: Shape, valid: set<string>): Option<LoadError> {
    match shape
    case Unset => None
    case NotAMap => Some(NotMap(section))
    case MapOf(_) =>
      match LeastUnknown(shape, valid)
      case None => None
      case Some(key) => Some(UnknownKey(section, key))
  }

  function KeysOf(keyOf: string -> string, rows: seq<Row>): set<string> {
    set row | row in rows :: keyOf(row.kind)
  }

  function SettingsProblem(s: Settings, keyOf: string -> string, shared: set<string>, rows: seq<Row>)
    : Option<LoadError> {
    var keys := KeysOf(keyOf, rows);
    match SectionProblem("adapters", s.adapters, keys)
    case Some(error) => Some(error)
    case None => SectionProblem("timeouts", s.timeouts, keys + shared)
  }

  /** loadEntityCatalog up to NewCatalog: the rows it builds the catalog from. */
  function LoadRows(s: Settings, keyOf: string -> string, fields: seq<TimeoutField>, shared: set<string>,
                    base: seq<Row>)
    : Result<seq<Row>, LoadError>
  {
    match SettingsProblem(s, keyOf, shared, base)
    case Some(error) => Err(error)
    case None => OverlayRows(s, keyOf, fields, base)
  }

  // ---------------------------------------------------------------- what a setting does to a row

  /** A duration that is set replaces the default, and one that is not leaves it. */
  ghost predicate TimeoutLaid(configured: Decoded, default: Duration, result: Duration) {
    match configured
    case Undecodable => false
    case Decoded(value) => result == if value == 0 then default else value
  }

  /** Names that are set replace the default list, whether they come as a list or as text; they name something. */
  ghost predicate AdaptersLaid(configured: Option<Raw>, default: seq<string>, result: seq<string>) {
    match configured
    case None => result == default
    case Some(Plain(text)) => result == Names(Fields(text)) && result != []
    case Some(Listed(names)) => result == Names(names) && result != []
  }

  /** A row under the configuration of its key, column by column. */
  ghost predicate Configured(s: Settings, key: string, row: Row, result: Row) {
    && AdaptersLaid(s.adapterValue(key), row.requiredAdapters, result.requiredAdapters)
    && TimeoutLaid(s.timeout(key, Reconciled), row.timeouts.reconciled, result.timeouts.reconciled)
    && TimeoutLaid(s.timeout(key, Deleted), row.timeouts.deleted, result.timeouts.deleted)
    && result.kind == row.kind && result.plural == row.plural && result.parentKind == row.parentKind
    && result.onParentDelete == row.onParentDelete && result.cleanup == row.cleanup
    && result.thresholds == row.thresholds
  }

  lemma RowIsConfigured(s: Settings, keyOf: string -> string, fields: seq<TimeoutField>, row: Row)
    requires FieldOrder(fields) && OverlayRow(s, keyOf, fields, row).Ok?
    ensures var result := OverlayRow(s, keyOf, fields, row).value;
            Configured(s, keyOf(row.kind), row, result) && result.parentPlural == row.parentPlural
  {
    var key := keyOf(row.kind);
    BothDecode(s, key, fields);
    assert KeyProblem(s, key).None?;
  }

  lemma RowsAreConfigured(s: Settings, keyOf: string -> string, fields: seq<TimeoutField>, shared: set<string>,
                          base: seq<Row>)
    requires FieldOrder(fields) && LoadRows(s, keyOf, fields, shared, base).Ok?
    ensures var rows := LoadRows(s, keyOf, fields, shared, base).value;
            |rows| == |base|
            && forall i :: 0 <= i < |base| ==>
                 Configured(s, keyOf(base[i].kind), base[i], rows[i]) && rows[i].parentPlural == base[i].parentPlural
  {
    var rows := LoadRows(s, keyOf, fields, shared, base).value;
    forall i | 0 <= i < |base|
      ensures Configured(s, keyOf(base[i].kind), base[i], rows[i]) && rows[i].parentPlural == base[i].parentPlural
    {
      RowIsConfigured(s, keyOf, fields, base[i]);
    }
  }

  /** The catalog that is loaded holds every kind of the table under its configuration, and no other kind. */
  lemma CatalogIsConfigured(s: Settings, keyOf: string -> string, fields: seq<TimeoutField>, shared: set<string>,
                            base: seq<Row>, t: Table)
    requires FieldOrder(fields) && LoadRows(s, keyOf, fields, shared, base).Ok?
    requires FilledIn(LoadRows(s, keyOf, fields, shared, base).value, t)
    ensures forall row :: row in base ==> row.kind in t && Configured(s, keyOf(row.kind), row, t[row.kind])
    ensures forall k :: k in t <==> exists row :: row in base && row.kind == k
  {
    var rows := LoadRows(s, keyOf, fields, shared, base).value;
    RowsAreConfigured(s, keyOf, fields, shared, base);
    forall row | row in base ensures row.kind in t && Configured(s, keyOf(row.kind), row, t[row.kind]) {
      var i :| 0 <= i < |base| && base[i] == row;
      RowStaysConfigured(s, keyOf(row.kind), row, rows, rows[i], t);
    }
    assert forall i :: 0 <= i < |base| ==> rows[i].kind == base[i].kind;
    SameKinds(rows, base);
    forall k ensures k in t <==> exists row :: row in base && row.kind == k {
      assert k in t <==> k in Kinds(rows);
    }
  }

  lemma RowStaysConfigured(s: Settings, key: string, row: Row, rows: seq<Row>, e: Row, t: Table)
    requires Configured(s, key, row, e) && e in rows && FilledIn(rows, t)
    ensures row.kind in t && Configured(s, key, row, t[row.kind])
  {
    assert RowFilledIn(rows, e, t[e.kind]);
  }

  lemma SameKinds(rows: seq<Row>, base: seq<Row>)
    requires |rows| == |base| && forall i :: 0 <= i < |base| ==> rows[i].kind == base[i].kind
    ensures Kinds(rows) == Kinds(base)
  {
    forall e | e in rows ensures e.kind in Kinds(base) {
      var i :| 0 <= i < |rows| && rows[i] == e;
      assert base[i] in base;
    }
    forall f | f in base ensures f.kind in Kinds(rows) {
      var i :| 0 <= i < |base| && base[i] == f;
      assert rows[i] in rows;
    }
  }

  function Prepend(rows: seq<Row>, result: Result<seq<Row>, LoadError>): Result<seq<Row>, LoadError> {
    if result.Ok? then Ok(rows + result.value) else result
  }

  lemma PrependNothing(result: Result<seq<Row>, LoadError>)
    ensures Prepend([], result) == result
  {
    if result.Ok? { assert [] + result.value == result.value; }
  }

  lemma PrependTwice(before: seq<Row>, row: Row, result: Result<seq<Row>, LoadError>)
    ensures Prepend(before, Prepend([row], result)) == Prepend(before + [row], result)
  {
    if result.Ok? { assert before + ([row] + result.value) == before + [row] + result.value; }
  }

  /** The rows overlaid so far, and the error that ends the run if the rest fails, in every field order. */
  ghost predicate Overlaid(s: Settings, keyOf: string -> string, base: seq<Row>, done: seq<Row>)
    requires |done| <= |base|
  {
    forall fields :: OverlayRows(s, keyOf, fields, base) == Prepend(done, OverlayRows(s, keyOf, fields, base[|done|..]))
  }

  lemma NothingOverlaid(s: Settings, keyOf: string -> string, base: seq<Row>)
    ensures Overlaid(s, keyOf, base, [])
  {
    forall fields
      ensures OverlayRows(s, keyOf, fields, base) == Prepend([], OverlayRows(s, keyOf, fields, base[0..]))
    {
      assert base[0..] == base;
      PrependNothing(OverlayRows(s, keyOf, fields, base));
    }
  }

  lemma OneMoreOverlaid(s: Settings, keyOf: string -> string, base: seq<Row>, done: seq<Row>, row: Row)
    requires |done| < |base| && Overlaid(s, keyOf, base, done)
    requires forall fields :: OverlayRow(s, keyOf, fields, base[|done|]) == Ok(row)
    ensures Overlaid(s, keyOf, base, done + [row])
  {
    var n := |done|;
    assert base[n..][0] == base[n] && base[n..][1..] == base[n + 1..];
    forall fields
      ensures OverlayRows(s, keyOf, fields, base)
              == Prepend(done + [row], OverlayRows(s, keyOf, fields, base[|done + [row]|..]))
    {
      var rest := OverlayRows(s, keyOf, fields, base[n + 1..]);
      assert OverlayRow(s, keyOf, fields, base[n]) == Ok(row);
      assert OverlayRows(s, keyOf, fields, base[n..]) == Prepend([row], rest);
      PrependTwice(done, row, rest);
    }
  }

  lemma BothDecode(s: Settings, key: string, fields: seq<TimeoutField>)
    requires FieldOrder(fields) && FirstUndecodable(s, key, fields).None?
    ensures s.timeout(key, Reconciled).Decoded? && s.timeout(key, Deleted).Decoded?
  {
    assert s.timeout(key, fields[0]).Decoded? && s.timeout(key, fields[1]).Decoded?;
  }

  lemma {:induction false} NoneFails(s: Settings, key: string, fields: seq<TimeoutField>)
    requires s.timeout(key, Reconciled).Decoded? && s.timeout(key, Deleted).Decoded?
    ensures FirstUndecodable(s, key, fields).None?
  {
    if fields != [] {
      assert fields[0] == Reconciled || fields[0] == Deleted;
      NoneFails(s, key, fields[1..]);
    }
  }

  lemma {:induction false} AnyFieldOrderLoads(s: Settings, keyOf: string -> string, fields: seq<TimeoutField>, row: Row)
    requires FieldOrder(fields) && OverlayRow(s, keyOf, fields, row).Ok?
    ensures forall fields' :: OverlayRow(s, keyOf, fields', row) == OverlayRow(s, keyOf, fields, row)
  {
    BothDecode(s, keyOf(row.kind), fields);
    forall fields' ensures OverlayRow(s, keyOf, fields', row) == OverlayRow(s, keyOf, fields, row) {
      NoneFails(s, keyOf(row.kind), fields');
    }
  }

  lemma RowFails(s: Settings, keyOf: string -> string, fields: seq<TimeoutField>, base: seq<Row>, done: seq<Row>,
                 error: LoadError)
    requires |done| < |base| && Overlaid(s, keyOf, base, done)
    requires OverlayRow(s, keyOf, fields, base[|done|]) == Err(error)
    ensures OverlayRows(s, keyOf, fields, base) == Err(error)
  {
    assert base[|done|..][0] == base[|done|];
  }

  /** The loop over the rows, which are updated in place. Each row ranges over its fields in an order of its own;
      "fields" is that of the row that failed, and of the others it makes no difference. */
  method OverlayInPlace(s: Settings, keyOf: string -> string, rows: array<Row>)
    returns (problem: Option<LoadError>, ghost fields: seq<TimeoutField>)
    modifies rows
    ensures FieldOrder(fields)
    ensures OverlayRows(s, keyOf, fields, old(rows[..])) ==
            match problem case Some(error) => Err(error) case None => Ok(rows[..])
  {
    ghost var base := rows[..];
    NothingOverlaid(s, keyOf, base);
    assert rows[..0] == [];
    fields := [Reconciled, Deleted];
    for i := 0 to rows.Length
      invariant FieldOrder(fields) && forall j :: i <= j < rows.Length ==> rows[j] == base[j]
      invariant Overlaid(s, keyOf, base, rows[..i])
    {
      ghost var before := rows[..i];
      var error;
      error, fields := OverlayOne(s, keyOf, rows, i);
      if error.Some? {
        RowFails(s, keyOf, fields, base, before, error.value);
        return error, fields;
      }
      assert rows[..i + 1] == before + [rows[i]];
      AnyFieldOrderLoads(s, keyOf, fields, base[i]);
      OneMoreOverlaid(s, keyOf, base, before, rows[i]);
    }
    assert rows[..rows.Length] == rows[..] && base[|base|..] == [];
    assert OverlayRows(s, keyOf, fields, base) == Prepend(rows[..], OverlayRows(s, keyOf, fields, base[|base|..]));
    assert rows[..] + [] == rows[..];
    problem := None;
  }

  /** The body of that loop. */
  method OverlayOne(s: Settings, keyOf: string -> string, rows: array<Row>, i: nat)
    returns (problem: Option<LoadError>, ghost fields: seq<TimeoutField>)
    requires i < rows.Length
    modifies rows
    ensures FieldOrder(fields)
    ensures forall j :: 0 <= j < rows.Length && j != i ==> rows[j] == old(rows[j])
    ensures OverlayRow(s, keyOf, fields, old(rows[i])) ==
            match problem case Some(error) => Err(error) case None => Ok(rows[i])
  {
    var key := keyOf(rows[i].kind);
    fields := [Reconciled, Deleted];
    var raw := s.adapterValue(key);
    if raw.Some? {
      var names := StringSlice(raw.value);
      rows[i] := rows[i].(requiredAdapters := names);
      if |names| == 0 {
        return Some(NamesNoAdapter(key)), fields;
      }
    }
    var shape := s.kindTimeouts(key);
    if shape.NotAMap? {
      return Some(NotMap("timeouts." + key)), fields;
    }
    var unknown := FindUnknown(shape, TIMEOUT_FIELDS);
    if unknown.Some? {
      return Some(UnknownField(key, unknown.value)), fields;
    }
    var timeouts;
    timeouts, problem, fields := OverlayTimeouts(s, key, rows[i].timeouts);
    rows[i] := rows[i].(timeouts := timeouts);
  }

  function Other(field: TimeoutField): TimeoutField {
    if field == Reconciled then Deleted else Reconciled
  }

  /** The fields a range has visited, and those it has left. */
  ghost predicate Between(visited: seq<TimeoutField>, left: set<TimeoutField>) {
    || (visited == [] && left == {Reconciled, Deleted})
    || (visited == [Reconciled] && left == {Deleted})
    || (visited == [Deleted] && left == {Reconciled})
    || (FieldOrder(visited) && left == {})
  }

  lemma VisitOne(visited: seq<TimeoutField>, left: set<TimeoutField>, field: TimeoutField)
    requires Between(visited, left) && field in left
    ensures Between(visited + [field], left - {field})
    ensures left - {field} == {} ==> FieldOrder(visited + [field]) && visited + [field] + [] == visited + [field]
    ensures left - {field} != {} ==> FieldOrder(visited + [field] + [Other(field)])
  {
  }

  lemma NoneUndecodable(s: Settings, key: string, fields: seq<TimeoutField>, field: TimeoutField)
    requires FirstUndecodable(s, key, fields).None?
    ensures FirstUndecodable(s, key, fields + [field])
            == if s.timeout(key, field).Undecodable? then Some(field) else None
    ensures s.timeout(key, field).Undecodable? ==>
              FirstUndecodable(s, key, fields + [field] + [Other(field)]) == Some(field)
  {
    if fields == [] {
      assert [] + [field] == [field] && [field][1..] == [];
    } else {
      assert (fields + [field])[1..] == fields[1..] + [field];
      assert (fields + [field] + [Other(field)])[1..] == fields[1..] + [field] + [Other(field)];
      NoneUndecodable(s, key, fields[1..], field);
    }
  }

  /** The loop over the timeout fields, which come in either order. */
  method OverlayTimeouts(s: Settings, key: string, defaults: EntityTimeouts)
    returns (timeouts: EntityTimeouts, problem: Option<LoadError>, ghost fields: seq<TimeoutField>)
    ensures FieldOrder(fields)
    ensures problem == match FirstUndecodable(s, key, fields)
                       case None => None
                       case Some(field) => Some(BadTimeout(key, field))
    ensures problem.None? ==> timeouts == EntityTimeouts(Timeout(s.timeout(key, Reconciled), defaults.reconciled),
                                                         Timeout(s.timeout(key, Deleted), defaults.deleted))
    ensures problem.None? ==> TimeoutLaid(s.timeout(key, Reconciled), defaults.reconciled, timeouts.reconciled)
                              && TimeoutLaid(s.timeout(key, Deleted), defaults.deleted, timeouts.deleted)
  {
    timeouts := defaults;
    var left: set<TimeoutField> := {Reconciled, Deleted};
    fields := [];
    while left != {}
      invariant Between(fields, left)
      invariant FirstUndecodable(s, key, fields).None?
      invariant timeouts.reconciled == if Reconciled in left then defaults.reconciled
                                       else Timeout(s.timeout(key, Reconciled), defaults.reconciled)
      invariant timeouts.deleted == if Deleted in left then defaults.deleted
                                    else Timeout(s.timeout(key, Deleted), defaults.deleted)
      decreases left
    {
      var field :| field in left;
      var timeout := s.timeout(key, field);
      NoneUndecodable(s, key, fields, field);
      VisitOne(fields, left, field);
      left := left - {field};
      if timeout.Undecodable? {
        fields := fields + [field] + if left == {} then [] else [Other(field)];
        return timeouts, Some(BadTimeout(key, field)), fields;
      }
      if field == Reconciled {
        timeouts := timeouts.(reconciled := Or(timeout.value, timeouts.reconciled));
      } else {
        timeouts := timeouts.(deleted := Or(timeout.value, timeouts.deleted));
      }
      fields := fields + [field];
    }
    BothDecode(s, key, fields);
    problem := None;
  }

  /** The loop over the two sections. */
  method CheckSections(s: Settings, keyOf: string -> string, shared: set<string>, rows: seq<Row>)
    returns (problem: Option<LoadError>)
    ensures problem == SettingsProblem(s, keyOf, shared, rows)
  {
    var keys := KeysOf(keyOf, rows);
    problem := CheckSection("adapters", s.adapters, keys);
    if problem.None? {
      problem := CheckSection("timeouts", s.timeouts, keys + shared);
    }
  }

  method CheckSection(section: string, shape: Shape, valid: set<string>) returns (problem: Option<LoadError>)
    ensures problem == SectionProblem(section, shape, valid)
  {
    if shape.NotAMap? {
      return Some(NotMap(section));
    }
    var unknown := FindUnknown(shape, valid);
    problem := if unknown.Some? then Some(UnknownKey(section, unknown.value)) else None;
  }

  /** loadEntityCatalog */
  method LoadEntityCatalog(s: Settings, keyOf: string -> string, shared: set<string>, base: seq<Row>)
    returns (result: Result<Catalog, LoadError>, ghost fields: seq<TimeoutField>, ghost order: seq<string>)
    ensures FieldOrder(fields)
    ensures match LoadRows(s, keyOf, fields, shared, base)
            case Err(error) => result == Err(error)
            case Ok(rows) => Enumerates(order, Kinds(rows)) && Outcome(result, rows, order)
    ensures result.Ok? <==>
            LoadRows(s, keyOf, fields, shared, base).Ok? && Acceptable(LoadRows(s, keyOf, fields, shared, base).value)
    ensures result.Ok? ==> result.value.View() == ResolveAll(ByKind(LoadRows(s, keyOf, fields, shared, base).value))
    ensures result.Ok? ==> forall k :: k in result.value.View() <==> exists row :: row in base && row.kind == k
    ensures result.Ok? ==> forall row :: row in base ==>
              row.kind in result.value.View()
              && Configured(s, keyOf(row.kind), row, result.value.View()[row.kind])
  {
    order, fields := [], [Reconciled, Deleted];
    var problem := CheckSections(s, keyOf, shared, base);
    if problem.Some? {
      return Err(problem.value), fields, order;
    }
    var rows := new Row[|base|](i requires 0 <= i < |base| => base[i]);
    assert rows[..] == base;
    problem, fields := OverlayInPlace(s, keyOf, rows);
    if problem.Some? {
      return Err(problem.value), fields, order;
    }
    result, order := BuildCatalog(rows[..]);
    if result.Ok? {
      CatalogIsConfigured(s, keyOf, fields, shared, base, result.value.View());
    }
  }

  /** The catalog, or the rejection, that building from these rows gives. */
  ghost predicate Outcome(result: Result<Catalog, LoadError>, rows: seq<Row>, order: seq<string>)
    requires Enumerates(order, Kinds(rows))
    reads if result.Ok? then {result.value} else {}
    reads if result.Ok? then result.value.Owned() else {}
  {
    match Build(rows, order)
    case Err(problem) => result == Err(Rejected(problem))
    case Ok(table) => result.Ok? && result.value.View() == table
  }

  method BuildCatalog(rows: seq<Row>) returns (result: Result<Catalog, LoadError>, ghost order: seq<string>)
    ensures Enumerates(order, Kinds(rows)) && Outcome(result, rows, order)
    ensures result.Ok? <==> Acceptable(rows)
    ensures result.Ok? ==> result.value.View() == ResolveAll(ByKind(rows)) && FilledIn(rows, result.value.View())
  {
    var heapRows := Allocate(rows);
    var built;
    built, order := Catalog.NewCatalog(heapRows);
    assert ContentsOf(heapRows) == rows;
    match built
    case Ok(catalog) => result := Ok(catalog);
    case Err(error) => result := Err(Rejected(error));
  }

  /** The rows as Go holds them, with a list of their own each. */
  method Allocate(rows: seq<Row>) returns (heapRows: seq<HeapRow>)
    ensures ContentsOf(heapRows) == rows
  {
    heapRows := [];
    for i := 0 to |rows|
      invariant |heapRows| == i
      invariant forall j :: 0 <= j < i ==> Contents(heapRows[j]) == rows[j]
    {
      var row := rows[i];
      var adapters := ListFrom(row.requiredAdapters);
      var children := ListFrom(row.cleanup.childKinds);
      heapRows := heapRows + [EntityDescriptor(row.kind, row.plural, row.parentKind, row.parentPlural,
          row.onParentDelete,
        adapters, CleanupPolicy(children, row.cleanup.waitForHardDelete, row.cleanup.ignoreNotFound,
          row.cleanup.ignoreConflict), row.thresholds, row.timeouts)];
    }
  }

  method ListFrom(names: seq<string>) returns (list: array<string>)
    ensures fresh(list) && list[..] == names
  {
    list := new string[|names|](i requires 0 <= i < |names| => names[i]);
  }
}
