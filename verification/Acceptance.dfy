/** What acceptance, rejection and the resulting catalog mean column by column. */
module Acceptance {
  import opened Sequences
  import opened Text
  import opened Descriptor
  import opened Forest

  // ---------------------------------------------------------------- the catalog's rows

  /** Every row is there under its kind and nothing else is, with its columns as they were, except that a child's
      parent plural is the plural of its parent's row. */
  ghost predicate FilledIn(rows: seq<Row>, t: Table) {
    && (forall k :: k in t <==> exists e :: e in rows && e.kind == k)
    && forall e :: e in rows ==> e.kind in t && RowFilledIn(rows, e, t[e.kind])
  }

  ghost predicate RowFilledIn(rows: seq<Row>, e: Row, r: Row) {
    && r == e.(parentPlural := r.parentPlural)
    && if e.parentKind == "" then r.parentPlural == ""
       else exists p :: p in rows && p.kind == e.parentKind && r.parentPlural == p.plural
  }

  lemma ResolvedIsFilledIn(rows: seq<Row>)
    requires Acceptable(rows)
    ensures FilledIn(rows, ResolveAll(ByKind(rows)))
  {
    var source := IndexOf(rows);
    RowsAndTableAgree(source, rows);
    var t := ResolveAll(source);
    forall k ensures k in t <==> exists e :: e in rows && e.kind == k {
      if k in t { assert source[k] in rows; }
    }
    forall e | e in rows ensures e.kind in t && RowFilledIn(rows, e, t[e.kind]) {
      assert source[e.kind] == e && WellFormed(e);
      if e.parentKind != "" {
        assert source[e.parentKind] in rows && source[e.parentKind].kind == e.parentKind;
      }
    }
  }

  /** For every order of the range, the catalog of an accepted table is its rows filled in. */
  lemma CatalogIsFilledIn(rows: seq<Row>, order: seq<string>)
    requires Enumerates(order, Kinds(rows)) && Build(rows, order).Ok?
    ensures FilledIn(rows, Build(rows, order).value)
  {
    AcceptedIffAcceptable(rows, order);
    ResolvedIsFilledIn(rows);
  }

  // ---------------------------------------------------------------- what is accepted

  lemma NameColumns(e: Row)
    ensures ValidName(e) <==>
            && (exists i :: 0 <= i < |e.kind| && !IsSpace(e.kind[i]))
            && e.plural != "" && e.plural != "." && e.plural != ".."
            && forall c :: c in e.plural ==>
                 'a' <= c <= 'z' || 'A' <= c <= 'Z' || '0' <= c <= '9' || c in "-_.~$&+:=@"
  {
  }

  lemma SettingsColumns(e: Row)
    ensures WellFormed(e) <==>
            && e.timeouts.reconciled >= 0 && e.timeouts.deleted >= 0
            && (e.requiredAdapters != [] ==> e.timeouts.reconciled > 0)
            && (e.cleanup.waitForHardDelete ==> e.timeouts.deleted > 0)
            && (e.parentKind == "" ==> e.parentPlural == "" && e.onParentDelete == "")
            && (e.parentKind != "" ==> e.onParentDelete == "cascade" || e.onParentDelete == "restrict")
  {
  }

  /** Validate passes exactly the rows whose names, routing and settings are in order. */
  lemma ValidColumns(e: Row)
    ensures Validate(e).None? <==>
            ValidName(e) && WellFormed(e) && (e.parentKind != "" ==> ValidName(e.(plural := e.parentPlural)))
  {
  }

  /** Acceptance, for every order of the range, said of the columns. */
  lemma AcceptedColumns(rows: seq<Row>, order: seq<string>)
    requires Enumerates(order, Kinds(rows))
    ensures Build(rows, order).Ok? <==>
            && (forall e :: e in rows ==> ValidName(e) && WellFormed(e))
            && (forall i, j :: 0 <= i < j < |rows| ==> rows[i].kind != rows[j].kind && rows[i].plural != rows[j].plural)
            && (forall e :: e in rows && e.parentKind != "" ==>
                  exists p :: p in rows && p.kind == e.parentKind
                              && (e.parentPlural == "" || e.parentPlural == p.plural))
            && (forall e, c :: e in rows && c in e.cleanup.childKinds ==>
                  exists f :: f in rows && f.kind == c && f.parentKind == e.kind)
            && exists rank :: ParentsRanked(rows, rank)
  {
    AcceptedIffAcceptable(rows, order);
  }

  lemma RejectedByRange(rows: seq<Row>, t: Table, order: seq<string>) returns (k: string)
    requires ValidNames(rows) && DistinctNames(rows) && t == ByKind(rows) == map[] + t && t.Keys == Kinds(rows)
    requires Enumerates(order, Kinds(rows)) && Build(rows, order).Err?
    ensures k in t && RowProblem(t, k, t[k]) == Some(Build(rows, order).error)
  {
    IndexRowsCorrect(rows, map[], {});
    assert Avoids(rows, map[], {});
    assert IndexRows(rows, map[], {}) == Ok(t);
    RangeOutcome(t, t, order);
    k :| k in order && RowProblem(t, k, t[k]) == Some(Build(rows, order).error);
  }
}
