/** What an accepted table is: the parent relation is a forest, and acceptance
    is exactly a list of conditions on the rows that mention neither walk nor order. */
module Forest {
  import opened Sequences
  import opened Text
  import opened Descriptor

  /** The n-th ancestor of a kind, "" once the chain has ended. */
  function Chain(t: Table, kind: string, n: nat): string {
    if n == 0 then kind else Parent(t, Chain(t, kind, n - 1))
  }

  ghost predicate Revisits(t: Table, kind: string) {
    exists i: nat, j: nat :: i < j && Chain(t, kind, i) == Chain(t, kind, j) != ""
  }

  /** The first n kinds of the chain exist and differ. */
  ghost predicate FreshChain(t: Table, kind: string, n: nat) {
    && (forall i: nat :: i < n ==> Chain(t, kind, i) != "")
    && (forall i: nat, j: nat :: i < j < n ==> Chain(t, kind, i) != Chain(t, kind, j))
  }

  ghost function Seen(t: Table, kind: string, n: nat): set<string> {
    set i: nat | i < n :: Chain(t, kind, i)
  }

  lemma {:induction false} EndedChain(t: Table, kind: string, m: nat, n: nat)
    requires "" !in t && m <= n && Chain(t, kind, m) == ""
    ensures Chain(t, kind, n) == ""
  {
    if m < n { EndedChain(t, kind, m, n - 1); }
  }

  lemma {:induction false} ChainOfParent(t: Table, kind: string, n: nat)
    ensures Chain(t, Parent(t, kind), n) == Chain(t, kind, n + 1)
  {
    if n > 0 { ChainOfParent(t, kind, n - 1); }
  }

  /** Where the walk stops: at the end of the chain, or at the first kind it meets again. */
  lemma {:induction false} WalkOutcome(t: Table, kind: string, n: nat) returns (m: nat)
    requires "" !in t && n > 0 && FreshChain(t, kind, n)
    ensures n <= m && FreshChain(t, kind, m)
    ensures ReachesRoot(t, Seen(t, kind, n), Chain(t, kind, n)) ==> Chain(t, kind, m) == ""
    ensures !ReachesRoot(t, Seen(t, kind, n), Chain(t, kind, n)) ==>
              Chain(t, kind, m) != "" && exists i: nat :: i < m && Chain(t, kind, i) == Chain(t, kind, m)
    decreases t.Keys - Seen(t, kind, n), if Chain(t, kind, n) == "" then 0 else 1
  {
    var here := Chain(t, kind, n);
    if here == "" || here in Seen(t, kind, n) {
      m := n;
    } else {
      assert Seen(t, kind, n + 1) == Seen(t, kind, n) + {here};
      assert here in t ==> here in t.Keys - Seen(t, kind, n) && here !in t.Keys - Seen(t, kind, n + 1);
      assert here !in t ==> t.Keys - Seen(t, kind, n + 1) == t.Keys - Seen(t, kind, n);
      m := WalkOutcome(t, kind, n + 1);
    }
  }

  /** The walk rejects a kind exactly when its chain of parents meets some kind twice. The table may hold
      cycles, and the chain may leave it at an unknown ancestor. */
  lemma WalkRejectsIffRevisits(t: Table, kind: string)
    requires "" !in t && kind != ""
    ensures !ReachesRoot(t, {kind}, Parent(t, kind)) <==> Revisits(t, kind)
  {
    assert Chain(t, kind, 0) == kind && Chain(t, kind, 1) == Parent(t, kind);
    assert Seen(t, kind, 1) == {kind};
    var m := WalkOutcome(t, kind, 1);
    if Revisits(t, kind) && ReachesRoot(t, {kind}, Parent(t, kind)) {
      var i: nat, j: nat :| i < j && Chain(t, kind, i) == Chain(t, kind, j) != "";
      if m <= j { EndedChain(t, kind, m, j); }
      assert false;
    }
  }

  // ---------------------------------------------------------------- ranks

  ghost predicate Ranks(rank: map<string, nat>, t: Table) {
    && rank.Keys == t.Keys
    && forall k :: k in t && t[k].parentKind in t ==> rank[t[k].parentKind] < rank[k]
  }

  ghost predicate Acyclic(t: Table) {
    exists rank :: Ranks(rank, t)
  }

  lemma {:induction false} RankFalls(t: Table, rank: map<string, nat>, kind: string, i: nat, j: nat)
    requires "" !in t && Ranks(rank, t) && i < j && Chain(t, kind, j) in t
    ensures Chain(t, kind, i) in t && rank[Chain(t, kind, j)] < rank[Chain(t, kind, i)]
  {
    assert Chain(t, kind, j - 1) in t;
    if i < j - 1 { RankFalls(t, rank, kind, i, j - 1); }
  }

  ghost predicate IsHeight(t: Table, kind: string, m: nat) {
    Chain(t, kind, m) == "" && forall i: nat :: i < m ==> Chain(t, kind, i) != ""
  }

  /** The number of kinds on the chain of a kind that reaches a root. */
  ghost function Height(t: Table, kind: string): (m: nat)
    requires "" !in t && kind != "" && ReachesRoot(t, {kind}, Parent(t, kind))
    ensures IsHeight(t, kind, m) && FreshChain(t, kind, m)
  {
    assert exists m: nat :: IsHeight(t, kind, m) && FreshChain(t, kind, m) by {
      assert Chain(t, kind, 0) == kind && Chain(t, kind, 1) == Parent(t, kind);
      assert Seen(t, kind, 1) == {kind};
      var m := WalkOutcome(t, kind, 1);
      assert IsHeight(t, kind, m);
    }
    var m: nat :| IsHeight(t, kind, m) && FreshChain(t, kind, m);
    m
  }

  ghost predicate AllReachRoots(t: Table) {
    forall k :: k in t ==> ReachesRoot(t, {k}, t[k].parentKind)
  }

  lemma HeightFalls(t: Table, kind: string)
    requires "" !in t && AllReachRoots(t) && kind in t && Parent(t, kind) in t
    ensures Height(t, Parent(t, kind)) + 1 == Height(t, kind)
  {
    var parent := Parent(t, kind);
    var m, h := Height(t, parent), Height(t, kind);
    ChainOfParent(t, kind, m);
    if h < m + 1 {
      assert Chain(t, kind, 0) != "";
      ChainOfParent(t, kind, h - 1);
      assert false;
    }
  }

  /** The walks accept every kind exactly when some ranking puts every parent below its children. */
  lemma WalksAcceptIffAcyclic(t: Table)
    requires "" !in t
    ensures AllReachRoots(t) <==> Acyclic(t)
  {
    if AllReachRoots(t) {
      var rank: map<string, nat> := map k | k in t :: Height(t, k);
      forall k | k in t && t[k].parentKind in t ensures rank[t[k].parentKind] < rank[k] {
        HeightFalls(t, k);
      }
      assert Ranks(rank, t);
    }
    if Acyclic(t) {
      var rank :| Ranks(rank, t);
      forall k | k in t ensures ReachesRoot(t, {k}, t[k].parentKind) {
        WalkRejectsIffRevisits(t, k);
        if Revisits(t, k) {
          var i: nat, j: nat :| i < j && Chain(t, k, i) == Chain(t, k, j) != "";
          if Chain(t, k, j) in t {
            RankFalls(t, rank, k, i, j);
          } else {
            assert Chain(t, k, i + 1) == "";
            EndedChain(t, k, i + 1, j);
          }
        }
      }
    }
  }

  lemma {:induction false} ChainStaysInTable(t: Table, kind: string, n: nat)
    requires kind in t && forall k :: k in t ==> t[k].parentKind == "" || t[k].parentKind in t
    requires Chain(t, kind, n) != "" && "" !in t
    ensures Chain(t, kind, n) in t
  {
    if n > 0 {
      ChainStaysInTable(t, kind, n - 1);
    }
  }

  /** In a table whose parents exist and which the walks accept, every chain ends within the size of the table. */
  lemma ChainsAreShort(t: Table, kind: string)
    requires "" !in t && AllReachRoots(t) && kind in t
    requires forall k :: k in t ==> t[k].parentKind == "" || t[k].parentKind in t
    ensures Height(t, kind) <= |t| && Chain(t, kind, |t|) == ""
  {
    var m := Height(t, kind);
    var chain := seq(m, i requires 0 <= i < m => Chain(t, kind, i));
    forall k | k in chain ensures k in t.Keys {
      var i :| 0 <= i < m && chain[i] == k;
      ChainStaysInTable(t, kind, i);
    }
    Pigeonhole(chain, t.Keys);
    EndedChain(t, kind, m, |t|);
  }

  // ---------------------------------------------------------------- acceptance

  ghost predicate ParentsKnown(rows: seq<Row>) {
    forall e :: e in rows && e.parentKind != "" ==>
      exists p :: p in rows && p.kind == e.parentKind && (e.parentPlural == "" || e.parentPlural == p.plural)
  }

  ghost predicate ParentsRanked(rows: seq<Row>, rank: map<string, nat>) {
    forall e :: e in rows ==>
      e.kind in rank && (e.parentKind != "" ==> e.parentKind in rank && rank[e.parentKind] < rank[e.kind])
  }

  ghost predicate CleanupChildrenOwned(rows: seq<Row>) {
    forall e, c :: e in rows && c in e.cleanup.childKinds ==>
      exists f :: f in rows && f.kind == c && f.parentKind == e.kind
  }

  predicate WellFormed(e: Row) {
    && ValidSettings(e)
    && if e.parentKind == "" then e.parentPlural == "" && e.onParentDelete == ""
       else e.onParentDelete in {"cascade", "restrict"}
  }

  /** A usable table, said about its rows alone. */
  ghost predicate Acceptable(rows: seq<Row>) {
    && ValidNames(rows)
    && DistinctNames(rows)
    && ParentsKnown(rows)
    && (exists rank :: ParentsRanked(rows, rank))
    && CleanupChildrenOwned(rows)
    && forall e :: e in rows ==> WellFormed(e)
  }

  /** The rows of an indexed table, seen through its map. */
  ghost predicate Indexes(t: Table, rows: seq<Row>) {
    && ValidNames(rows)
    && (forall e :: e in rows ==> e.kind in t && t[e.kind] == e)
    && (forall k :: k in t ==> t[k] in rows && t[k].kind == k)
  }

  lemma IndexedHasNoBlankKind(t: Table, rows: seq<Row>)
    requires Indexes(t, rows)
    ensures "" !in t
  {
    assert Blank("");
  }

  ghost predicate TableParentsKnown(t: Table) {
    forall k :: k in t && t[k].parentKind != "" ==>
      t[k].parentKind in t && (t[k].parentPlural == "" || t[k].parentPlural == t[t[k].parentKind].plural)
  }

  ghost predicate TableChildrenOwned(t: Table) {
    forall k, c :: k in t && c in t[k].cleanup.childKinds ==> c in t && t[c].parentKind == k
  }

  /** What the checks of one row come to. */
  ghost predicate RowAccepted(t: Table, k: string)
    requires k in t
  {
    && (t[k].parentKind != "" ==>
          && t[k].parentKind in t
          && (t[k].parentPlural == "" || t[k].parentPlural == t[t[k].parentKind].plural))
    && WellFormed(t[k])
    && ReachesRoot(t, {k}, t[k].parentKind)
    && forall c :: c in t[k].cleanup.childKinds ==> c in t && t[c].parentKind == k
  }

  lemma RowProblemIff(t: Table, k: string)
    requires k in t && forall l :: l in t ==> ValidName(t[l])
    ensures RowProblem(t, k, t[k]).None? <==> RowAccepted(t, k)
  {
    var e := t[k];
    if e.parentKind in t { assert ValidName(t[e.parentKind]); }
    var r := ResolveRow(t, e);
    assert ValidName(r);
    if e.parentKind == "" || e.parentKind in t {
      assert Validate(r).None? <==> ValidRouting(r) && ValidSettings(r);
    }
  }

  lemma RowsAndTableAgree(t: Table, rows: seq<Row>)
    requires Indexes(t, rows)
    ensures ParentsKnown(rows) <==> TableParentsKnown(t)
    ensures ParentsKnown(rows) ==> ((exists rank :: ParentsRanked(rows, rank)) <==> Acyclic(t))
    ensures CleanupChildrenOwned(rows) <==> TableChildrenOwned(t)
    ensures (forall e :: e in rows ==> WellFormed(e)) <==> (forall k :: k in t ==> WellFormed(t[k]))
  {
    IndexedHasNoBlankKind(t, rows);
    ParentsAgree(t, rows);
    if ParentsKnown(rows) { RanksAgree(t, rows); }
    ChildrenAgree(t, rows);
  }

  lemma ParentsAgree(t: Table, rows: seq<Row>)
    requires Indexes(t, rows)
    ensures ParentsKnown(rows) <==> TableParentsKnown(t)
  {
    if TableParentsKnown(t) {
      forall e | e in rows && e.parentKind != ""
        ensures exists p :: p in rows && p.kind == e.parentKind && (e.parentPlural == "" || e.parentPlural == p.plural)
      {
        assert e.kind in t && t[e.kind] == e;
        assert t[e.parentKind] in rows;
      }
    }
  }

  lemma RanksAgree(t: Table, rows: seq<Row>)
    requires Indexes(t, rows) && "" !in t && TableParentsKnown(t)
    ensures (exists rank :: ParentsRanked(rows, rank)) <==> Acyclic(t)
  {
    if Acyclic(t) {
      var rank :| Ranks(rank, t);
      assert ParentsRanked(rows, rank);
    }
    if exists rank :: ParentsRanked(rows, rank) {
      var rank :| ParentsRanked(rows, rank);
      var inside: map<string, nat> := map k | k in t :: rank[k];
      assert Ranks(inside, t);
    }
  }

  lemma ChildrenAgree(t: Table, rows: seq<Row>)
    requires Indexes(t, rows)
    ensures CleanupChildrenOwned(rows) <==> TableChildrenOwned(t)
  {
    if TableChildrenOwned(t) {
      forall e, c | e in rows && c in e.cleanup.childKinds
        ensures exists f :: f in rows && f.kind == c && f.parentKind == e.kind
      {
        assert t[e.kind] == e;
        assert c in t && t[c] in rows;
      }
    }
  }

  ghost predicate TableAcceptable(t: Table) {
    && TableParentsKnown(t)
    && Acyclic(t)
    && TableChildrenOwned(t)
    && forall k :: k in t ==> WellFormed(t[k])
  }

  lemma RangeAcceptsIff(t: Table, order: seq<string>)
    requires Enumerates(order, t.Keys) && "" !in t && forall k :: k in t ==> ValidName(t[k])
    ensures ResolveInOrder(t, order).Ok? <==> TableAcceptable(t)
    ensures ResolveInOrder(t, order).Ok? ==> ResolveInOrder(t, order).value == ResolveAll(t)
  {
    RangeOutcome(t, t, order);
    AllAcceptedIff(t);
    forall k | k in t ensures RowProblem(t, k, t[k]).None? <==> RowAccepted(t, k) {
      RowProblemIff(t, k);
    }
  }

  lemma AllAcceptedIff(t: Table)
    requires "" !in t
    ensures (forall k :: k in t ==> RowAccepted(t, k)) <==> TableAcceptable(t)
  {
    WalksAcceptIffAcyclic(t);
  }

  /** NewCatalog accepts exactly the acceptable tables, whatever order its map range takes, and the catalog then
      maps each kind to its row with the parent's plural filled in. */
  lemma AcceptedIffAcceptable(rows: seq<Row>, order: seq<string>)
    requires Enumerates(order, Kinds(rows))
    ensures Build(rows, order).Ok? <==> Acceptable(rows)
    ensures Build(rows, order).Ok? ==> Build(rows, order).value == ResolveAll(ByKind(rows))
  {
    IndexRowsCorrect(rows, map[], {});
    assert Avoids(rows, map[], {});
    if ValidNames(rows) && DistinctNames(rows) {
      var t := IndexOf(rows);
      assert IndexRows(rows, map[], {}) == Ok(t);
      RangeAcceptsIff(t, order);
      AcceptableAgree(t, rows);
    }
  }

  lemma AcceptableAgree(t: Table, rows: seq<Row>)
    requires Indexes(t, rows) && DistinctNames(rows)
    ensures TableAcceptable(t) <==> Acceptable(rows)
  {
    RowsAndTableAgree(t, rows);
  }

  lemma IndexOf(rows: seq<Row>) returns (t: Table)
    requires ValidNames(rows) && DistinctNames(rows)
    ensures t == ByKind(rows) == map[] + t
    ensures Indexes(t, rows) && "" !in t && t.Keys == Kinds(rows)
    ensures forall k :: k in t ==> ValidName(t[k])
  {
    t := ByKind(rows);
    ByKindOfDistinct(rows);
    assert Indexes(t, rows);
    IndexedHasNoBlankKind(t, rows);
    forall k | k in t ensures ValidName(t[k]) {
      assert t[k] in rows;
    }
  }

  /** An accepted catalog is a forest: every chain of parents ends within as many steps as there are kinds,
      and never meets a kind twice. */
  lemma AcceptedIsForest(rows: seq<Row>, order: seq<string>, kind: string)
    requires Enumerates(order, Kinds(rows)) && Build(rows, order).Ok?
    requires kind in Build(rows, order).value
    ensures var t := Build(rows, order).value;
            Chain(t, kind, |t|) == "" && !Revisits(t, kind) && Acyclic(t)
  {
    AcceptedIffAcceptable(rows, order);
    var source := IndexOf(rows);
    RowsAndTableAgree(source, rows);
    ResolvedIsForest(source, kind);
  }

  lemma ResolvedIsForest(source: Table, kind: string)
    requires "" !in source && kind in source && TableParentsKnown(source) && Acyclic(source)
    ensures var t := ResolveAll(source);
            Chain(t, kind, |t|) == "" && !Revisits(t, kind) && Acyclic(t)
  {
    var t := ResolveAll(source);
    assert SameRoutes(source, t);
    var rank :| Ranks(rank, source);
    assert Ranks(rank, t);
    WalksAcceptIffAcyclic(t);
    ChainsAreShort(t, kind);
    WalkRejectsIffRevisits(t, kind);
  }
}
