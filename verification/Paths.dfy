/** API paths of the kinds in an accepted catalog, and the parser that undoes them. */
module Paths {
  import opened Sequences
  import opened Text
  import opened Descriptor
  import opened Forest

  function CollectionPath<N>(e: EntityDescriptor<N>, parentID: string): string {
    if e.parentKind == "" then e.plural else e.parentPlural + "/" + parentID + "/" + e.plural
  }

  function ResourcePath<N>(e: EntityDescriptor<N>, parentID: string, resourceID: string): string {
    CollectionPath(e, parentID) + "/" + resourceID
  }

  /** What a resource path stands for. A root has no parent ID. */
  datatype Address = Address(kind: string, parentID: string, resourceID: string)

  predicate OneSegment(s: string) { '/' !in s }

  /** What acceptance gives the routes: plurals and parent plurals without slashes, and a plural for each kind alone. */
  ghost predicate Routable(t: Table) {
    && (forall k :: k in t ==> OneSegment(t[k].plural))
    && (forall k :: k in t && t[k].parentKind != "" ==> OneSegment(t[k].parentPlural))
    && (forall k, l :: k in t && l in t && t[k].plural == t[l].plural ==> k == l)
  }

  lemma AcceptedIsRoutable(rows: seq<Row>, order: seq<string>)
    requires Enumerates(order, Kinds(rows)) && Build(rows, order).Ok?
    ensures Routable(Build(rows, order).value)
  {
    AcceptedIffAcceptable(rows, order);
    var source := IndexOf(rows);
    ParentsAgree(source, rows);
    forall k, l | k in source && l in source && source[k].plural == source[l].plural ensures k == l {
      PluralNamesOneKind(rows, source[k], source[l]);
    }
    ResolvedIsRoutable(source);
  }

  lemma PluralNamesOneKind(rows: seq<Row>, e: Row, f: Row)
    requires DistinctNames(rows) && e in rows && f in rows && e.plural == f.plural
    ensures e == f
  {
    var i :| 0 <= i < |rows| && rows[i] == e;
    var j :| 0 <= j < |rows| && rows[j] == f;
    assert i == j;
  }

  lemma ResolvedIsRoutable(source: Table)
    requires TableParentsKnown(source)
    requires forall k :: k in source ==> ValidName(source[k])
    requires forall k, l :: k in source && l in source && source[k].plural == source[l].plural ==> k == l
    ensures Routable(ResolveAll(source))
  {
    forall k | k in source ensures OneSegment(source[k].plural) {
      NamesHaveNoSlash(source[k]);
    }
  }

  lemma NamesHaveNoSlash(e: Row)
    requires ValidName(e)
    ensures OneSegment(e.plural)
  {
    assert !PathSafe('/');
  }

  predicate RootAt(t: Table, kind: string, plural: string) {
    kind in t && t[kind].parentKind == "" && t[kind].plural == plural
  }

  predicate ChildAt(t: Table, kind: string, parentPlural: string, plural: string) {
    kind in t && t[kind].parentKind != "" && t[kind].parentPlural == parentPlural && t[kind].plural == plural
  }

  /** The inverse of ResourcePath: two segments name a root, four a child under its parent. */
  ghost function Parse(t: Table, path: string): Option<Address> {
    var parts := Split(path, '/');
    if |parts| == 2 && exists kind :: RootAt(t, kind, parts[0]) then
      var kind :| RootAt(t, kind, parts[0]);
      Some(Address(kind, "", parts[1]))
    else if |parts| == 4 && exists kind :: ChildAt(t, kind, parts[0], parts[2]) then
      var kind :| ChildAt(t, kind, parts[0], parts[2]);
      Some(Address(kind, parts[1], parts[3]))
    else None
  }

  function AddressOf(t: Table, kind: string, parentID: string, resourceID: string): Address
    requires kind in t
  {
    Address(kind, if t[kind].parentKind == "" then "" else parentID, resourceID)
  }

  predicate PlainIDs(a: Address) {
    OneSegment(a.parentID) && OneSegment(a.resourceID)
  }

  lemma SegmentsOf(e: Row, parentID: string, resourceID: string)
    requires OneSegment(e.plural) && OneSegment(resourceID)
    requires e.parentKind != "" ==> OneSegment(e.parentPlural) && OneSegment(parentID)
    ensures Split(ResourcePath(e, parentID, resourceID), '/') ==
            if e.parentKind == "" then [e.plural, resourceID] else [e.parentPlural, parentID, e.plural, resourceID]
  {
    var parts := if e.parentKind == "" then [e.plural, resourceID]
                 else [e.parentPlural, parentID, e.plural, resourceID];
    var tail := e.plural + "/" + resourceID;
    assert Join([e.plural, resourceID], '/') == tail by {
      assert [e.plural, resourceID][1..] == [resourceID];
    }
    if e.parentKind != "" {
      assert parts[1..] == [parentID, e.plural, resourceID];
      assert parts[1..][1..] == [e.plural, resourceID];
      assert ResourcePath(e, parentID, resourceID) == e.parentPlural + "/" + (parentID + "/" + tail);
    }
    assert ResourcePath(e, parentID, resourceID) == Join(parts, '/');
    SplitJoin(parts, '/');
  }

  lemma ParsesRoot(t: Table, kind: string, resourceID: string)
    requires Routable(t) && kind in t && t[kind].parentKind == "" && OneSegment(resourceID)
    ensures Parse(t, ResourcePath(t[kind], "", resourceID)) == Some(Address(kind, "", resourceID))
  {
    var e := t[kind];
    SegmentsOf(e, "", resourceID);
    var parts := Split(ResourcePath(e, "", resourceID), '/');
    assert parts == [e.plural, resourceID];
    assert RootAt(t, kind, parts[0]);
    assert forall l :: RootAt(t, l, parts[0]) ==> l == kind;
  }

  lemma ParsesChild(t: Table, kind: string, parentID: string, resourceID: string)
    requires Routable(t) && kind in t && t[kind].parentKind != "" && OneSegment(parentID) && OneSegment(resourceID)
    ensures Parse(t, ResourcePath(t[kind], parentID, resourceID)) == Some(Address(kind, parentID, resourceID))
  {
    var e := t[kind];
    SegmentsOf(e, parentID, resourceID);
    var parts := Split(ResourcePath(e, parentID, resourceID), '/');
    assert parts == [e.parentPlural, parentID, e.plural, resourceID];
    assert ChildAt(t, kind, parts[0], parts[2]);
    assert forall l :: ChildAt(t, l, parts[0], parts[2]) ==> l == kind;
  }

  lemma ParsedIDsArePlain(t: Table, path: string)
    ensures Parse(t, path).Some? ==> PlainIDs(Parse(t, path).value)
  {
    var parts := Split(path, '/');
    assert forall i :: 0 <= i < |parts| ==> parts[i] in parts;
  }

  /** The parser, which cuts at every slash, gives back the kind and the IDs of a resource path exactly when the IDs
      hold no slash. */
  lemma ParseInvertsIffPlain(t: Table, kind: string, parentID: string, resourceID: string)
    requires Routable(t) && kind in t
    ensures Parse(t, ResourcePath(t[kind], parentID, resourceID)) == Some(AddressOf(t, kind, parentID, resourceID))
            <==> PlainIDs(AddressOf(t, kind, parentID, resourceID))
  {
    ParsedIDsArePlain(t, ResourcePath(t[kind], parentID, resourceID));
    if PlainIDs(AddressOf(t, kind, parentID, resourceID)) {
      if t[kind].parentKind == "" {
        ParsesRoot(t, kind, resourceID);
      } else {
        ParsesChild(t, kind, parentID, resourceID);
      }
    }
  }

  /** Two resources with slash-free IDs have the same path only if they are the same resource. */
  lemma PathsDiffer(t: Table, k: string, p: string, r: string, l: string, q: string, s: string)
    requires Routable(t) && k in t && l in t
    requires PlainIDs(AddressOf(t, k, p, r)) && PlainIDs(AddressOf(t, l, q, s))
    requires ResourcePath(t[k], p, r) == ResourcePath(t[l], q, s)
    ensures AddressOf(t, k, p, r) == AddressOf(t, l, q, s)
  {
    ParseInvertsIffPlain(t, k, p, r);
    ParseInvertsIffPlain(t, l, q, s);
  }

  // ---------------------------------------------------------------- IDs with slashes

  /** Different resources have different paths, whatever their IDs hold. */
  ghost predicate PathsInjective(t: Table) {
    forall k, p, r, l, q, s ::
      k in t && l in t && ResourcePath(t[k], p, r) == ResourcePath(t[l], q, s) ==>
        AddressOf(t, k, p, r) == AddressOf(t, l, q, s)
  }

  /** What comes before the first slash. */
  lemma FirstSegment(a: string, r: string, b: string, s: string)
    requires OneSegment(a) && OneSegment(b) && a + "/" + r == b + "/" + s
    ensures a == b && r == s
  {
    var left, right := a + "/" + r, b + "/" + s;
    assert left[|a|] == '/' && right[|b|] == '/';
    assert forall i :: 0 <= i < |a| ==> left[i] == a[i] && a[i] != '/';
    assert forall i :: 0 <= i < |b| ==> right[i] == b[i] && b[i] != '/';
    assert |a| == |b|;
    assert a == left[..|a|] && b == right[..|b|];
    assert r == left[|a| + 1..] && s == right[|b| + 1..];
  }

  lemma RootPathsDiffer(t: Table, k: string, p: string, r: string, l: string, q: string, s: string)
    requires Routable(t) && k in t && l in t && t[k].parentKind == "" && t[l].parentKind == ""
    requires ResourcePath(t[k], p, r) == ResourcePath(t[l], q, s)
    ensures AddressOf(t, k, p, r) == AddressOf(t, l, q, s)
  {
    FirstSegment(t[k].plural, r, t[l].plural, s);
  }

  /** A slash can move from the ID of a child's parent into its own ID. */
  lemma ChildCollidesWithItself(e: Row, a: string, b: string, c: string)
    requires e.parentKind != ""
    ensures ResourcePath(e, a + "/" + e.plural + "/" + b, c) == ResourcePath(e, a, b + "/" + e.plural + "/" + c)
  {
    var head, middle := e.parentPlural + "/", "/" + e.plural + "/";
    assert a + "/" + e.plural + "/" + b == a + middle + b by { Link(a, e.plural, b); }
    assert b + "/" + e.plural + "/" + c == b + middle + c by { Link(b, e.plural, c); }
    ChildPath(e, a + middle + b, c);
    ChildPath(e, a, b + middle + c);
    MoveSlash(head, a, middle, b, c);
  }

  lemma Link(a: string, plural: string, b: string)
    ensures a + "/" + plural + "/" + b == a + ("/" + plural + "/") + b
  {
  }

  lemma ChildPath(e: Row, parentID: string, resourceID: string)
    requires e.parentKind != ""
    ensures ResourcePath(e, parentID, resourceID)
            == e.parentPlural + "/" + parentID + ("/" + e.plural + "/") + resourceID
  {
    Link(e.parentPlural + "/" + parentID, e.plural, resourceID);
  }

  lemma MoveSlash(head: string, a: string, middle: string, b: string, c: string)
    ensures head + (a + middle + b) + middle + c == head + a + middle + (b + middle + c)
  {
    Regroup(head, a + middle, b);
    Regroup(head, a, middle);
    Regroup(head + a + middle, b, middle);
    Regroup(head + a + middle, b + middle, c);
  }

  /** With IDs of every kind, paths tell resources apart exactly when the table has roots only. */
  lemma PathsInjectiveIffAllRoots(t: Table)
    requires Routable(t)
    ensures PathsInjective(t) <==> forall k :: k in t ==> t[k].parentKind == ""
  {
    if forall k :: k in t ==> t[k].parentKind == "" {
      forall k, p, r, l, q, s | k in t && l in t && ResourcePath(t[k], p, r) == ResourcePath(t[l], q, s)
        ensures AddressOf(t, k, p, r) == AddressOf(t, l, q, s)
      {
        RootPathsDiffer(t, k, p, r, l, q, s);
      }
    } else {
      var k :| k in t && t[k].parentKind != "";
      SomeCollision(t, k);
    }
  }

  lemma SomeCollision(t: Table, k: string)
    requires k in t && t[k].parentKind != ""
    ensures !PathsInjective(t)
  {
    var p, s := "/" + t[k].plural + "/", "/" + t[k].plural + "/";
    ChildCollidesWithItself(t[k], "", "", "");
    assert "" + "/" + t[k].plural + "/" + "" == p;
    assert ResourcePath(t[k], p, "") == ResourcePath(t[k], "", s);
    assert AddressOf(t, k, p, "") != AddressOf(t, k, "", s);
  }

  lemma AcceptedPathsInjectiveIff(rows: seq<Row>, order: seq<string>)
    requires Enumerates(order, Kinds(rows)) && Build(rows, order).Ok?
    ensures PathsInjective(Build(rows, order).value) <==> forall e :: e in rows ==> e.parentKind == ""
  {
    AcceptedIsRoutable(rows, order);
    AcceptedIffAcceptable(rows, order);
    var source := IndexOf(rows);
    PathsInjectiveIffAllRoots(ResolveAll(source));
    RootsAgree(source, rows);
  }

  lemma RootsAgree(source: Table, rows: seq<Row>)
    requires Indexes(source, rows)
    ensures (forall k :: k in ResolveAll(source) ==> ResolveAll(source)[k].parentKind == "")
            <==> forall e :: e in rows ==> e.parentKind == ""
  {
    assert forall k :: k in source ==> ResolveAll(source)[k].parentKind == source[k].parentKind;
    forall e | e in rows ensures e.kind in source && source[e.kind] == e {
    }
  }

  /** IDs are passed through as they are, so a slash in a root's ID can spell the path of its child. */
  lemma SlashedIDsCollide(root: Row, child: Row, parentID: string, resourceID: string)
    requires root.parentKind == "" && child.parentKind != "" && child.parentPlural == root.plural
    ensures ResourcePath(root, "", parentID + "/" + child.plural + "/" + resourceID)
            == ResourcePath(child, parentID, resourceID)
  {
    assert root.plural + "/" + (parentID + "/" + child.plural + "/" + resourceID)
        == root.plural + "/" + parentID + "/" + child.plural + "/" + resourceID;
  }
}
