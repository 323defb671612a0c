/** What the check of capability specs complains of, in terms of the file's own calls and words. */
module CapabilityReport {
  import opened Sequences
  import opened Sorting
  import opened Capability

  // ---------------------------------------------------------------- the words it looks for

  predicate ContainerWord(word: string) {
    || word == "Describe" || word == "Context" || word == "When"
    || word == "DescribeTable" || word == "DescribeTableSubtree"
  }

  /** A container function, or its focused, pending or skipped form. */
  predicate ContainerFunction(name: string) {
    ContainerWord(name) || (|name| > 0 && name[0] in ['F', 'P', 'X'] && ContainerWord(name[1..]))
  }

  lemma ContainerNames(name: string)
    ensures IsContainerName(name) <==> ContainerFunction(name)
  {
    assert name in CONTAINER_NAMES <==> ContainerWord(name);
    if name != "" { assert name[1..] in CONTAINER_NAMES <==> ContainerWord(name[1..]); }
  }

  predicate NameCharacter(c: char) { 'a' <= c <= 'z' || '0' <= c <= '9' }

  /** Lower-case letters and digits, with single hyphens between them. */
  predicate Hyphenated(name: string) {
    |name| > 0 && NameCharacter(name[0]) && HyphensJoin(name)
  }

  predicate HyphensJoin(s: string) {
    forall i :: 0 <= i < |s| ==> JoinsAt(s, i)
  }

  predicate JoinsAt(s: string, i: nat)
    requires i < |s|
  {
    NameCharacter(s[i]) || (s[i] == '-' && i + 1 < |s| && NameCharacter(s[i + 1]))
  }

  predicate Segment(part: string) {
    forall c :: c in part ==> NameCharacter(c)
  }

  predicate SegmentsAfterFirst(parts: seq<string>) {
    forall i :: 1 <= i < |parts| ==> parts[i] != "" && Segment(parts[i])
  }

  lemma {:induction false} HyphensJoinIff(s: string)
    ensures var parts := Split(s, '-');
            && (parts[0] == "" <==> s == "" || s[0] == '-')
            && (HyphensJoin(s) <==> Segment(parts[0]) && SegmentsAfterFirst(parts))
  {
    if s != "" {
      HyphensJoinIff(s[1..]);
      var parts, rest := Split(s, '-'), Split(s[1..], '-');
      JoinStep(s);
      if |s| > 1 { assert HyphensJoin(s[1..]) ==> JoinsAt(s[1..], 0); }
      if s[0] == '-' {
        FirstSegmentEmpty(parts, rest);
      } else {
        FirstSegmentGrows(s[0], parts, rest);
      }
    }
  }

  lemma FirstSegmentEmpty(parts: seq<string>, rest: seq<string>)
    requires |rest| > 0 && parts == [[]] + rest
    ensures Segment(parts[0]) && SegmentsAfterFirst(parts) <==>
            rest[0] != "" && Segment(rest[0]) && SegmentsAfterFirst(rest)
  {
    assert forall i :: 0 <= i < |rest| ==> parts[i + 1] == rest[i];
    assert parts[1] == rest[0];
    if SegmentsAfterFirst(parts) {
      forall i | 1 <= i < |rest| ensures rest[i] != "" && Segment(rest[i]) {
        assert parts[i + 1] == rest[i];
      }
    }
  }

  lemma FirstSegmentGrows(c: char, parts: seq<string>, rest: seq<string>)
    requires |rest| > 0 && parts == [[c] + rest[0]] + rest[1..]
    ensures Segment(parts[0]) && SegmentsAfterFirst(parts) <==>
            NameCharacter(c) && Segment(rest[0]) && SegmentsAfterFirst(rest)
  {
    assert forall d :: d in parts[0] <==> d == c || d in rest[0];
    assert |parts| == |rest| && forall i :: 1 <= i < |parts| ==> parts[i] == rest[i];
  }

  lemma JoinStep(s: string)
    requires s != ""
    ensures HyphensJoin(s) <==> JoinsAt(s, 0) && HyphensJoin(s[1..])
  {
    var rest := s[1..];
    forall i: nat | i < |rest| ensures JoinsAt(rest, i) <==> JoinsAt(s, i + 1) {
    }
    if HyphensJoin(rest) && JoinsAt(s, 0) {
      forall i: nat | i < |s| ensures JoinsAt(s, i) {
        if i > 0 { assert JoinsAt(rest, i - 1); }
      }
    }
  }

  /** The segments of a capability's name, said of the name itself. */
  lemma CapabilityNameIff(name: string)
    ensures CapabilityName(name) <==> Hyphenated(name)
  {
    var parts := Split(name, '-');
    HyphensJoinIff(name);
    assert CapabilityName(name) <==> parts[0] != "" && Segment(parts[0]) && SegmentsAfterFirst(parts);
    assert name != "" && HyphensJoin(name) ==> JoinsAt(name, 0);
  }

  /** The language of a capability's title. */
  lemma CapabilityTitleIff(title: string)
    ensures CapabilityTitle(title) <==> exists name, text :: Titled(title, name, text)
  {
    if CapabilityTitle(title) {
      var name, text := TitleParts(title);
    }
    forall name, text | Titled(title, name, text) ensures CapabilityTitle(title) {
      TitleFromParts(title, name, text);
    }
  }

  lemma TitleParts(title: string) returns (name: string, text: string)
    requires CapabilityTitle(title)
    ensures Titled(title, name, text)
  {
    var rest := title[|TITLE_PREFIX|..];
    var n :| 0 <= n < |title| - |TITLE_PREFIX| && NameEndsAt(rest, n);
    name, text := rest[..n], rest[n + 2..];
    CapabilityNameIff(name);
    assert title == TITLE_PREFIX + rest;
    assert rest == name + ("] " + text);
    Regroup(TITLE_PREFIX + name, "] ", text);
    Regroup(TITLE_PREFIX, name, "] " + text);
  }

  lemma TitleFromParts(title: string, name: string, text: string)
    requires Titled(title, name, text)
    ensures CapabilityTitle(title)
  {
    var rest := title[|TITLE_PREFIX|..];
    CapabilityNameIff(name);
    assert rest == name + "] " + text;
    assert rest[..|name|] == name && rest[|name| + 2..] == text;
    assert NameEndsAt(rest, |name|);
  }

  predicate Titled(title: string, name: string, text: string) {
    && title == "[Capability: " + name + "] " + text
    && Hyphenated(name) && |text| > 0 && text[0] !in ['\t', '\n', '\U{C}', '\r', ' ']
  }

  // ---------------------------------------------------------------- the calls it sees

  function Children(node: Node): seq<Node> {
    match node
    case Call(_, fun, args) => [fun] + args
    case Selector(x, _) => [x]
    case Other(children) => children
    case _ => []
  }

  /** A node occurs in a tree: at its root, or in the subtree of a child. */
  predicate Occurs(c: Node, node: Node)
    decreases node
  {
    c == node || exists i :: 0 <= i < |Children(node)| && Occurs(c, Children(node)[i])
  }

  /** The walk sees every call of the tree, and nothing else. */
  lemma {:induction false} EveryCallIsSeen(c: Node, node: Node)
    ensures c in Calls(node) <==> c.Call? && Occurs(c, node)
    decreases node, 0
  {
    match node
    case Call(_, fun, args) =>
      EveryCallIsSeen(c, fun);
      EveryCallInIsSeen(c, args);
      assert Children(node)[0] == fun && forall i :: 0 <= i < |args| ==> Children(node)[i + 1] == args[i];
      assert forall i :: 1 <= i < |Children(node)| ==> Children(node)[i] == args[i - 1];
    case Selector(x, _) =>
      EveryCallIsSeen(c, x);
      assert Children(node)[0] == x;
    case Other(children) =>
      EveryCallInIsSeen(c, children);
      assert Children(node) == children && c.Call? ==> c != node;
    case _ =>
  }

  lemma {:induction false} EveryCallInIsSeen(c: Node, nodes: seq<Node>)
    ensures c in CallsIn(nodes) <==> c.Call? && exists i :: 0 <= i < |nodes| && Occurs(c, nodes[i])
    decreases nodes
  {
    if nodes != [] {
      EveryCallIsSeen(c, nodes[0]);
      EveryCallInIsSeen(c, nodes[1..]);
      assert forall i :: 1 <= i < |nodes| ==> nodes[i] == nodes[1..][i - 1];
      assert forall i :: 0 <= i < |nodes[1..]| ==> nodes[1..][i] == nodes[i + 1];
    }
  }

  // ---------------------------------------------------------------- what each complaint says

  /** A call written ginkgo.name. */
  predicate CallsGinkgo(c: Node, name: string) {
    c.Call? && c.fun == Selector(Ident("ginkgo"), name)
  }

  predicate PackageDescribe(u: Unit) {
    u.VarValue? && CallsGinkgo(u.node, "Describe")
  }

  /** A call of the unit that is not itself the value of a package-level variable. */
  predicate Deeper(u: Unit, c: Node) {
    c in Calls(u.node) && !(u.VarValue? && u.node == c)
  }

  predicate HasTitle(c: Node, title: string) {
    c.Call? && c.args != [] && c.args[0].Literal? && c.args[0].isString && c.args[0].unquoted == Some(title)
  }

  /** What is wrong with the title or the labels of a package-level Describe. */
  predicate Mistitled(c: Node, p: Problem)
    requires c.Call?
  {
    match p
    case NoTitle => c.args == []
    case TitleNotLiteral => c.args != [] && !(c.args[0].Literal? && c.args[0].isString)
    case TitleUnreadable => c.args != [] && c.args[0].Literal? && c.args[0].isString && c.args[0].unquoted == None
    case BadTitle(title) => HasTitle(c, title) && !CapabilityTitle(title)
    case NoCapabilityLabel(title) =>
      HasTitle(c, title)
      && !(Named(c.args[0].text) && exists i :: 1 <= i < |c.args| && IsCapabilityLabel(c.args[i]))
    case _ => false
  }

  /** What is wrong with a call of a unit. */
  predicate Complained(u: Unit, c: Node, p: Problem)
    requires c.Call?
  {
    match p
    case OutsideDescribe(name) =>
      Deeper(u, c) && CallsGinkgo(c, name) && ContainerFunction(name) && name != "Describe" && !PackageDescribe(u)
    case NotPackageLevel => Deeper(u, c) && CallsGinkgo(c, "Describe")
    case _ => PackageDescribe(u) && u.node == c && Mistitled(c, p)
  }

  /** What is wrong with a file. */
  ghost predicate Complaint(imports: seq<Import>, units: seq<Unit>, p: Problem) {
    match p
    case ImportedAs(name) => Import("github.com/onsi/ginkgo/v2", Some(name)) in imports
    case PackageLevelContainer(name) =>
      ContainerFunction(name) && name != "Describe"
      && exists u :: u in units && u.VarValue? && CallsGinkgo(u.node, name)
    case _ => exists u, c :: u in units && c in Calls(u.node) && Complained(u, c, p)
  }

  lemma CallNameIs(c: Node)
    requires c.Call?
    ensures forall name :: name != "" ==> (CallName(c) == name <==> CallsGinkgo(c, name))
    ensures IsContainer(c) <==> ContainerFunction(CallName(c))
  {
    ContainerNames(CallName(c));
  }

  lemma {:induction false} TitleProblemMeans(c: Node, p: Problem)
    requires c.Call?
    ensures p in TitleProblems(c) <==> Mistitled(c, p)
  {
    if c.args != [] && c.args[0].Literal? && c.args[0].isString && c.args[0].unquoted.Some? {
      CarriesIff(c);
    }
  }

  lemma {:induction false} CarriesIff(c: Node)
    requires c.Call? && c.args != [] && c.args[0].Literal?
    ensures SpecLabels(c).Some? && "capability" in SpecLabels(c).value <==>
            Named(c.args[0].text) && exists i :: 1 <= i < |c.args| && IsCapabilityLabel(c.args[i])
  {
    var rest := c.args[1..];
    FlatMapMember(LabelsOf, rest, "capability");
    forall i | 1 <= i < |c.args|
      ensures rest[i - 1] == c.args[i]
      ensures "capability" in LabelsOf(c.args[i]) <==> IsCapabilityLabel(c.args[i])
    {
      LabelsHaveCapability(c.args[i]);
    }
    assert (exists i :: 0 <= i < |rest| && "capability" in LabelsOf(rest[i]))
        <==> exists i :: 1 <= i < |c.args| && IsCapabilityLabel(c.args[i]) by {
      forall i | 0 <= i < |rest| ensures rest[i] == c.args[i + 1] { }
    }
  }

  lemma {:induction false} CallReportMeans(units: seq<Unit>, i: nat, c: Node, p: Problem)
    requires IsTree(units) && i < |units| && c in Calls(units[i].node)
    ensures p in CallReport(PlacementOf(units), c) <==> Complained(units[i], c, p)
  {
    CallProblemIsTreeProblem(units, i, c);
    CallNameIs(c);
    TitleProblemMeans(c, p);
    if units[i].node.Call? { CallNameIs(units[i].node); }
  }

  lemma {:induction false} WalkMeans(units: seq<Unit>, p: Problem)
    requires IsTree(units)
    ensures p in WalkProblems(PlacementOf(units), CallsOfFile(units)) <==>
            exists u, c :: u in units && c in Calls(u.node) && Complained(u, c, p)
  {
    var f, calls := ReportOn(PlacementOf(units)), CallsOfFile(units);
    FlatMapMember(f, calls, p);
    if k :| 0 <= k < |calls| && p in f(calls[k]) {
      FileCalls(units, calls[k]);
      var i: nat :| i < |units| && calls[k] in Calls(units[i].node);
      CallReportMeans(units, i, calls[k], p);
      assert units[i] in units;
    }
    forall u, c | u in units && c in Calls(u.node) && Complained(u, c, p) ensures p in FlatMap(f, calls) {
      var i: nat :| i < |units| && units[i] == u;
      CallReportMeans(units, i, c, p);
      FileCalls(units, c);
      var k :| 0 <= k < |calls| && calls[k] == c;
      assert p in f(calls[k]);
    }
  }

  lemma {:induction false} ImportsMean(imports: seq<Import>, p: Problem)
    ensures p in FlatMap(ImportProblem, imports) <==>
            p.ImportedAs? && Import("github.com/onsi/ginkgo/v2", Some(p.name)) in imports
  {
    FlatMapMember(ImportProblem, imports, p);
    if p.ImportedAs? && Import("github.com/onsi/ginkgo/v2", Some(p.name)) in imports {
      var i :| 0 <= i < |imports| && imports[i] == Import("github.com/onsi/ginkgo/v2", Some(p.name));
      assert p in ImportProblem(imports[i]);
    }
  }

  lemma {:induction false} ValuesMean(units: seq<Unit>, p: Problem)
    ensures p in ValueProblems(units) <==>
            && p.PackageLevelContainer? && ContainerFunction(p.name) && p.name != "Describe"
            && exists u :: u in units && u.VarValue? && CallsGinkgo(u.node, p.name)
  {
    FlatMapMember(ValueProblem, units, p);
    forall i | 0 <= i < |units|
      ensures p in ValueProblem(units[i]) <==>
              && p.PackageLevelContainer? && ContainerFunction(p.name) && p.name != "Describe"
              && units[i].VarValue? && CallsGinkgo(units[i].node, p.name)
    {
      if units[i].node.Call? { CallNameIs(units[i].node); }
    }
    if i :| 0 <= i < |units| && p in ValueProblem(units[i]) {
      assert units[i] in units;
    }
    if p.PackageLevelContainer? {
      forall u | u in units && u.VarValue? && CallsGinkgo(u.node, p.name)
        ensures exists i :: 0 <= i < |units| && u == units[i]
      {
      }
    }
  }

  /** The check reports exactly what is wrong with the file. */
  lemma {:induction false} ReportsExactly(imports: seq<Import>, units: seq<Unit>, p: Problem)
    requires IsTree(units)
    ensures p in FileProblems(imports, units) <==> Complaint(imports, units, p)
  {
    ImportsMean(imports, p);
    ValuesMean(units, p);
    WalkMeans(units, p);
  }

  /** Imports are reported first, then misplaced package-level values, then what the walk finds. */
  function Part(p: Problem): nat {
    match p case ImportedAs(_) => 0 case PackageLevelContainer(_) => 1 case _ => 2
  }

  lemma {:induction false} ReportedInParts(imports: seq<Import>, units: seq<Unit>, i: nat, j: nat)
    requires IsTree(units) && i < j < |FileProblems(imports, units)|
    ensures Part(FileProblems(imports, units)[i]) <= Part(FileProblems(imports, units)[j])
  {
    var all := FileProblems(imports, units);
    var some, more := FlatMap(ImportProblem, imports), ValueProblems(units);
    var rest := WalkProblems(PlacementOf(units), CallsOfFile(units));
    assert all == some + (more + rest);
    PartIs(imports, units, all[i]);
    PartIs(imports, units, all[j]);
  }

  lemma {:induction false} PartIs(imports: seq<Import>, units: seq<Unit>, p: Problem)
    requires IsTree(units)
    ensures p in FlatMap(ImportProblem, imports) ==> Part(p) == 0
    ensures p in ValueProblems(units) ==> Part(p) == 1
    ensures p in WalkProblems(PlacementOf(units), CallsOfFile(units)) ==> Part(p) == 2
  {
    ImportsMean(imports, p);
    ValuesMean(units, p);
    WalkMeans(units, p);
  }
}
