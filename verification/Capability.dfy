/** The static check of capability specs: where ginkgo containers may stand, and how they are titled and labelled. */
module Capability {
  import opened Sequences
  import opened Sorting
  import opened Text

  /** A Go syntax tree, as far as the checker looks. "id" is the identity of a call node, "text" a literal as it is
      written, and "unquoted" what strconv.Unquote makes of it. */
  datatype Node =
    | Call(id: nat, fun: Node, args: seq<Node>)
    | Selector(x: Node, sel: string)
    | Ident(name: string)
    | Literal(isString: bool, text: string, unquoted: Option<string>)
    | Other(children: seq<Node>)

  /** The parts of a file: the values of its package-level var declarations, and everything else. */
  datatype Unit = VarValue(node: Node) | Elsewhere(node: Node)

  /** The calls ast.Inspect visits below a node, in the order it visits them. */
  function Calls(node: Node): (calls: seq<Node>)
    ensures forall c :: c in calls ==> c.Call?
    decreases node, 0
  {
    match node
    case Call(_, fun, args) => [node] + Calls(fun) + CallsIn(args)
    case Selector(x, _) => Calls(x)
    case Ident(_) => []
    case Literal(_, _, _) => []
    case Other(children) => CallsIn(children)
  }

  function CallsIn(nodes: seq<Node>): (calls: seq<Node>)
    ensures forall c :: c in calls ==> c.Call?
    decreases nodes
  {
    if nodes == [] then [] else Calls(nodes[0]) + CallsIn(nodes[1..])
  }

  function CallsOfFile(units: seq<Unit>): (calls: seq<Node>)
    ensures forall c :: c in calls ==> c.Call?
  {
    if units == [] then [] else Calls(units[0].node) + CallsOfFile(units[1..])
  }

  /** ginkgoCallName */
  function CallName(call: Node): string
    requires call.Call?
  {
    if call.fun.Selector? && call.fun.x == Ident("ginkgo") then call.fun.sel else ""
  }

  predicate IsDescribe(call: Node)
    requires call.Call?
  {
    CallName(call) == "Describe"
  }

  const CONTAINER_NAMES := {"Describe", "Context", "When", "DescribeTable", "DescribeTableSubtree"}

  /** The language of the ginkgoContainer pattern. */
  predicate IsContainerName(name: string) {
    name in CONTAINER_NAMES || (name != "" && name[0] in "FPX" && name[1..] in CONTAINER_NAMES)
  }

  predicate IsContainer(call: Node)
    requires call.Call?
  {
    IsContainerName(CallName(call))
  }

  // ---------------------------------------------------------------- where containers belong

  /** The calls strictly inside a call. */
  function Nested(call: Node): (calls: seq<Node>)
    requires call.Call?
    ensures forall c :: c in calls ==> c.Call?
  {
    Calls(call.fun) + CallsIn(call.args)
  }

  predicate NoContainer(calls: seq<Node>)
    requires forall c :: c in calls ==> c.Call?
  {
    forall c :: c in calls ==> !IsContainer(c)
  }

  predicate NoDescribe(calls: seq<Node>)
    requires forall c :: c in calls ==> c.Call?
  {
    forall c :: c in calls ==> !IsDescribe(c)
  }

  predicate IsTopDescribe(u: Unit) {
    u.VarValue? && u.node.Call? && IsDescribe(u.node)
  }

  /** A unit holds a package-level Describe with only other containers inside, or no container at all. */
  predicate WellPlacedUnit(u: Unit) {
    if IsTopDescribe(u) then NoDescribe(Nested(u.node)) else NoContainer(Calls(u.node))
  }

  predicate WellPlaced(units: seq<Unit>) {
    forall u :: u in units ==> WellPlacedUnit(u)
  }

  function TopDescribes(units: seq<Unit>): nat {
    |FlatMap(TopOf, units)|
  }

  /** No node occurs twice in a file. */
  ghost predicate IsTree(units: seq<Unit>) {
    DistinctIDs(CallsOfFile(units))
  }

  ghost predicate DistinctIDs(calls: seq<Node>)
    requires forall c :: c in calls ==> c.Call?
  {
    forall i, j :: 0 <= i < j < |calls| ==> calls[i].id != calls[j].id
  }

  // ---------------------------------------------------------------- titles and labels

  datatype Import = Import(path: string, name: Option<string>)

  /** ginkgo under another name would hide its calls from the checks. */
  predicate Renamed(i: Import) {
    i.path == "github.com/onsi/ginkgo/v2" && i.name.Some?
  }

  predicate CapabilityName(name: string) {
    forall i :: 0 <= i < |Split(name, '-')| ==>
      Split(name, '-')[i] != "" && forall c :: c in Split(name, '-')[i] ==> 'a' <= c <= 'z' || Digit(c)
  }

  const TITLE_PREFIX := "[Capability: "

  /** The characters the space class of a pattern matches. */
  predicate PatternSpace(c: char) {
    c == '\t' || c == '\n' || c == '\U{C}' || c == '\r' || c == ' '
  }

  predicate NameEndsAt(rest: string, n: nat) {
    n + 2 < |rest| && CapabilityName(rest[..n]) && rest[n] == ']' && rest[n + 1] == ' ' && !PatternSpace(rest[n + 2])
  }

  /** The language of the capabilityTitle pattern. */
  predicate CapabilityTitle(title: string) {
    TITLE_PREFIX <= title && exists n :: 0 <= n < |title| - |TITLE_PREFIX| && NameEndsAt(title[|TITLE_PREFIX|..], n)
  }

  /** constantToLabelValue */
  const LABEL_CONSTANTS: map<string, string> := map[
    "Tier0" := "tier0", "Tier1" := "tier1", "Tier2" := "tier2", "Negative" := "negative", "Performance" := "perf",
    "Upgrade" := "upgrade", "Capability" := "capability", "Disruptive" := "disruptive", "Slow" := "slow"]

  function LabelOf(arg: Node): seq<string> {
    if arg.Selector? && arg.x == Ident("labels") && arg.sel in LABEL_CONSTANTS then [LABEL_CONSTANTS[arg.sel]] else []
  }

  function LabelsOf(arg: Node): seq<string> {
    if arg.Call? && CallName(arg) == "Label" then FlatMap(LabelOf, arg.args) else []
  }

  /** What extractSpecFromDescribe needs of a literal title: it is not made of quotes alone. */
  predicate Named(text: string) {
    exists i :: 0 <= i < |text| && text[i] != '"'
  }

  /** extractSpecFromDescribe, for a call whose first argument is a string literal: the labels, if there is a spec. */
  function SpecLabels(call: Node): Option<seq<string>>
    requires call.Call? && call.args != [] && call.args[0].Literal?
  {
    if |call.args| < 2 || !Named(call.args[0].text) then None else Some(FlatMap(LabelsOf, call.args[1..]))
  }

  function TitleProblems(call: Node): seq<Problem>
    requires call.Call?
  {
    if call.args == [] then [NoTitle]
    else if !call.args[0].Literal? || !call.args[0].isString then [TitleNotLiteral]
    else
      match call.args[0].unquoted
      case None => [TitleUnreadable]
      case Some(title) =>
        var labels := SpecLabels(call);
        (if CapabilityTitle(title) then [] else [BadTitle(title)])
        + if labels.Some? && "capability" in labels.value then [] else [NoCapabilityLabel(title)]
  }

  predicate IsCapabilityLabel(arg: Node) {
    arg.Call? && CallName(arg) == "Label" && Selector(Ident("labels"), "Capability") in arg.args
  }

  /** A Describe with a literal capability title and, after it, a ginkgo.Label that names labels.Capability. */
  predicate WellTitled(call: Node)
    requires call.Call?
  {
    && call.args != [] && call.args[0].Literal? && call.args[0].isString && Named(call.args[0].text)
    && call.args[0].unquoted.Some? && CapabilityTitle(call.args[0].unquoted.value)
    && exists i :: 1 <= i < |call.args| && IsCapabilityLabel(call.args[i])
  }

  lemma {:induction false} LabelIsCapability(arg: Node)
    ensures "capability" in LabelOf(arg) <==> arg == Selector(Ident("labels"), "Capability")
  {
  }

  lemma {:induction false} LabelsHaveCapability(arg: Node)
    ensures "capability" in LabelsOf(arg) <==> IsCapabilityLabel(arg)
  {
    if arg.Call? && CallName(arg) == "Label" {
      FlatMapMember(LabelOf, arg.args, "capability");
      forall i | 0 <= i < |arg.args|
        ensures "capability" in LabelOf(arg.args[i]) <==> arg.args[i] == Selector(Ident("labels"), "Capability")
      {
        LabelIsCapability(arg.args[i]);
      }
    }
  }

  /** Title and labels are in order exactly when none of their checks reports anything. */
  lemma {:induction false} TitleProblemsEmptyIff(call: Node)
    requires call.Call?
    ensures TitleProblems(call) == [] <==> WellTitled(call)
  {
    if call.args != [] {
      var rest := call.args[1..];
      FlatMapMember(LabelsOf, rest, "capability");
      forall i | 1 <= i < |call.args|
        ensures rest[i - 1] == call.args[i]
        ensures "capability" in LabelsOf(call.args[i]) <==> IsCapabilityLabel(call.args[i])
      {
        LabelsHaveCapability(call.args[i]);
      }
      assert (exists i :: 0 <= i < |rest| && "capability" in LabelsOf(rest[i]))
          <==> exists i :: 1 <= i < |call.args| && IsCapabilityLabel(call.args[i]) by {
        forall i | 0 <= i < |rest| ensures rest[i] == call.args[i + 1] { }
      }
    }
  }

  /** The loops over the arguments of a Describe and of its Label calls. */
  method ExtractLabels(args: seq<Node>) returns (labels: seq<string>)
    ensures labels == FlatMap(LabelsOf, args)
  {
    labels := [];
    for i := 0 to |args|
      invariant labels == FlatMap(LabelsOf, args[..i])
    {
      FlatMapNext(LabelsOf, args, i);
      if args[i].Call? && CallName(args[i]) == "Label" {
        var more := LabelsFromCall(args[i].args);
        labels := labels + more;
      }
    }
    assert args[..|args|] == args;
  }

  method LabelsFromCall(args: seq<Node>) returns (labels: seq<string>)
    ensures labels == FlatMap(LabelOf, args)
  {
    labels := [];
    for i := 0 to |args|
      invariant labels == FlatMap(LabelOf, args[..i])
    {
      FlatMapNext(LabelOf, args, i);
      labels := labels + LabelOf(args[i]);
    }
    assert args[..|args|] == args;
  }

  /** The checks of one package-level Describe. */
  method CheckTitle(call: Node) returns (problems: seq<Problem>)
    requires call.Call?
    ensures problems == TitleProblems(call)
  {
    if |call.args| == 0 {
      return [NoTitle];
    }
    var first := call.args[0];
    if !first.Literal? || !first.isString {
      return [TitleNotLiteral];
    }
    if first.unquoted.None? {
      return [TitleUnreadable];
    }
    var title := first.unquoted.value;
    problems := if CapabilityTitle(title) then [] else [BadTitle(title)];
    var carries := false;
    if |call.args| >= 2 && Named(first.text) {
      var labels := ExtractLabels(call.args[1..]);
      carries := "capability" in labels;
    }
    if !carries {
      problems := problems + [NoCapabilityLabel(title)];
    }
  }

  function ImportProblem(i: Import): seq<Problem> {
    if Renamed(i) then [ImportedAs(i.name.value)] else []
  }

  method CheckImports(imports: seq<Import>) returns (problems: seq<Problem>)
    ensures problems == FlatMap(ImportProblem, imports)
  {
    problems := [];
    for i := 0 to |imports|
      invariant problems == FlatMap(ImportProblem, imports[..i])
    {
      FlatMapNext(ImportProblem, imports, i);
      if Renamed(imports[i]) {
        problems := problems + [ImportedAs(imports[i].name.value)];
      }
    }
    assert imports[..|imports|] == imports;
  }

  // ---------------------------------------------------------------- the checker

  datatype Problem =
    | ImportedAs(name: string)
    | PackageLevelContainer(name: string)
    | OutsideDescribe(name: string)
    | NotPackageLevel
    | NoTitle
    | TitleNotLiteral
    | TitleUnreadable
    | BadTitle(title: string)
    | NoCapabilityLabel(title: string)

  /** The three sets capabilitySpecProblems fills before it walks the file. */
  datatype Placement = Placement(topLevel: set<nat>, packageLevel: set<nat>, inside: set<nat>)

  function CallProblem(p: Placement, call: Node): Option<Problem>
    requires call.Call?
  {
    if !IsDescribe(call) then
      if IsContainer(call) && call.id !in p.inside && call.id !in p.packageLevel
      then Some(OutsideDescribe(CallName(call)))
      else None
    else if call.id !in p.topLevel then Some(NotPackageLevel)
    else None
  }

  function TopIDs(units: seq<Unit>): set<nat> {
    set u | u in units && IsTopDescribe(u) :: u.node.id
  }

  function ValueIDs(units: seq<Unit>): set<nat> {
    set u | u in units && u.VarValue? && u.node.Call? :: u.node.id
  }

  ghost function PlacementOf(units: seq<Unit>): Placement {
    Placement(
      TopIDs(units),
      ValueIDs(units),
      set u, c | u in units && IsTopDescribe(u) && c in Calls(u.node) && c.id != u.node.id :: c.id)
  }

  predicate MisplacedValue(u: Unit) {
    u.VarValue? && u.node.Call? && !IsDescribe(u.node) && IsContainer(u.node)
  }

  function ValueProblem(u: Unit): seq<Problem> {
    if MisplacedValue(u) then [PackageLevelContainer(CallName(u.node))] else []
  }

  function ValueProblems(units: seq<Unit>): seq<Problem> {
    FlatMap(ValueProblem, units)
  }

  function WalkProblems(p: Placement, calls: seq<Node>): seq<Problem> {
    FlatMap(ReportOn(p), calls)
  }

  function ReportOn(p: Placement): Node -> seq<Problem> {
    (call: Node) => CallReport(p, call)
  }

  /** What the walk reports of a call: its misplacement, or else the title and labels of a Describe. */
  function CallReport(p: Placement, call: Node): seq<Problem> {
    if !call.Call? then []
    else
      match CallProblem(p, call)
      case Some(problem) => [problem]
      case None => if IsDescribe(call) then TitleProblems(call) else []
  }

  /** Everything the checker says of a file. */
  ghost function FileProblems(imports: seq<Import>, units: seq<Unit>): seq<Problem> {
    FlatMap(ImportProblem, imports) + (ValueProblems(units) + WalkProblems(PlacementOf(units), CallsOfFile(units)))
  }

  /** What a capability spec file must be. */
  predicate Acceptable(imports: seq<Import>, units: seq<Unit>) {
    && (forall i :: 0 <= i < |imports| ==> !Renamed(imports[i]))
    && WellPlaced(units)
    && WellLabelled(units)
  }

  predicate WellLabelled(units: seq<Unit>) {
    forall i :: 0 <= i < |units| && IsTopDescribe(units[i]) ==> WellTitled(units[i].node)
  }

  /** capabilitySpecProblems */
  method SpecProblems(imports: seq<Import>, units: seq<Unit>) returns (problems: seq<Problem>, found: nat)
    requires IsTree(units)
    ensures problems == FileProblems(imports, units)
    ensures problems == [] <==> Acceptable(imports, units)
    ensures found == TopDescribes(units)
  {
    var p: Placement;
    var top: seq<Node>;
    var imported := CheckImports(imports);
    problems, p, top := ScanValues(units);
    var inside := CollectInside(top);
    p := p.(inside := inside);
    assert p == PlacementOf(units) by { InsideOfTop(units, top, inside); }
    var more := WalkFile(p, CallsOfFile(units));
    problems := imported + (problems + more);
    FileDecided(imports, units);
    found := |p.topLevel|;
  }

  /** The walk over the file. */
  method WalkFile(p: Placement, calls: seq<Node>) returns (problems: seq<Problem>)
    requires forall c :: c in calls ==> c.Call?
    ensures problems == WalkProblems(p, calls)
  {
    problems := [];
    for i := 0 to |calls|
      invariant problems == WalkProblems(p, calls[..i])
    {
      FlatMapNext(ReportOn(p), calls, i);
      assert calls[i] in calls;
      var problem := CallProblem(p, calls[i]);
      if problem.Some? {
        problems := problems + [problem.value];
      } else if IsDescribe(calls[i]) {
        var more := CheckTitle(calls[i]);
        problems := problems + more;
      }
    }
    assert calls[..|calls|] == calls;
  }

  ghost predicate ListsTop(top: seq<Node>, units: seq<Unit>) {
    forall v :: v in top <==> exists u :: u in units && IsTopDescribe(u) && u.node == v
  }

  /** The loops over package-level values. */
  method ScanValues(units: seq<Unit>) returns (problems: seq<Problem>, p: Placement, top: seq<Node>)
    requires IsTree(units)
    ensures problems == ValueProblems(units)
    ensures ListsTop(top, units)
    ensures p == Placement(TopIDs(units), ValueIDs(units), {}) && |p.topLevel| == TopDescribes(units)
  {
    problems, p, top := [], Placement({}, {}, {}), [];
    for i := 0 to |units|
      invariant Scanned(units[..i], problems, p, top)
    {
      var more, p', top' := ScanValue(units[i], p, top);
      ScanStep(units, i, p, top);
      problems, p, top := problems + more, p', top';
    }
    assert units[..|units|] == units;
  }

  ghost predicate Scanned(units: seq<Unit>, problems: seq<Problem>, p: Placement, top: seq<Node>) {
    && problems == ValueProblems(units)
    && ListsTop(top, units)
    && p == Placement(TopIDs(units), ValueIDs(units), {})
    && |p.topLevel| == TopDescribes(units)
  }

  function AfterValue(p: Placement, u: Unit): Placement {
    p.(topLevel := p.topLevel + if IsTopDescribe(u) then {u.node.id} else {},
       packageLevel := p.packageLevel + if u.VarValue? && u.node.Call? then {u.node.id} else {})
  }

  function TopOf(u: Unit): seq<Node> {
    if IsTopDescribe(u) then [u.node] else []
  }

  /** One package-level value. */
  method ScanValue(u: Unit, p: Placement, top: seq<Node>)
    returns (problems: seq<Problem>, p': Placement, top': seq<Node>)
    ensures problems == ValueProblem(u)
    ensures p' == AfterValue(p, u) && top' == top + TopOf(u)
  {
    problems, p', top' := [], p, top;
    if u.VarValue? && u.node.Call? {
      p' := p'.(packageLevel := p'.packageLevel + {u.node.id});
      if IsDescribe(u.node) {
        p', top' := p'.(topLevel := p'.topLevel + {u.node.id}), top + [u.node];
      } else if IsContainer(u.node) {
        problems := [PackageLevelContainer(CallName(u.node))];
      }
    }
  }

  lemma ScanStep(units: seq<Unit>, i: nat, p: Placement, top: seq<Node>)
    requires IsTree(units) && i < |units| && Scanned(units[..i], ValueProblems(units[..i]), p, top)
    ensures Scanned(units[..i + 1], ValueProblems(units[..i]) + ValueProblem(units[i]), AfterValue(p, units[i]),
                    top + TopOf(units[i]))
  {
    var u, before, next := units[i], units[..i], units[..i + 1];
    assert next == before + [u] && next[..i] == before;
    FlatMapNext(ValueProblem, units, i);
    FlatMapNext(TopOf, units, i);
    ScannedIDs(before, u);
    ScannedTop(before, u, top);
    if IsTopDescribe(u) { NewTopID(units, i); }
  }

  lemma ScannedTop(before: seq<Unit>, u: Unit, top: seq<Node>)
    requires ListsTop(top, before)
    ensures ListsTop(top + TopOf(u), before + [u])
  {
    assert forall v :: v in before + [u] <==> v in before || v == u;
    assert forall v :: v in top + TopOf(u) <==> v in top || (IsTopDescribe(u) && v == u.node);
  }

  lemma ScannedIDs(before: seq<Unit>, u: Unit)
    ensures TopIDs(before + [u]) == TopIDs(before) + (if IsTopDescribe(u) then {u.node.id} else {})
    ensures ValueIDs(before + [u]) == ValueIDs(before) + (if u.VarValue? && u.node.Call? then {u.node.id} else {})
  {
    assert forall v :: v in before + [u] <==> v in before || v == u;
  }

  /** The loop over topLevel, which comes in any order. */
  method CollectInside(top: seq<Node>) returns (inside: set<nat>)
    requires forall v :: v in top ==> v.Call?
    ensures inside == set v, c | v in top && c in Calls(v) && c.id != v.id :: c.id
  {
    inside := {};
    assert top[..|top|] == top;
    for i := 0 to |top|
      invariant inside == set v, c | v in top[..i] && c in Calls(v) && c.id != v.id :: c.id
    {
      assert top[..i + 1] == top[..i] + [top[i]];
      inside := inside + set c | c in Calls(top[i]) && c.id != top[i].id :: c.id;
    }
  }

  lemma InsideOfTop(units: seq<Unit>, top: seq<Node>, inside: set<nat>)
    requires ListsTop(top, units)
    requires inside == set v, c | v in top && c in Calls(v) && v.Call? && c.id != v.id :: c.id
    ensures inside == PlacementOf(units).inside
  {
  }

  // ---------------------------------------------------------------- why the checker is right

  lemma {:induction false} CallsAppend(units: seq<Unit>, more: seq<Unit>)
    ensures CallsOfFile(units + more) == CallsOfFile(units) + CallsOfFile(more)
  {
    if units == [] {
      assert units + more == more;
    } else {
      assert (units + more)[1..] == units[1..] + more;
      CallsAppend(units[1..], more);
    }
  }

  lemma {:induction false} UnitCallsInFile(units: seq<Unit>, i: nat, c: Node)
    requires i < |units| && c in Calls(units[i].node)
    ensures c in CallsOfFile(units)
  {
    if i > 0 { UnitCallsInFile(units[1..], i - 1, c); }
  }

  lemma ApartIDs(some: seq<Node>, others: seq<Node>, c: Node, d: Node)
    requires forall e :: e in some + others ==> e.Call?
    requires DistinctIDs(some + others) && c in some && d in others
    ensures c.id != d.id
  {
    var i :| 0 <= i < |some| && some[i] == c;
    var j :| 0 <= j < |others| && others[j] == d;
    assert (some + others)[i] == c && (some + others)[|some| + j] == d;
  }

  /** Two units have no call in common. */
  lemma UnitsApart(units: seq<Unit>, i: nat, j: nat, c: Node, d: Node)
    requires IsTree(units) && i < j < |units|
    requires c in Calls(units[i].node) && d in Calls(units[j].node)
    ensures c.id != d.id
  {
    var before, after := units[..j], units[j..];
    assert units == before + after;
    CallsAppend(before, after);
    UnitCallsInFile(before, i, c);
    UnitCallsInFile(after, 0, d);
    ApartIDs(CallsOfFile(before), CallsOfFile(after), c, d);
  }

  /** A call does not occur inside itself. */
  lemma NestedApart(units: seq<Unit>, i: nat, c: Node)
    requires IsTree(units) && i < |units| && units[i].node.Call? && c in Nested(units[i].node)
    ensures c.id != units[i].node.id
  {
    var node, before, after := units[i].node, units[..i], units[i..];
    assert units == before + after;
    CallsAppend(before, after);
    var file := CallsOfFile(units);
    var rest := Nested(node) + CallsOfFile(after[1..]);
    assert Calls(node) == [node] + Nested(node);
    assert file == CallsOfFile(before) + [node] + rest;
    ApartIDs(CallsOfFile(before) + [node], rest, node, c);
  }

  lemma NewTopID(units: seq<Unit>, i: nat)
    requires IsTree(units) && i < |units| && units[i].node.Call?
    ensures units[i].node.id !in TopIDs(units[..i])
  {
    if units[i].node.id in TopIDs(units[..i]) {
      var u :| u in units[..i] && IsTopDescribe(u) && u.node.id == units[i].node.id;
      var j :| 0 <= j < i && units[j] == u;
      UnitsApart(units, j, i, u.node, units[i].node);
    }
  }

  /** What the three sets say about a call of the i-th unit. */
  lemma PlacementFacts(units: seq<Unit>, i: nat, c: Node)
    requires IsTree(units) && i < |units| && c in Calls(units[i].node)
    ensures var p, u := PlacementOf(units), units[i];
            && (c.id in p.packageLevel <==> u.VarValue? && u.node == c)
            && (c.id in p.topLevel <==> IsTopDescribe(u) && u.node == c)
            && (c.id in p.inside <==> IsTopDescribe(u) && u.node != c)
  {
    var p, u := PlacementOf(units), units[i];
    forall j: nat, d | j < |units| && d in Calls(units[j].node) && d.id == c.id ensures j == i {
      if j < i { UnitsApart(units, j, i, d, c); }
      if i < j { UnitsApart(units, i, j, c, d); }
    }
    if u.node.Call? && u.node != c {
      NestedApart(units, i, c);
    }
    if c.id in p.packageLevel {
      var v :| v in units && v.VarValue? && v.node.Call? && v.node.id == c.id;
      var j: nat :| j < |units| && units[j] == v;
      assert v.node in Calls(units[j].node);
    }
    if c.id in p.topLevel {
      var v :| v in units && IsTopDescribe(v) && v.node.id == c.id;
      var j: nat :| j < |units| && units[j] == v;
      assert v.node in Calls(units[j].node);
    }
    if c.id in p.inside {
      var v, d :| v in units && IsTopDescribe(v) && d in Calls(v.node) && d.id != v.node.id && d.id == c.id;
      var j: nat :| j < |units| && units[j] == v;
      assert d in Calls(units[j].node);
    }
  }

  lemma UnitDecided(units: seq<Unit>, i: nat)
    requires IsTree(units) && i < |units|
    ensures !MisplacedValue(units[i])
            && (forall c :: c in Calls(units[i].node) ==> CallProblem(PlacementOf(units), c).None?)
            <==> WellPlacedUnit(units[i])
  {
    var p, u := PlacementOf(units), units[i];
    forall c | c in Calls(u.node)
      ensures CallProblem(p, c).None? <==>
              if u.node == c then u.VarValue? || !IsContainer(c)
              else if IsTopDescribe(u) then !IsDescribe(c) else !IsContainer(c)
    {
      PlacementFacts(units, i, c);
      DescribeIsContainer(c);
    }
    if u.node.Call? {
      assert Calls(u.node) == [u.node] + Nested(u.node);
      DescribeIsContainer(u.node);
      forall c | c in Nested(u.node) ensures c != u.node {
        NestedApart(units, i, c);
      }
    }
  }

  lemma DescribeIsContainer(c: Node)
    requires c.Call?
    ensures IsDescribe(c) ==> IsContainer(c)
  {
  }

  /** The problem a call of the i-th unit has, read off the tree: a Describe must be the unit itself, any other
      container must be the unit or be inside a Describe that is. */
  function TreeProblem(u: Unit, c: Node): Option<Problem>
    requires c.Call?
  {
    if u.VarValue? && u.node == c then None
    else if IsDescribe(c) then Some(NotPackageLevel)
    else if IsContainer(c) && !IsTopDescribe(u) then Some(OutsideDescribe(CallName(c)))
    else None
  }

  /** The sets of node identities give each call the problem the tree does. */
  lemma CallProblemIsTreeProblem(units: seq<Unit>, i: nat, c: Node)
    requires IsTree(units) && i < |units| && c in Calls(units[i].node)
    ensures CallProblem(PlacementOf(units), c) == TreeProblem(units[i], c)
  {
    PlacementFacts(units, i, c);
  }

  /** The part of a file a unit is, as the checker decides it. */
  ghost predicate UnitAccepted(units: seq<Unit>, i: nat)
    requires i < |units|
  {
    !MisplacedValue(units[i]) && forall c :: c in Calls(units[i].node) ==> CallReport(PlacementOf(units), c) == []
  }

  lemma {:induction false} UnitReported(units: seq<Unit>, i: nat)
    requires IsTree(units) && i < |units|
    ensures UnitAccepted(units, i) <==>
            WellPlacedUnit(units[i]) && (IsTopDescribe(units[i]) ==> WellTitled(units[i].node))
  {
    var p, u := PlacementOf(units), units[i];
    UnitDecided(units, i);
    forall c | c in Calls(u.node)
      ensures CallReport(p, c) == [] <==> CallProblem(p, c).None? && (IsTopDescribe(u) && u.node == c ==> WellTitled(c))
    {
      PlacementFacts(units, i, c);
      TitleProblemsEmptyIff(c);
    }
    if IsTopDescribe(u) { assert u.node in Calls(u.node); }
  }

  /** For every tree, the walk finds no problem exactly when every container is where it belongs, and every
      package-level Describe has its title and label. */
  lemma {:induction false} WalkDecides(units: seq<Unit>)
    requires IsTree(units)
    ensures ValueProblems(units) + WalkProblems(PlacementOf(units), CallsOfFile(units)) == []
            <==> WellPlaced(units) && WellLabelled(units)
  {
    NoProblemsIff(units);
    UnitsReported(units);
    if forall i: nat :: i < |units| ==> UnitAccepted(units, i) { UnitsAcceptedThenNothing(units); }
    if NothingReported(units) {
      forall i: nat | i < |units| ensures UnitAccepted(units, i) {
        NothingThenUnitAccepted(units, i);
      }
    }
  }

  lemma {:induction false} NoProblemsIff(units: seq<Unit>)
    ensures ValueProblems(units) + WalkProblems(PlacementOf(units), CallsOfFile(units)) == []
            <==> NothingReported(units)
  {
    var p, calls := PlacementOf(units), CallsOfFile(units);
    FlatMapEmptyIff(ValueProblem, units);
    FlatMapEmptyIff(ReportOn(p), calls);
    assert forall k :: 0 <= k < |calls| ==> ReportOn(p)(calls[k]) == CallReport(p, calls[k]);
  }

  lemma {:induction false} UnitsReported(units: seq<Unit>)
    requires IsTree(units)
    ensures (forall i: nat :: i < |units| ==> UnitAccepted(units, i)) <==> WellPlaced(units) && WellLabelled(units)
  {
    forall i: nat | i < |units|
      ensures UnitAccepted(units, i)
              <==> WellPlacedUnit(units[i]) && (IsTopDescribe(units[i]) ==> WellTitled(units[i].node))
    {
      UnitReported(units, i);
    }
    assert WellPlaced(units) <==> forall i: nat :: i < |units| ==> WellPlacedUnit(units[i]);
  }

  ghost predicate NothingReported(units: seq<Unit>) {
    && (forall i :: 0 <= i < |units| ==> ValueProblem(units[i]) == [])
    && forall k :: 0 <= k < |CallsOfFile(units)| ==> CallReport(PlacementOf(units), CallsOfFile(units)[k]) == []
  }

  lemma {:induction false} UnitsAcceptedThenNothing(units: seq<Unit>)
    requires forall i: nat :: i < |units| ==> UnitAccepted(units, i)
    ensures NothingReported(units)
  {
    forall i | 0 <= i < |units| ensures ValueProblem(units[i]) == [] {
      assert UnitAccepted(units, i);
    }
    var calls := CallsOfFile(units);
    forall k | 0 <= k < |calls| ensures CallReport(PlacementOf(units), calls[k]) == [] {
      FileCalls(units, calls[k]);
      var i: nat :| i < |units| && calls[k] in Calls(units[i].node);
      assert UnitAccepted(units, i);
    }
  }

  lemma {:induction false} NothingThenUnitAccepted(units: seq<Unit>, i: nat)
    requires NothingReported(units) && i < |units|
    ensures UnitAccepted(units, i)
  {
    assert ValueProblem(units[i]) == [];
    var calls := CallsOfFile(units);
    forall c | c in Calls(units[i].node) ensures CallReport(PlacementOf(units), c) == [] {
      FileCalls(units, c);
      var k :| 0 <= k < |calls| && calls[k] == c;
    }
  }

  lemma {:induction false} FileDecided(imports: seq<Import>, units: seq<Unit>)
    requires IsTree(units)
    ensures FileProblems(imports, units) == [] <==> Acceptable(imports, units)
  {
    FlatMapEmptyIff(ImportProblem, imports);
    WalkDecides(units);
  }

  lemma {:induction false} FileCalls(units: seq<Unit>, c: Node)
    ensures c in CallsOfFile(units) <==> exists i: nat :: i < |units| && c in Calls(units[i].node)
  {
    if c in CallsOfFile(units) { var i := CallFrom(units, c); }
    forall i: nat | i < |units| && c in Calls(units[i].node) ensures c in CallsOfFile(units) {
      UnitCallsInFile(units, i, c);
    }
  }

  lemma {:induction false} CallFrom(units: seq<Unit>, c: Node) returns (i: nat)
    requires c in CallsOfFile(units)
    ensures i < |units| && c in Calls(units[i].node)
  {
    if c in Calls(units[0].node) {
      i := 0;
    } else {
      var j := CallFrom(units[1..], c);
      assert units[1..][j] == units[j + 1];
      i := j + 1;
    }
  }
}
