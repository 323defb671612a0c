/** The adapter-status matchers: map-indexed verdicts and what they mean. */
module Matchers {
  import opened Sequences

  datatype Condition = Condition(kind: string, status: string)

  datatype AdapterStatus = AdapterStatus(adapter: string, observedGeneration: int, conditions: seq<Condition>)

  /** What a matcher is handed. */
  datatype Actual = OtherType | NilList | StatusList(items: seq<AdapterStatus>)

  datatype MatchError = WrongType | NilArgument

  const REQUIRED_CONDITIONS := ["Applied", "Available", "Health"]

  /** hasAdapterCond */
  method FindCondition(conditions: seq<Condition>, kind: string, status: string) returns (found: bool)
    ensures found == HasCondition(conditions, kind, status)
  {
    for i := 0 to |conditions|
      invariant Condition(kind, status) !in conditions[..i]
    {
      assert conditions[..i + 1] == conditions[..i] + [conditions[i]];
      if conditions[i].kind == kind && conditions[i].status == status {
        return true;
      }
    }
    assert conditions[..|conditions|] == conditions;
    found := false;
  }

  predicate HasCondition(conditions: seq<Condition>, kind: string, status: string) {
    Condition(kind, status) in conditions
  }

  /** The last status an adapter reported in the list. */
  function LastStatus(items: seq<AdapterStatus>, name: string): (last: Option<AdapterStatus>)
    ensures last.Some? ==> last.value in items && last.value.adapter == name
    ensures last.None? <==> forall s :: s in items ==> s.adapter != name
  {
    if items == [] then None
    else if items[|items| - 1].adapter == name then Some(items[|items| - 1])
    else LastStatus(items[..|items| - 1], name)
  }

  ghost predicate IndexesLast(index: map<string, AdapterStatus>, items: seq<AdapterStatus>) {
    forall name :: LastStatus(items, name) == if name in index then Some(index[name]) else None
  }

  /** The loop that both matchers begin with. */
  method IndexByAdapter(items: seq<AdapterStatus>) returns (index: map<string, AdapterStatus>)
    ensures IndexesLast(index, items)
  {
    index := map[];
    for i := 0 to |items|
      invariant IndexesLast(index, items[..i])
    {
      assert items[..i + 1][..i] == items[..i];
      index := index[items[i].adapter := items[i]];
    }
    assert items[..|items|] == items;
  }

  /** The i-th status is this adapter's, and no later one is. */
  predicate LatestAt(items: seq<AdapterStatus>, i: int, name: string) {
    0 <= i < |items| && items[i].adapter == name && forall j :: i < j < |items| ==> items[j].adapter != name
  }

  lemma {:induction false} LastStatusIs(items: seq<AdapterStatus>, name: string, i: int)
    requires LatestAt(items, i, name)
    ensures LastStatus(items, name) == Some(items[i])
  {
    if i < |items| - 1 {
      assert items[|items| - 1].adapter != name;
      LastStatusIs(items[..|items| - 1], name, i);
    }
  }

  lemma {:induction false} LatestIn(items: seq<AdapterStatus>, name: string) returns (i: int)
    requires LastStatus(items, name).Some?
    ensures LatestAt(items, i, name) && LastStatus(items, name) == Some(items[i])
  {
    var n := |items| - 1;
    if items[n].adapter == name {
      i := n;
    } else {
      i := LatestIn(items[..n], name);
      assert forall j :: i < j < n ==> items[..n][j] == items[j];
    }
  }

  // ---------------------------------------------------------------- HaveAllAdaptersAtGeneration

  datatype Failure =
    | NotFound(name: string)
    | WrongGeneration(name: string, generation: int)
    | NotTrue(name: string, kind: string)

  function ConditionFailures(s: AdapterStatus, kinds: seq<string>): seq<Failure> {
    if kinds == [] then []
    else ConditionFailures(s, kinds[..|kinds| - 1])
         + if HasCondition(s.conditions, kinds[|kinds| - 1], "True") then []
           else [NotTrue(s.adapter, kinds[|kinds| - 1])]
  }

  function AdapterFailures(items: seq<AdapterStatus>, name: string, generation: int): seq<Failure> {
    match LastStatus(items, name)
    case None => [NotFound(name)]
    case Some(s) =>
      if s.observedGeneration != generation then [WrongGeneration(name, s.observedGeneration)]
      else ConditionFailures(s, REQUIRED_CONDITIONS)
  }

  function GenerationFailures(items: seq<AdapterStatus>, names: seq<string>, generation: int): seq<Failure> {
    if names == [] then []
    else
      GenerationFailures(items, names[..|names| - 1], generation)
      + AdapterFailures(items, names[|names| - 1], generation)
  }

  class GenerationMatcher {
    const adapters: seq<string>
    const generation: int
    var failures: seq<Failure>

    constructor (adapters: seq<string>, generation: int)
      ensures this.adapters == adapters && this.generation == generation && failures == []
    {
      this.adapters, this.generation, failures := adapters, generation, [];
    }

    /** Match. What earlier calls left in "failures" plays no part. */
    method Match(actual: Actual) returns (result: Result<bool, MatchError>)
      modifies this
      ensures match actual
              case OtherType => result == Err(WrongType) && failures == old(failures)
              case NilList => result == Err(NilArgument) && failures == old(failures)
              case StatusList(items) =>
                && failures == GenerationFailures(items, adapters, generation)
                && (result == Ok(failures == []))
      ensures actual.StatusList? ==>
                (result == Ok(true) <==> forall name :: name in adapters ==> Reports(actual.items, name, generation))
    {
      if actual.OtherType? {
        return Err(WrongType);
      }
      if actual.NilList? {
        return Err(NilArgument);
      }
      failures := [];
      var index := IndexByAdapter(actual.items);
      for i := 0 to |adapters|
        invariant failures == GenerationFailures(actual.items, adapters[..i], generation)
      {
        var name := adapters[i];
        assert adapters[..i + 1][..i] == adapters[..i];
        assert LastStatus(actual.items, name) == if name in index then Some(index[name]) else None;
        if name !in index {
          failures := failures + [NotFound(name)];
          continue;
        }
        var adapter := index[name];
        if adapter.observedGeneration != generation {
          failures := failures + [WrongGeneration(name, adapter.observedGeneration)];
          continue;
        }
        AppendConditionFailures(adapter);
      }
      assert adapters[..|adapters|] == adapters;
      result := Ok(|failures| == 0);
      NoFailuresIff(actual.items, adapters, generation);
    }

    /** The inner loop over the three conditions. */
    method AppendConditionFailures(adapter: AdapterStatus)
      modifies this
      ensures failures == old(failures) + ConditionFailures(adapter, REQUIRED_CONDITIONS)
    {
      var kinds := REQUIRED_CONDITIONS;
      assert failures == failures + ConditionFailures(adapter, kinds[..0]);
      for i := 0 to |kinds|
        invariant failures == old(failures) + ConditionFailures(adapter, kinds[..i])
      {
        assert kinds[..i + 1][..i] == kinds[..i];
        var holds := FindCondition(adapter.conditions, kinds[i], "True");
        if !holds {
          failures := failures + [NotTrue(adapter.adapter, kinds[i])];
        }
      }
      assert kinds[..|kinds|] == kinds;
    }
  }

  /** The plain reading: the last status of each required adapter has the generation and the three conditions. */
  predicate AtGeneration(items: seq<AdapterStatus>, names: seq<string>, generation: int) {
    forall name :: name in names ==>
      match LastStatus(items, name)
      case None => false
      case Some(s) =>
        && s.observedGeneration == generation
        && forall kind :: kind in REQUIRED_CONDITIONS ==> HasCondition(s.conditions, kind, "True")
  }

  lemma {:induction false} ConditionFailuresEmptyIff(s: AdapterStatus, kinds: seq<string>)
    ensures ConditionFailures(s, kinds) == []
            <==> forall kind :: kind in kinds ==> HasCondition(s.conditions, kind, "True")
  {
    if kinds != [] {
      ConditionFailuresEmptyIff(s, kinds[..|kinds| - 1]);
      assert kinds == kinds[..|kinds| - 1] + [kinds[|kinds| - 1]];
    }
  }

  /** The adapter's last status has the generation and is applied, available and healthy. */
  ghost predicate Reports(items: seq<AdapterStatus>, name: string, generation: int) {
    exists i :: LatestAt(items, i, name)
                && items[i].observedGeneration == generation
                && Condition("Applied", "True") in items[i].conditions
                && Condition("Available", "True") in items[i].conditions
                && Condition("Health", "True") in items[i].conditions
  }

  lemma {:induction false} NoFailuresIff(items: seq<AdapterStatus>, names: seq<string>, generation: int)
    ensures GenerationFailures(items, names, generation) == [] <==>
            forall name :: name in names ==> Reports(items, name, generation)
  {
    if names != [] {
      var before, name := names[..|names| - 1], names[|names| - 1];
      NoFailuresIff(items, before, generation);
      OneReports(items, name, generation);
      assert forall n :: n in names <==> n in before || n == name by { assert names == before + [name]; }
    }
  }

  lemma OneReports(items: seq<AdapterStatus>, name: string, generation: int)
    ensures AdapterFailures(items, name, generation) == [] <==> Reports(items, name, generation)
  {
    if LastStatus(items, name).Some? {
      var i := LatestIn(items, name);
      ThreeConditions(items[i]);
    }
    forall i | LatestAt(items, i, name) ensures LastStatus(items, name) == Some(items[i]) {
      LastStatusIs(items, name, i);
    }
  }

  function Lacking(s: AdapterStatus, kind: string): seq<Failure> {
    if Condition(kind, "True") in s.conditions then [] else [NotTrue(s.adapter, kind)]
  }

  /** What the matcher says of one adapter. */
  lemma {:induction false} FailuresOfOne(items: seq<AdapterStatus>, name: string, generation: int)
    ensures (forall i :: 0 <= i < |items| ==> items[i].adapter != name) ==>
              GenerationFailures(items, [name], generation) == [NotFound(name)]
    ensures forall i :: LatestAt(items, i, name) ==>
              GenerationFailures(items, [name], generation) ==
              if items[i].observedGeneration != generation
              then [WrongGeneration(name, items[i].observedGeneration)]
              else Lacking(items[i], "Applied") + Lacking(items[i], "Available") + Lacking(items[i], "Health")
  {
    assert [name][..0] == [] && GenerationFailures(items, [], generation) == [];
    assert GenerationFailures(items, [name], generation) == AdapterFailures(items, name, generation);
    forall i | LatestAt(items, i, name) ensures LastStatus(items, name) == Some(items[i]) {
      LastStatusIs(items, name, i);
    }
    if LastStatus(items, name).Some? { ThreeConditions(LastStatus(items, name).value); }
  }

  lemma {:induction false} ThreeConditions(s: AdapterStatus)
    ensures ConditionFailures(s, REQUIRED_CONDITIONS)
         == Lacking(s, "Applied") + Lacking(s, "Available") + Lacking(s, "Health")
  {
    assert REQUIRED_CONDITIONS[..2] == ["Applied", "Available"];
    assert ["Applied", "Available"][..1] == ["Applied"];
    assert ["Applied"][..0] == [];
    assert ConditionFailures(s, ["Applied"]) == Lacking(s, "Applied");
    assert ConditionFailures(s, ["Applied", "Available"]) == Lacking(s, "Applied") + Lacking(s, "Available");
  }

  /** And of more adapters: what it says of each, in order. */
  lemma {:induction false} FailuresInOrder(items: seq<AdapterStatus>, names: seq<string>, more: seq<string>,
                                           generation: int)
    ensures GenerationFailures(items, names + more, generation)
         == GenerationFailures(items, names, generation) + GenerationFailures(items, more, generation)
  {
    if more == [] {
      assert names + more == names;
    } else {
      var n := |more| - 1;
      var all := names + more;
      assert all[..|all| - 1] == names + more[..n] && all[|all| - 1] == more[n];
      FailuresInOrder(items, names, more[..n], generation);
      FailuresNext(items, all, generation);
      FailuresNext(items, more, generation);
      Regroup(GenerationFailures(items, names, generation), GenerationFailures(items, more[..n], generation),
              AdapterFailures(items, more[n], generation));
    }
  }

  lemma {:induction false} FailuresNext(items: seq<AdapterStatus>, names: seq<string>, generation: int)
    requires names != []
    ensures GenerationFailures(items, names, generation)
         == GenerationFailures(items, names[..|names| - 1], generation)
            + AdapterFailures(items, names[|names| - 1], generation)
  {
  }

  /** The matcher accepts a list exactly when the plain reading does. */
  lemma {:induction false} MatchesIffAtGeneration(items: seq<AdapterStatus>, names: seq<string>, generation: int)
    ensures GenerationFailures(items, names, generation) == [] <==> AtGeneration(items, names, generation)
  {
    if names != [] {
      var before, name := names[..|names| - 1], names[|names| - 1];
      assert names == before + [name];
      MatchesIffAtGeneration(items, before, generation);
      var last := LastStatus(items, name);
      if last.Some? { ConditionFailuresEmptyIff(last.value, REQUIRED_CONDITIONS); }
    }
  }

  /** A list cannot be at two generations, unless nothing is required of it. */
  lemma OneGeneration(items: seq<AdapterStatus>, names: seq<string>, g: int, h: int)
    requires GenerationFailures(items, names, g) == [] && GenerationFailures(items, names, h) == []
    ensures g == h || names == []
  {
    MatchesIffAtGeneration(items, names, g);
    MatchesIffAtGeneration(items, names, h);
    if names != [] { assert names[0] in names; }
  }

  // ---------------------------------------------------------------- HaveAllAdaptersWithCondition

  datatype Gap = Unreported(name: string) | Unmet(name: string)

  function Gaps(items: seq<AdapterStatus>, names: seq<string>, kind: string, status: string): seq<Gap> {
    if names == [] then []
    else
      var name := names[|names| - 1];
      Gaps(items, names[..|names| - 1], kind, status)
      + match LastStatus(items, name)
        case None => [Unreported(name)]
        case Some(s) => if HasCondition(s.conditions, kind, status) then [] else [Unmet(name)]
  }

  class ConditionMatcher {
    const adapters: seq<string>
    const kind: string
    const status: string
    var missing: seq<Gap>

    constructor (adapters: seq<string>, kind: string, status: string)
      ensures this.adapters == adapters && this.kind == kind && this.status == status && missing == []
    {
      this.adapters, this.kind, this.status, missing := adapters, kind, status, [];
    }

    method Match(actual: Actual) returns (result: Result<bool, MatchError>)
      modifies this
      ensures match actual
              case OtherType => result == Err(WrongType) && missing == old(missing)
              case NilList => result == Err(NilArgument) && missing == old(missing)
              case StatusList(items) =>
                && missing == Gaps(items, adapters, kind, status)
                && (result == Ok(missing == []))
      ensures actual.StatusList? ==>
                (result == Ok(true) <==>
                 forall name :: name in adapters ==> ReportsCondition(actual.items, name, kind, status))
    {
      if actual.OtherType? {
        return Err(WrongType);
      }
      if actual.NilList? {
        return Err(NilArgument);
      }
      missing := [];
      var index := IndexByAdapter(actual.items);
      for i := 0 to |adapters|
        invariant missing == Gaps(actual.items, adapters[..i], kind, status)
      {
        var name := adapters[i];
        assert adapters[..i + 1][..i] == adapters[..i];
        assert LastStatus(actual.items, name) == if name in index then Some(index[name]) else None;
        if name !in index {
          missing := missing + [Unreported(name)];
          continue;
        }
        var holds := FindCondition(index[name].conditions, kind, status);
        if !holds {
          missing := missing + [Unmet(name)];
        }
      }
      assert adapters[..|adapters|] == adapters;
      result := Ok(|missing| == 0);
      NoGapsIff(actual.items, adapters, kind, status);
    }
  }

  /** The adapter's last status has the condition. */
  ghost predicate ReportsCondition(items: seq<AdapterStatus>, name: string, kind: string, status: string) {
    exists i :: LatestAt(items, i, name) && Condition(kind, status) in items[i].conditions
  }

  lemma NoGapsIff(items: seq<AdapterStatus>, names: seq<string>, kind: string, status: string)
    ensures Gaps(items, names, kind, status) == [] <==>
            forall name :: name in names ==> ReportsCondition(items, name, kind, status)
  {
    GapsEmptyIff(items, names, kind, status);
    forall name | name in names
      ensures ReportsCondition(items, name, kind, status) <==>
              LastStatus(items, name).Some? && HasCondition(LastStatus(items, name).value.conditions, kind, status)
    {
      forall i | LatestAt(items, i, name) ensures LastStatus(items, name) == Some(items[i]) {
        LastStatusIs(items, name, i);
      }
      if LastStatus(items, name).Some? {
        var i := LatestIn(items, name);
      }
    }
  }

  /** What the condition matcher says of one adapter. */
  lemma {:induction false} GapsOfOne(items: seq<AdapterStatus>, name: string, kind: string, status: string)
    ensures (forall i :: 0 <= i < |items| ==> items[i].adapter != name) ==>
              Gaps(items, [name], kind, status) == [Unreported(name)]
    ensures forall i :: LatestAt(items, i, name) ==>
              Gaps(items, [name], kind, status) ==
              if Condition(kind, status) in items[i].conditions then [] else [Unmet(name)]
  {
    assert [name][..0] == [] && Gaps(items, [], kind, status) == [];
    forall i | LatestAt(items, i, name) ensures LastStatus(items, name) == Some(items[i]) {
      LastStatusIs(items, name, i);
    }
  }

  /** And of more adapters: what it says of each, in order. */
  lemma {:induction false} GapsInOrder(items: seq<AdapterStatus>, names: seq<string>, more: seq<string>,
                                       kind: string, status: string)
    ensures Gaps(items, names + more, kind, status)
            == Gaps(items, names, kind, status) + Gaps(items, more, kind, status)
  {
    if more == [] {
      assert names + more == names;
    } else {
      var n := |more| - 1;
      assert (names + more)[..|names + more| - 1] == names + more[..n];
      GapsInOrder(items, names, more[..n], kind, status);
    }
  }

  /** The condition matcher accepts exactly when the last status of each required adapter has the condition. */
  lemma {:induction false} GapsEmptyIff(items: seq<AdapterStatus>, names: seq<string>, kind: string, status: string)
    ensures Gaps(items, names, kind, status) == [] <==>
            forall name :: name in names ==>
              LastStatus(items, name).Some? && HasCondition(LastStatus(items, name).value.conditions, kind, status)
  {
    if names != [] {
      var before, name := names[..|names| - 1], names[|names| - 1];
      GapsEmptyIff(items, before, kind, status);
      assert names == before + [name];
      assert forall n :: n in names <==> n in before || n == name;
      assert Gaps(items, names, kind, status) == [] <==>
          && Gaps(items, before, kind, status) == []
          && LastStatus(items, name).Some? && HasCondition(LastStatus(items, name).value.conditions, kind, status);
    }
  }

  /** Being at a generation means having each of the three conditions, as the condition matcher sees it. */
  lemma GenerationImpliesConditions(items: seq<AdapterStatus>, names: seq<string>, generation: int, kind: string)
    requires GenerationFailures(items, names, generation) == [] && kind in REQUIRED_CONDITIONS
    ensures Gaps(items, names, kind, "True") == []
  {
    MatchesIffAtGeneration(items, names, generation);
    GapsEmptyIff(items, names, kind, "True");
  }
}
