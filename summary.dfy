/**
 * Package summaries (src/cargo/core/summary.rs): a package identity with
 * its dependency list and feature map, validated once when it is built.
 */
module Summaries {
  import opened Wrappers
  import opened External

  /** A validated package node: identity, dependencies in order, features. */
  datatype Summary = Summary(
    packageId: PackageId,
    dependencies: seq<Dependency>,
    features: map<string, seq<string>>)
  {
    function Name(): string { packageId.name }

    function Version(): External.Version { packageId.version }

    function SourceId(): External.SourceId { packageId.sourceId }
  }

  /** The four ways `Summary::new` rejects its input. */
  datatype SummaryError =
    | NameCollision(dependency: string)
    | OptionalDevDependency(dependency: string)
    | FeatureRequiresNonOptionalDependency(feature: string, dependency: string)
    | UnknownFeatureTarget(feature: string, entry: string)

  // ---------------------------------------------------------------------
  // First pass: the dependencies, in list order

  /** What the first pass says of one dependency: its name may not be a feature, and an optional dependency may not be dev-only. */
  function DependencyCheck(dep: Dependency, features: map<string, seq<string>>): (r: Option<SummaryError>)
    ensures r.None? <==> dep.name !in features && (dep.optional ==> dep.transitive)
    ensures dep.name in features ==> r == Some(NameCollision(dep.name))
    ensures r.Some? ==> (r.value.NameCollision? || r.value.OptionalDevDependency?) && r.value.dependency == dep.name
  {
    if dep.name in features then Some(NameCollision(dep.name))
    else if dep.optional && !dep.transitive then Some(OptionalDevDependency(dep.name))
    else None
  }

  /** The error of the first pass: that of the first dependency that fails. */
  function DependencyError(deps: seq<Dependency>, features: map<string, seq<string>>): (r: Option<SummaryError>)
    ensures r.None? <==> forall i :: 0 <= i < |deps| ==> DependencyCheck(deps[i], features).None?
    ensures r.Some? ==> exists i ::
      && 0 <= i < |deps| && DependencyCheck(deps[i], features) == r
      && forall j :: 0 <= j < i ==> DependencyCheck(deps[j], features).None?
  {
    if deps == [] then None
    else if DependencyCheck(deps[0], features).Some? then DependencyCheck(deps[0], features)
    else
      var r := DependencyError(deps[1..], features);
      if r.Some? then
        var i :| 0 <= i < |deps[1..]| && DependencyCheck(deps[1..][i], features) == r
          && forall j :: 0 <= j < i ==> DependencyCheck(deps[1..][j], features).None?;
        assert DependencyCheck(deps[i + 1], features) == r;
        r
      else
        r
  }

  // ---------------------------------------------------------------------
  // Second pass: the entries of every feature

  /** `dependencies.iter().find(..)`: the first dependency with the given name. */
  function FindDependency(deps: seq<Dependency>, name: string): (r: Option<Dependency>)
    ensures r.None? <==> forall i :: 0 <= i < |deps| ==> deps[i].name != name
    ensures r.Some? ==> exists i ::
      && 0 <= i < |deps| && deps[i] == r.value && deps[i].name == name
      && forall j :: 0 <= j < i ==> deps[j].name != name
  {
    if deps == [] then None
    else if deps[0].name == name then Some(deps[0])
    else
      var r := FindDependency(deps[1..], name);
      if r.Some? then
        var i :| 0 <= i < |deps[1..]| && deps[1..][i] == r.value && deps[1..][i].name == name
          && forall j :: 0 <= j < i ==> deps[1..][j].name != name;
        assert deps[i + 1] == r.value;
        r
      else
        r
  }

  /**
   * What the second pass says of one entry of a feature: another feature is
   * accepted as it is; otherwise the first dependency of that name must
   * exist and be optional.
   */
  function EntryCheck(feature: string, entry: string, deps: seq<Dependency>, features: map<string, seq<string>>): (r: Option<SummaryError>)
    ensures r.None? <==> entry in features || exists i :: FirstNamed(deps, entry, i) && deps[i].optional
    ensures r == Some(UnknownFeatureTarget(feature, entry)) <==>
      entry !in features && forall i :: 0 <= i < |deps| ==> deps[i].name != entry
    ensures r == Some(FeatureRequiresNonOptionalDependency(feature, entry)) <==>
      entry !in features && exists i :: FirstNamed(deps, entry, i) && !deps[i].optional
    ensures r.None? || r == Some(UnknownFeatureTarget(feature, entry))
      || r == Some(FeatureRequiresNonOptionalDependency(feature, entry))
  {
    if entry in features then None
    else match FindDependency(deps, entry)
      case Some(d) =>
        FirstMatchIsFound(deps, entry);
        if d.optional then None else Some(FeatureRequiresNonOptionalDependency(feature, entry))
      case None => Some(UnknownFeatureTarget(feature, entry))
  }

  /** The dependency `FindDependency` returns is the first one with the name, and only that one is. */
  lemma FirstMatchIsFound(deps: seq<Dependency>, name: string)
    requires FindDependency(deps, name).Some?
    ensures exists i :: FirstNamed(deps, name, i) && deps[i] == FindDependency(deps, name).value
    ensures forall i :: FirstNamed(deps, name, i) ==> deps[i] == FindDependency(deps, name).value
  {
    var i :| 0 <= i < |deps| && deps[i] == FindDependency(deps, name).value && deps[i].name == name
      && forall j :: 0 <= j < i ==> deps[j].name != name;
    assert FirstNamed(deps, name, i);
    forall i' | FirstNamed(deps, name, i') ensures i' == i {
    }
  }

  /** Every entry of every feature passes the second pass. */
  predicate FeaturesValid(deps: seq<Dependency>, features: map<string, seq<string>>)
  {
    forall f, k :: f in features && 0 <= k < |features[f]| ==> EntryCheck(f, features[f][k], deps, features).None?
  }

  // ---------------------------------------------------------------------
  // The invariants of a summary, stated directly

  /**
   * The invariants a summary is built to hold: no feature is named like a
   * dependency, every optional dependency is transitive, and every feature
   * entry is a feature or names a dependency whose first occurrence is
   * optional.
   */
  ghost predicate SummaryInvariant(deps: seq<Dependency>, features: map<string, seq<string>>)
  {
    && (forall i :: 0 <= i < |deps| ==> deps[i].name !in features)
    && (forall i :: 0 <= i < |deps| ==> deps[i].optional ==> deps[i].transitive)
    && (forall f, k :: f in features && 0 <= k < |features[f]| ==>
          var entry := features[f][k];
          entry in features || exists i :: FirstNamed(deps, entry, i) && deps[i].optional)
  }

  /** `deps[i]` is the first dependency named `name`. */
  ghost predicate FirstNamed(deps: seq<Dependency>, name: string, i: int)
  {
    0 <= i < |deps| && deps[i].name == name && forall j :: 0 <= j < i ==> deps[j].name != name
  }

  /** The two passes accept exactly the inputs that meet the summary invariants. */
  lemma ChecksMeetInvariant(deps: seq<Dependency>, features: map<string, seq<string>>)
    ensures DependencyError(deps, features).None? && FeaturesValid(deps, features) <==> SummaryInvariant(deps, features)
  {
    forall entry: string, i | FirstNamed(deps, entry, i)
      ensures FindDependency(deps, entry) == Some(deps[i])
    {
      var r := FindDependency(deps, entry);
      var i' :| 0 <= i' < |deps| && deps[i'] == r.value && deps[i'].name == entry
        && forall j :: 0 <= j < i' ==> deps[j].name != entry;
      assert i' == i;
    }
    forall f, k | f in features && 0 <= k < |features[f]| && features[f][k] !in features
      ensures EntryCheck(f, features[f][k], deps, features).None? <==>
        exists i :: FirstNamed(deps, features[f][k], i) && deps[i].optional
    {
      var entry := features[f][k];
      var r := FindDependency(deps, entry);
      if r.Some? {
        var i :| 0 <= i < |deps| && deps[i] == r.value && deps[i].name == entry
          && forall j :: 0 <= j < i ==> deps[j].name != entry;
        assert FirstNamed(deps, entry, i);
      }
    }
  }

  // ---------------------------------------------------------------------
  // Building a summary

  /**
   * `Summary::new`: the dependency pass in list order, then the feature
   * pass over the feature map in no particular order; the first failure is
   * returned, and on success the inputs are stored unchanged.
   */
  method NewSummary(pkgId: PackageId, deps: seq<Dependency>, features: map<string, seq<string>>)
    returns (r: Result<Summary, SummaryError>)
    ensures r.Ok? <==> SummaryInvariant(deps, features)
    ensures r.Ok? ==> r.value == Summary(pkgId, deps, features)
    ensures DependencyError(deps, features).Some? ==> r == Err(DependencyError(deps, features).value)
    ensures r.Err? && DependencyError(deps, features).None? ==>
      exists f, k :: f in features && 0 <= k < |features[f]| && EntryCheck(f, features[f][k], deps, features) == Some(r.error)
  {
    ChecksMeetInvariant(deps, features);
    for i := 0 to |deps|
      invariant DependencyError(deps, features) == DependencyError(deps[i..], features)
    {
      var dep := deps[i];
      if dep.name in features {
        return Err(NameCollision(dep.name));
      }
      if dep.optional && !dep.transitive {
        return Err(OptionalDevDependency(dep.name));
      }
      assert deps[i..][1..] == deps[i + 1..];
    }
    assert deps[|deps|..] == [];
    var remaining := features.Keys;
    while remaining != {}
      invariant remaining <= features.Keys
      invariant forall f, k :: f in features && f !in remaining && 0 <= k < |features[f]| ==>
        EntryCheck(f, features[f][k], deps, features).None?
      decreases remaining
    {
      var feature :| feature in remaining;
      var list := features[feature];
      for k := 0 to |list|
        invariant forall j :: 0 <= j < k ==> EntryCheck(feature, list[j], deps, features).None?
      {
        var entry := list[k];
        if entry in features {
          continue;
        }
        var d := FindDependency(deps, entry);
        match d {
          case Some(dep) =>
            if dep.optional {
              continue;
            }
            return Err(FeatureRequiresNonOptionalDependency(feature, entry));
          case None =>
            return Err(UnknownFeatureTarget(feature, entry));
        }
      }
      remaining := remaining - {feature};
    }
    return Ok(Summary(pkgId, deps, features));
  }

  // ---------------------------------------------------------------------
  // Concrete cases

  /** A feature named like a dependency is refused in the first pass. */
  lemma NameCollisionCase()
    ensures DependencyError([Dependency("a", false, true)], map["a" := []]) == Some(NameCollision("a"))
    ensures !SummaryInvariant([Dependency("a", false, true)], map["a" := []])
  {
    var features: map<string, seq<string>> := map["a" := []];
    assert "a" in features;
  }

  /** An optional dependency that is dev-only is refused, before any feature entry is looked at. */
  lemma OptionalDevDependencyCase()
    ensures DependencyError([Dependency("a", true, false)], map["f" := ["x"]]) == Some(OptionalDevDependency("a"))
  {
  }

  /** A feature entry whose first dependency of that name is not optional is refused, even when a later one is. */
  lemma NonOptionalFirstMatchCase()
    ensures DependencyError([Dependency("a", false, true), Dependency("a", true, true)], map["f" := ["a"]]).None?
    ensures EntryCheck("f", "a", [Dependency("a", false, true), Dependency("a", true, true)], map["f" := ["a"]])
      == Some(FeatureRequiresNonOptionalDependency("f", "a"))
    ensures !SummaryInvariant([Dependency("a", false, true), Dependency("a", true, true)], map["f" := ["a"]])
  {
    var deps := [Dependency("a", false, true), Dependency("a", true, true)];
    var features := map["f" := ["a"]];
    ChecksMeetInvariant(deps, features);
    assert features["f"][0] == "a";
  }

  /** A feature entry that is neither a feature nor a dependency is refused. */
  lemma UnknownTargetCase()
    ensures EntryCheck("f", "x", [], map["f" := ["x"]]) == Some(UnknownFeatureTarget("f", "x"))
    ensures !SummaryInvariant([], map["f" := ["x"]])
  {
    var features := map["f" := ["x"]];
    assert features["f"][0] == "x";
  }

  /**
   * Entries naming an optional dependency or another feature are accepted,
   * and so are features that name themselves or each other: no cycle check.
   */
  lemma AcceptedCase()
    ensures SummaryInvariant([Dependency("a", true, true)], map["f" := ["a", "g"], "g" := ["f"], "h" := ["h"]])
  {
    var deps := [Dependency("a", true, true)];
    var features := map["f" := ["a", "g"], "g" := ["f"], "h" := ["h"]];
    assert FirstNamed(deps, "a", 0);
  }

  /** `SummaryVec::names`: the name of every summary, in order. */
  function Names(summaries: seq<Summary>): (names: seq<string>)
    ensures |names| == |summaries|
    ensures forall i :: 0 <= i < |summaries| ==> names[i] == summaries[i].packageId.name
  {
    if summaries == [] then [] else [summaries[0].Name()] + Names(summaries[1..])
  }
}
