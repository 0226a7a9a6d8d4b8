/** Resolving a catalog mod and its dependencies into an install plan. */
module Resolver {
  import opened Prelude
  import opened Text
  import opened Requirements

  datatype Release = Release(id: string, version: string, url: string, gameVersions: seq<string>)

  datatype Details = Details(id: string, slug: string, releases: seq<Release>)

  datatype Dependency = Dependency(id: string, requirement: string)

  /** The outside world. fetch is the download of a release and the reading of its archive:
      the dependencies it lists, in key order. pick is the position of the release that the
      ranking puts first. installed maps each target instance to the versions it has of
      each mod. */
  datatype Env = Env(
    catalog: map<string, Details>,
    fetch: (string, string) -> Option<seq<Dependency>>,
    rank: Ranking,
    pick: (seq<Release>, string) -> nat,
    supports: (seq<string>, string) -> bool,
    gameVersions: seq<string>,
    allowIncompatible: bool,
    installed: map<string, map<string, seq<string>>>)

  datatype Item = Item(modId: string, release: Release, root: bool, requirements: seq<string>)

  datatype Error = NoId | Circular | Unfetchable | UnknownDependency | NoRelease

  /** replaced remembers which shared dependencies gave way to another release. */
  datatype State = State(resolved: map<string, Release>, plan: seq<Item>, replaced: set<string>)

  datatype Result = Resolved(state: State) | Failed(error: Error)

  function Canonical(d: Details): string {
    var id := Trim(d.id);
    Lower(if id == "" then Trim(d.slug) else id)
  }

  /** What can name a directory of downloads; blank identifiers cannot. */
  predicate SafeSegment(s: string) {
    var name := Trim(s);
    name != "" && name != "." && name != ".." && '/' !in name && '\\' !in name
  }

  predicate BuiltIn(modId: string) {
    var id := Lower(Trim(modId));
    id == "game" || id == "survival" || id == "creative"
  }

  function Wanted(dependencies: seq<Dependency>): seq<Dependency> {
    if dependencies == [] then []
    else if BuiltIn(dependencies[0].id) then Wanted(dependencies[1..])
    else [dependencies[0]] + Wanted(dependencies[1..])
  }

  /** Exactly the dependencies on the game itself are skipped, under any of its three names. */
  lemma {:induction false} WantedIff(dependencies: seq<Dependency>)
    ensures forall d :: d in Wanted(dependencies) <==>
              d in dependencies && Lower(Trim(d.id)) != "game" && Lower(Trim(d.id)) != "survival" && Lower(Trim(d.id)) != "creative"
  {
    hide Trim, Lower;
    if dependencies != [] {
      WantedIff(dependencies[1..]);
      assert dependencies == [dependencies[0]] + dependencies[1..];
    }
  }

  // ---- Choosing a release

  predicate Candidate(env: Env, r: Release, requirement: string, anyGame: bool) {
    && "https://" <= r.url
    && Satisfies(env.rank, r.version, requirement)
    && (!anyGame ==> forall i :: 0 <= i < |env.gameVersions| ==> env.supports(r.gameVersions, env.gameVersions[i]))
  }

  function Candidates(env: Env, releases: seq<Release>, requirement: string, anyGame: bool): seq<Release> {
    if releases == [] then []
    else if Candidate(env, releases[0], requirement, anyGame) then
      [releases[0]] + Candidates(env, releases[1..], requirement, anyGame)
    else Candidates(env, releases[1..], requirement, anyGame)
  }

  lemma {:induction false} CandidatesQualify(env: Env, releases: seq<Release>, requirement: string, anyGame: bool)
    ensures forall r :: r in Candidates(env, releases, requirement, anyGame) <==> r in releases && Candidate(env, r, requirement, anyGame)
  {
    hide Candidate;
    if releases != [] {
      CandidatesQualify(env, releases[1..], requirement, anyGame);
      assert releases == [releases[0]] + releases[1..];
    }
  }

  function Best(env: Env, releases: seq<Release>, requirement: string, anyGame: bool): Option<Release> {
    var found := Candidates(env, releases, requirement, anyGame);
    if found == [] then None else Some(found[env.pick(found, requirement) % |found|])
  }

  predicate AnyVersion(requirement: string) {
    Trim(requirement) == "" || Trim(requirement) == "*"
  }

  function FindRelease(env: Env, releases: seq<Release>, requirement: string): Option<Release> {
    var best := Best(env, releases, requirement, env.allowIncompatible);
    if best.Some? then best
    else if AnyVersion(requirement) then Best(env, releases, requirement, true)
    else None
  }

  /** The release is made for the game version of every target. */
  predicate Fits(env: Env, r: Release) {
    forall i :: 0 <= i < |env.gameVersions| ==> env.supports(r.gameVersions, env.gameVersions[i])
  }

  /** The release found is listed, safe to fetch and satisfies the requirement. It fits every
      target's game version if any that qualifies does, and always unless the user or an "any
      version" requirement waived that. Nothing is found only if no listed release qualifies. */
  lemma FoundReleaseQualifies(env: Env, releases: seq<Release>, requirement: string)
    ensures var found := FindRelease(env, releases, requirement);
            var waived := env.allowIncompatible || Trim(requirement) == "" || Trim(requirement) == "*";
            if found.Some? then
              && found.value in releases && "https://" <= found.value.url
              && Satisfies(env.rank, found.value.version, requirement)
              && (waived || Fits(env, found.value))
              && (!env.allowIncompatible && !Fits(env, found.value) ==>
                    forall r :: r in releases && "https://" <= r.url && Satisfies(env.rank, r.version, requirement) ==> !Fits(env, r))
            else forall r :: r in releases && "https://" <= r.url && Satisfies(env.rank, r.version, requirement) ==> !waived && !Fits(env, r)
  {
    hide Best, Trim, Satisfies, Candidate;
    BestQualifies(env, releases, requirement, env.allowIncompatible);
    BestQualifies(env, releases, requirement, true);
    forall r, anyGame
      ensures Candidate(env, r, requirement, anyGame) <==>
              "https://" <= r.url && Satisfies(env.rank, r.version, requirement) && (anyGame || Fits(env, r))
    {
      CandidateIff(env, r, requirement, anyGame);
    }
  }

  lemma CandidateIff(env: Env, r: Release, requirement: string, anyGame: bool)
    ensures Candidate(env, r, requirement, anyGame) <==>
            "https://" <= r.url && Satisfies(env.rank, r.version, requirement) && (anyGame || Fits(env, r))
  {
    hide Satisfies;
  }

  lemma BestQualifies(env: Env, releases: seq<Release>, requirement: string, anyGame: bool)
    ensures var best := Best(env, releases, requirement, anyGame);
            if best.Some? then best.value in releases && Candidate(env, best.value, requirement, anyGame)
            else forall r :: r in releases ==> !Candidate(env, r, requirement, anyGame)
  {
    hide Candidate;
    CandidatesQualify(env, releases, requirement, anyGame);
    var found := Candidates(env, releases, requirement, anyGame);
    if found != [] {
      assert found[env.pick(found, requirement) % |found|] in found;
    } else {
      assert forall r :: r in releases && Candidate(env, r, requirement, anyGame) ==> r in found;
    }
  }

  predicate SatisfiesAll(env: Env, version: string, requirements: seq<string>) {
    forall i :: 0 <= i < |requirements| ==> Satisfies(env.rank, version, requirements[i])
  }

  /** One of the versions satisfies every requirement. */
  predicate SomeSatisfies(env: Env, versions: seq<string>, requirements: seq<string>) {
    exists i :: 0 <= i < |versions| && SatisfiesAll(env, versions[i], requirements)
  }

  predicate InstalledEverywhere(env: Env, modId: string, requirement: string) {
    && env.installed != map[]
    && forall instance :: instance in env.installed ==>
         modId in env.installed[instance] && SomeSatisfies(env, env.installed[instance][modId], [requirement])
  }

  /** Every target, and there is one, has a version of the mod that satisfies the requirement. */
  lemma InstalledEverywhereIff(env: Env, modId: string, requirement: string)
    ensures InstalledEverywhere(env, modId, requirement) <==>
            && |env.installed| > 0
            && forall instance :: instance in env.installed ==>
                 modId in env.installed[instance]
                 && exists i :: 0 <= i < |env.installed[instance][modId]|
                                && Satisfies(env.rank, env.installed[instance][modId][i], requirement)
  {
    hide Satisfies;
    forall versions: seq<string>
      ensures SomeSatisfies(env, versions, [requirement]) <==>
              exists i :: 0 <= i < |versions| && Satisfies(env.rank, versions[i], requirement)
    {
      OneRequirement(env, versions, requirement);
    }
  }

  lemma OneRequirement(env: Env, versions: seq<string>, requirement: string)
    ensures SomeSatisfies(env, versions, [requirement]) <==>
            exists i :: 0 <= i < |versions| && Satisfies(env.rank, versions[i], requirement)
  {
    hide Satisfies;
    forall version: string
      ensures SatisfiesAll(env, version, [requirement]) <==> Satisfies(env.rank, version, requirement)
    {
      assert [requirement][0] == requirement;
    }
  }

  /** A mod is known by its identifier, or its slug if it has none, whatever the letter case and
      the white space around it. */
  lemma CanonicalMeaning(details: Details, a: string, text: string, c: string)
    requires Spaces(a) && Spaces(c) && text != "" && Trimmed(text)
    ensures details.id == a + text + c ==> Canonical(details) == Lower(text)
    ensures Spaces(details.id) && details.slug == a + text + c ==> Canonical(details) == Lower(text)
  {
    hide Trim, Lower;
    TrimAround(a, text, c);
    if Spaces(details.id) { TrimOfSpaces(details.id); }
  }

  // ---- The plan

  function WithRequirement(plan: seq<Item>, modId: string, requirement: string): (r: seq<Item>)
    ensures |r| == |plan|
  {
    if plan == [] then []
    else if EqualFold(Trim(plan[0].modId), modId) then
      [plan[0].(requirements := plan[0].requirements + [requirement])] + plan[1..]
    else [plan[0]] + WithRequirement(plan[1..], modId, requirement)
  }

  lemma {:induction false} RequirementGoesTo(plan: seq<Item>, modId: string, requirement: string, i: nat)
    requires i < |plan| && EqualFold(Trim(plan[i].modId), modId)
    requires forall j :: 0 <= j < i ==> !EqualFold(Trim(plan[j].modId), modId)
    ensures WithRequirement(plan, modId, requirement)
            == plan[i := plan[i].(requirements := plan[i].requirements + [requirement])]
  {
    hide EqualFold, Trim;
    if i > 0 {
      RequirementGoesTo(plan[1..], modId, requirement, i - 1);
    }
  }

  lemma {:induction false} RequirementGoesNowhere(plan: seq<Item>, modId: string, requirement: string)
    requires forall j :: 0 <= j < |plan| ==> !EqualFold(Trim(plan[j].modId), modId)
    ensures WithRequirement(plan, modId, requirement) == plan
  {
    hide EqualFold, Trim;
    if plan != [] {
      assert !EqualFold(Trim(plan[0].modId), modId);
      RequirementGoesNowhere(plan[1..], modId, requirement);
    }
  }

  function Without(plan: seq<Item>, modId: string): seq<Item> {
    if plan == [] then []
    else if EqualFold(plan[0].modId, modId) then Without(plan[1..], modId)
    else [plan[0]] + Without(plan[1..], modId)
  }

  // ---- The recursion

  function Known(env: Env): set<string> {
    set q | q in env.catalog :: Canonical(env.catalog[q])
  }

  /** query is what the catalog was asked for; selected is the release to download. */
  function Resolve(env: Env, query: string, selected: Release, root: bool, requirement: string,
                   visiting: set<string>, s: State): Result
    requires query in env.catalog
    decreases Known(env) - visiting, 0, 0
  {
    var details := env.catalog[query];
    var id := Canonical(details);
    if id == "" then Failed(NoId)
    else if id in s.resolved then Resolved(s)
    else if id in visiting then Failed(Circular)
    else if !Fetchable(details, selected) then Failed(Unfetchable)
    else
      var fetched := env.fetch(details.id, selected.id);
      if fetched.None? then Failed(Unfetchable)
      else
        assert id in Known(env);
        var below := ResolveAll(env, Wanted(fetched.value), visiting + {id}, s);
        if below.Failed? then below
        else Resolved(Appended(below.state, id, Item(details.id, selected, root, [requirement])))
  }

  predicate Fetchable(details: Details, selected: Release) {
    "https://" <= selected.url && SafeSegment(details.id) && SafeSegment(selected.id)
  }

  function Appended(s: State, id: string, item: Item): State {
    s.(resolved := s.resolved[id := item.release], plan := s.plan + [item])
  }

  function ResolveAll(env: Env, dependencies: seq<Dependency>, visiting: set<string>, s: State): Result
    decreases Known(env) - visiting, 1, |dependencies|
  {
    if dependencies == [] then Resolved(s)
    else
      var next := ResolveOne(env, dependencies[0], visiting, s);
      if next.Failed? then next else ResolveAll(env, dependencies[1..], visiting, next.state)
  }

  predicate AlreadyGood(env: Env, id: string, requirement: string, s: State) {
    id in s.resolved && Satisfies(env.rank, s.resolved[id].version, requirement)
  }

  /** A release chosen earlier that does not satisfy this branch gives way. */
  function Displaced(s: State, details: Details): State {
    var id := Canonical(details);
    if id in s.resolved then State(s.resolved - {id}, Without(s.plan, details.id), s.replaced + {id}) else s
  }

  function ResolveOne(env: Env, dependency: Dependency, visiting: set<string>, s: State): Result
    decreases Known(env) - visiting, 1, 0
  {
    var requirement := Trim(dependency.requirement);
    if dependency.id !in env.catalog then Failed(UnknownDependency)
    else
      var details := env.catalog[dependency.id];
      var id := Canonical(details);
      if AlreadyGood(env, id, requirement, s) then
        Resolved(s.(plan := WithRequirement(s.plan, id, requirement)))
      else if InstalledEverywhere(env, id, requirement) then Resolved(Displaced(s, details))
      else
        var release := FindRelease(env, details.releases, requirement);
        if release.None? then Failed(NoRelease)
        else Resolve(env, dependency.id, release.value, false, requirement, visiting, Displaced(s, details))
  }

  // ---- The service

  class CatalogService {
    var resolved: map<string, Release>
    var visiting: set<string>
    var plan: seq<Item>
    ghost var replaced: set<string>

    ghost function View(): State
      reads this
    {
      State(resolved, plan, replaced)
    }

    ghost predicate Agrees(result: Result, error: Option<Error>, visiting0: set<string>)
      reads this
    {
      match result
      case Resolved(s) => error.None? && View() == s && visiting == visiting0
      case Failed(e) => error == Some(e)
    }

    constructor ()
      ensures View() == State(map[], [], {}) && visiting == {}
    {
      resolved, visiting, plan, replaced := map[], {}, [], {};
    }

    method ResolveAndDownload(env: Env, query: string, selected: Release, root: bool, requirement: string)
      returns (error: Option<Error>)
      requires query in env.catalog
      modifies this
      ensures Agrees(Resolve(env, query, selected, root, requirement, old(visiting), old(View())), error, old(visiting))
      decreases Known(env) - visiting, 0
    {
      hide ResolveAll, Canonical, Wanted, Fetchable;
      var details := env.catalog[query];
      var id := Canonical(details);
      if id == "" {
        return Some(NoId);
      }
      if id in resolved {
        return None;
      }
      if id in visiting {
        return Some(Circular);
      }
      if !Fetchable(details, selected) {
        return Some(Unfetchable);
      }
      var fetched := env.fetch(details.id, selected.id);
      if fetched.None? {
        return Some(Unfetchable);
      }
      assert id in Known(env);
      visiting := visiting + {id};
      error := ResolveDependencies(env, Wanted(fetched.value));
      if error.Some? {
        return;
      }
      resolved := resolved[id := selected];
      plan := plan + [Item(details.id, selected, root, [requirement])];
      visiting := visiting - {id};
      assert visiting == old(visiting);
    }

    method ResolveDependencies(env: Env, dependencies: seq<Dependency>) returns (error: Option<Error>)
      modifies this
      ensures Agrees(ResolveAll(env, dependencies, old(visiting), old(View())), error, old(visiting))
      decreases Known(env) - visiting, 2
    {
      hide ResolveOne, Known;
      ghost var start, below := View(), visiting;
      assert dependencies[0..] == dependencies;
      for i := 0 to |dependencies|
        invariant visiting == below
        invariant ResolveAll(env, dependencies, below, start) == ResolveAll(env, dependencies[i..], below, View())
      {
        ghost var rest := dependencies[i..];
        assert rest[0] == dependencies[i] && rest[1..] == dependencies[i + 1..];
        error := ResolveDependency(env, dependencies[i]);
        if error.Some? {
          return;
        }
      }
      return None;
    }

    /** The body of the loop over the dependencies of a mod. */
    method ResolveDependency(env: Env, dependency: Dependency) returns (error: Option<Error>)
      modifies this
      ensures Agrees(ResolveOne(env, dependency, old(visiting), old(View())), error, old(visiting))
      decreases Known(env) - visiting, 1
    {
      hide Resolve, Known, Canonical, Satisfies, Trim, InstalledEverywhere, FindRelease, Without, WithRequirement;
      var requirement := Trim(dependency.requirement);
      if dependency.id !in env.catalog {
        return Some(UnknownDependency);
      }
      var details := env.catalog[dependency.id];
      var id := Canonical(details);
      if id in resolved {
        if Satisfies(env.rank, resolved[id].version, requirement) {
          AddRequirement(id, requirement);
          return None;
        }
        resolved := resolved - {id};
        RemoveFromPlan(details.id);
        replaced := replaced + {id};
      }
      if InstalledEverywhere(env, id, requirement) {
        return None;
      }
      var release := FindRelease(env, details.releases, requirement);
      if release.None? {
        return Some(NoRelease);
      }
      error := ResolveAndDownload(env, dependency.id, release.value, false, requirement);
    }

    method AddRequirement(modId: string, requirement: string)
      modifies this`plan
      ensures plan == WithRequirement(old(plan), modId, requirement)
    {
      hide EqualFold, Trim;
      for i := 0 to |plan|
        invariant plan == old(plan)
        invariant forall j :: 0 <= j < i ==> !EqualFold(Trim(plan[j].modId), modId)
      {
        if EqualFold(Trim(plan[i].modId), modId) {
          RequirementGoesTo(plan, modId, requirement, i);
          plan := plan[i := plan[i].(requirements := plan[i].requirements + [requirement])];
          return;
        }
      }
      RequirementGoesNowhere(plan, modId, requirement);
    }

    method RemoveFromPlan(modId: string)
      modifies this`plan
      ensures plan == Without(old(plan), modId)
    {
      var items: seq<Item> := [];
      assert plan[0..] == plan;
      for i := 0 to |plan|
        invariant plan == old(plan)
        invariant items + Without(plan[i..], modId) == Without(plan, modId)
      {
        assert plan[i..][1..] == plan[i + 1..];
        if EqualFold(plan[i].modId, modId) {
          continue;
        }
        items := items + [plan[i]];
      }
      plan := items;
    }
  }
}
