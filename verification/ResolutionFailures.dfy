/** Why a resolution fails: every error it can end with has its cause in the catalog. */
module ResolutionFailures {
  import opened Prelude
  import opened Text
  import opened Requirements
  import opened Resolver
  import opened Conflicts

  /** A listed release of that mod asks for it. */
  ghost predicate IsAskedBy(env: Env, id: string, d: Dependency) {
    exists q, r :: q in env.catalog && Canonical(env.catalog[q]) == id && r in env.catalog[q].releases && Asks(env, q, r, d)
  }

  /** A listed release of the one mod asks for the other. */
  ghost predicate DependsOn(env: Env, a: string, b: string) {
    exists d :: IsAskedBy(env, a, d) && d.id in env.catalog && Target(env, d) == b
  }

  ghost predicate Chain(env: Env, path: seq<string>) {
    forall i :: 0 < i < |path| ==> DependsOn(env, path[i - 1], path[i])
  }

  /** Mods that depend on each other in a circle. */
  ghost predicate Circle(env: Env, path: seq<string>) {
    |path| >= 2 && path[0] == path[|path| - 1] && Chain(env, path)
  }

  ghost predicate HasCircle(env: Env) {
    exists path :: Circle(env, path)
  }

  ghost predicate Unanswerable(env: Env, d: Dependency) {
    && d.id in env.catalog && !InstalledEverywhere(env, Target(env, d), Trim(d.requirement))
    && FindRelease(env, env.catalog[d.id].releases, Trim(d.requirement)).None?
  }

  predicate CannotBeFetched(env: Env, q: string, r: Release)
    requires q in env.catalog
  {
    !Fetchable(env.catalog[q], r) || env.fetch(env.catalog[q].id, r.id).None?
  }

  /** What the error says is so. */
  ghost predicate Reason(env: Env, error: Error) {
    match error
    case NoId => exists q :: q in env.catalog && Canonical(env.catalog[q]) == ""
    case Circular => HasCircle(env)
    case Unfetchable => exists q, r :: q in env.catalog && r in env.catalog[q].releases && CannotBeFetched(env, q, r)
    case UnknownDependency => exists d :: IsAsked(env, d) && d.id !in env.catalog
    case NoRelease => exists d :: IsAsked(env, d) && Unanswerable(env, d)
  }

  ghost predicate Explained(env: Env, r: Result) {
    r.Failed? ==> Reason(env, r.error)
  }

  /** The mods being visited are those on the path, each asked for by the one before. */
  ghost predicate On(env: Env, path: seq<string>, visiting: set<string>) {
    Chain(env, path) && forall id :: id in visiting ==> id in path
  }

  lemma ChainGoesOn(env: Env, path: seq<string>, visiting: set<string>, id: string)
    requires On(env, path, visiting) && (path != [] ==> DependsOn(env, path[|path| - 1], id))
    ensures On(env, path + [id], visiting + {id})
    ensures id in visiting ==> HasCircle(env)
  {
    hide DependsOn;
    var longer := path + [id];
    forall i | 0 < i < |longer|
      ensures DependsOn(env, longer[i - 1], longer[i])
    {
      if i < |path| { assert DependsOn(env, path[i - 1], path[i]); }
    }
    if id in visiting {
      var i :| 0 <= i < |path| && path[i] == id;
      var circle := longer[i..];
      forall j | 0 < j < |circle|
        ensures DependsOn(env, circle[j - 1], circle[j])
      {
        assert DependsOn(env, longer[i + j - 1], longer[i + j]);
      }
      assert Circle(env, circle);
    }
  }

  lemma {:induction false} ResolveIsExplained(env: Env, query: string, selected: Release, root: bool, requirement: string,
                                              visiting: set<string>, s: State, path: seq<string>)
    requires query in env.catalog && selected in env.catalog[query].releases && On(env, path, visiting)
    requires path != [] ==> DependsOn(env, path[|path| - 1], Canonical(env.catalog[query]))
    ensures Explained(env, Resolve(env, query, selected, root, requirement, visiting, s))
    decreases Known(env) - visiting, 0, 0
  {
    hide Canonical, ResolveAll, Wanted, Fetchable, DependsOn, HasCircle, Appended;
    var details := env.catalog[query];
    var id := Canonical(details);
    ChainGoesOn(env, path, visiting, id);
    assert !Fetchable(details, selected) || env.fetch(details.id, selected.id).None? ==> CannotBeFetched(env, query, selected);
    if id != "" && id !in s.resolved && id !in visiting && Fetchable(details, selected) && env.fetch(details.id, selected.id).Some? {
      var wanted := Wanted(env.fetch(details.id, selected.id).value);
      assert id in Known(env);
      forall d | d in wanted
        ensures IsAskedBy(env, id, d)
      {
        assert Asks(env, query, selected, d);
      }
      ResolveAllIsExplained(env, wanted, visiting + {id}, s, path + [id]);
    }
  }

  lemma {:induction false} ResolveAllIsExplained(env: Env, dependencies: seq<Dependency>, visiting: set<string>, s: State, path: seq<string>)
    requires On(env, path, visiting) && path != []
    requires forall d :: d in dependencies ==> IsAskedBy(env, path[|path| - 1], d)
    ensures Explained(env, ResolveAll(env, dependencies, visiting, s))
    decreases Known(env) - visiting, 1, |dependencies|
  {
    hide ResolveOne, Known, Reason, IsAskedBy, On;
    if dependencies != [] {
      assert dependencies[0] in dependencies;
      ResolveOneIsExplained(env, dependencies[0], visiting, s, path);
      var next := ResolveOne(env, dependencies[0], visiting, s);
      if next.Resolved? {
        assert forall d :: d in dependencies[1..] ==> d in dependencies;
        ResolveAllIsExplained(env, dependencies[1..], visiting, next.state, path);
      }
    }
  }

  lemma {:induction false} ResolveOneIsExplained(env: Env, dependency: Dependency, visiting: set<string>, s: State, path: seq<string>)
    requires On(env, path, visiting) && path != [] && IsAskedBy(env, path[|path| - 1], dependency)
    ensures Explained(env, ResolveOne(env, dependency, visiting, s))
    decreases Known(env) - visiting, 1, 0
  {
    hide Satisfies, Trim, Canonical, InstalledEverywhere, Displaced, WithRequirement, Resolve, FindRelease, On, HasCircle;
    AskedAtAll(env, path[|path| - 1], dependency);
    if dependency.id in env.catalog {
      var requirement := Trim(dependency.requirement);
      var details := env.catalog[dependency.id];
      assert DependsOn(env, path[|path| - 1], Canonical(details));
      var release := FindRelease(env, details.releases, requirement);
      if release.None? {
        assert !InstalledEverywhere(env, Canonical(details), requirement) ==> Unanswerable(env, dependency);
      } else {
        FoundReleaseQualifies(env, details.releases, requirement);
        ResolveIsExplained(env, dependency.id, release.value, false, requirement, visiting, Displaced(s, details), path);
      }
    }
  }

  lemma AskedAtAll(env: Env, id: string, d: Dependency)
    requires IsAskedBy(env, id, d)
    ensures IsAsked(env, d)
  {
    hide Asks, Canonical;
  }

  /** A resolution that fails has a reason in the catalog, which its error names: a mod without an
      identifier, mods that depend on each other in a circle, a listed release that cannot be
      fetched, a dependency that the catalog does not know, or one that no release answers and
      not every target has installed. */
  lemma FailureHasReason(env: Env, query: string, selected: Release)
    requires query in env.catalog && selected in env.catalog[query].releases
    ensures Explained(env, Resolve(env, query, selected, true, "", {}, State(map[], [], {})))
  {
    hide Resolve, Canonical;
    ResolveIsExplained(env, query, selected, true, "", {}, State(map[], [], {}), []);
  }
}
