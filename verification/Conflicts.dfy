/** Which dependencies a resolved plan leaves unmet, and the catalogs that leave none. */
module Conflicts {
  import opened Prelude
  import opened Text
  import opened Requirements
  import opened Resolver
  import opened InstallPlans

  /** The mod a dependency names. */
  function Target(env: Env, dependency: Dependency): string
    requires dependency.id in env.catalog
  {
    Canonical(env.catalog[dependency.id])
  }

  /** Every target has a version that will do, or the release resolved for the mod does. */
  predicate Agrees(env: Env, s: State, dependency: Dependency)
    requires dependency.id in env.catalog
  {
    var requirement := Trim(dependency.requirement);
    InstalledEverywhere(env, Target(env, dependency), requirement) || AlreadyGood(env, Target(env, dependency), requirement, s)
  }

  /** Only a mod whose release gave way may disagree. */
  ghost predicate Answered(env: Env, s: State, dependency: Dependency) {
    dependency.id in env.catalog && (Target(env, dependency) in s.replaced || Agrees(env, s, dependency))
  }

  ghost predicate AllAnswered(env: Env, s: State, dependencies: seq<Dependency>) {
    forall d :: d in dependencies ==> Answered(env, s, d)
  }

  function Fetched(env: Env, item: Item): Option<seq<Dependency>> {
    env.fetch(item.modId, item.release.id)
  }

  /** What the mod of an item asks for. */
  function Asked(env: Env, item: Item): seq<Dependency> {
    var fetched := Fetched(env, item);
    if fetched.Some? then Wanted(fetched.value) else []
  }

  ghost predicate PlanAnswered(env: Env, s: State) {
    forall item :: item in s.plan ==> AllAnswered(env, s, Asked(env, item))
  }

  /** What was resolved stays resolved, unless it is remembered as replaced. */
  ghost predicate Evolves(s: State, t: State) {
    && s.replaced <= t.replaced
    && forall id :: id in s.resolved ==> id in t.replaced || Get(t.resolved, id) == Some(s.resolved[id])
  }

  lemma EvolvesOn(s: State, t: State, u: State)
    requires Evolves(s, t) && Evolves(t, u)
    ensures Evolves(s, u)
  {
    forall id | id in s.resolved
      ensures id in u.replaced || Get(u.resolved, id) == Some(s.resolved[id])
    {
      if id !in t.replaced {
        assert Get(t.resolved, id) == Some(s.resolved[id]);
      }
    }
  }

  lemma AnsweredStays(env: Env, s: State, t: State, dependencies: seq<Dependency>)
    requires Evolves(s, t) && AllAnswered(env, s, dependencies)
    ensures AllAnswered(env, t, dependencies)
  {
    hide Satisfies, InstalledEverywhere, Canonical, Trim;
    forall d | d in dependencies
      ensures Answered(env, t, d)
    {
      assert Answered(env, s, d);
    }
  }

  lemma PlanAnsweredStays(env: Env, s: State, t: State)
    requires Evolves(s, t) && PlanAnswered(env, s)
    requires forall item :: item in t.plan ==> exists before :: before in s.plan && SameMod(before, item)
    ensures PlanAnswered(env, t)
  {
    hide AllAnswered, Evolves, Wanted;
    forall item | item in t.plan
      ensures AllAnswered(env, t, Asked(env, item))
    {
      var before :| before in s.plan && SameMod(before, item);
      assert AllAnswered(env, s, Asked(env, before));
      AnsweredStays(env, s, t, Asked(env, before));
    }
  }

  predicate SameMod(a: Item, b: Item) {
    a.modId == b.modId && a.release == b.release
  }

  // ---- The recursion answers everything it is asked

  ghost predicate KeepsAnswers(env: Env, s: State, dependencies: seq<Dependency>, r: Result) {
    r.Resolved? ==>
      && Evolves(s, r.state)
      && AllAnswered(env, r.state, dependencies)
      && (PlanAnswered(env, s) ==> PlanAnswered(env, r.state))
  }

  lemma {:induction false} ResolveAnswers(env: Env, query: string, selected: Release, requirement: string,
                                          visiting: set<string>, s: State, root: bool)
    requires CleanIds(env) && query in env.catalog && selected in env.catalog[query].releases
    requires WellFormed(env, s) && s.resolved.Keys !! visiting
    requires Satisfies(env.rank, selected.version, requirement)
    requires Canonical(env.catalog[query]) !in s.resolved
    ensures var r := Resolve(env, query, selected, root, requirement, visiting, s);
            r.Resolved? ==>
              && Evolves(s, r.state)
              && Get(r.state.resolved, Canonical(env.catalog[query])) == Some(selected)
              && (PlanAnswered(env, s) ==> PlanAnswered(env, r.state))
    decreases Known(env) - visiting, 0, 0
  {
    hide Satisfies, Canonical, WellFormed, ResolveAll, CleanIds, Resolve, Known, Wanted, AllAnswered, PlanAnswered, Evolves;
    var id := Canonical(env.catalog[query]);
    var r := Resolve(env, query, selected, root, requirement, visiting, s);
    var wanted := ResolveUnfolds(env, query, selected, root, requirement, visiting, s);
    if r.Resolved? {
      ResolveAllKeepsForm(env, wanted, visiting + {id}, s);
      ResolveAllAnswers(env, wanted, visiting + {id}, s);
      var below := ResolveAll(env, wanted, visiting + {id}, s).state;
      var item := Item(env.catalog[query].id, selected, root, [requirement]);
      AppendingEvolves(below, id, item);
      EvolvesOn(s, below, r.state);
      if PlanAnswered(env, s) {
        AppendingAnswers(env, below, id, item);
      }
    }
  }

  lemma AppendingEvolves(s: State, id: string, item: Item)
    requires id !in s.resolved
    ensures Evolves(s, Appended(s, id, item))
  {}

  lemma AppendingAnswers(env: Env, s: State, id: string, item: Item)
    requires id !in s.resolved && PlanAnswered(env, s) && AllAnswered(env, s, Asked(env, item))
    ensures PlanAnswered(env, Appended(s, id, item))
  {
    hide AllAnswered, Wanted, Evolves;
    var t := Appended(s, id, item);
    AppendingEvolves(s, id, item);
    forall other | other in t.plan
      ensures AllAnswered(env, t, Asked(env, other))
    {
      assert other in s.plan || other == item;
      AnsweredStays(env, s, t, Asked(env, other));
    }
  }

  lemma {:induction false} ResolveAllAnswers(env: Env, dependencies: seq<Dependency>, visiting: set<string>, s: State)
    requires CleanIds(env) && WellFormed(env, s) && s.resolved.Keys !! visiting
    ensures KeepsAnswers(env, s, dependencies, ResolveAll(env, dependencies, visiting, s))
    decreases Known(env) - visiting, 1, |dependencies|
  {
    hide WellFormed, NoRoot, ResolveOne, Known, CleanIds, PlanAnswered, Evolves, Answered;
    if dependencies == [] {
      EvolvesItself(s);
    } else {
      ResolveOneKeepsForm(env, dependencies[0], visiting, s);
      ResolveOneAnswers(env, dependencies[0], visiting, s);
      var next := ResolveOne(env, dependencies[0], visiting, s);
      if next.Resolved? {
        var r := ResolveAll(env, dependencies[1..], visiting, next.state);
        ResolveAllAnswers(env, dependencies[1..], visiting, next.state);
        if r.Resolved? {
          EvolvesOn(s, next.state, r.state);
          AnsweredStays(env, next.state, r.state, [dependencies[0]]);
          assert dependencies[0] in [dependencies[0]];
          assert dependencies == [dependencies[0]] + dependencies[1..];
        }
      }
    }
  }

  lemma EvolvesItself(s: State)
    ensures Evolves(s, s)
  {}

  lemma {:induction false} ResolveOneAnswers(env: Env, dependency: Dependency, visiting: set<string>, s: State)
    requires CleanIds(env) && WellFormed(env, s) && s.resolved.Keys !! visiting
    ensures KeepsAnswers(env, s, [dependency], ResolveOne(env, dependency, visiting, s))
    decreases Known(env) - visiting, 1, 0
  {
    hide WellFormed, NoRoot, Satisfies, Trim, Canonical, InstalledEverywhere, Displaced, WithRequirement, CleanIds,
         Resolve, PlanAnswered, Evolves;
    if dependency.id in env.catalog {
      var requirement := Trim(dependency.requirement);
      var details := env.catalog[dependency.id];
      var id := Canonical(details);
      if AlreadyGood(env, id, requirement, s) {
        RecordingAnswers(env, s, id, requirement);
      } else {
        DisplacedKeepsForm(env, s, dependency.id);
        var t := Displaced(s, details);
        DisplacedAnswers(env, s, details);
        var release := FindRelease(env, details.releases, requirement);
        if !InstalledEverywhere(env, id, requirement) && release.Some? {
          FoundReleaseQualifies(env, details.releases, requirement);
          ResolveAnswers(env, dependency.id, release.value, requirement, visiting, t, false);
          var r := Resolve(env, dependency.id, release.value, false, requirement, visiting, t);
          if r.Resolved? {
            EvolvesOn(s, t, r.state);
          }
        }
      }
    }
  }

  lemma RecordingAnswers(env: Env, s: State, id: string, requirement: string)
    ensures var t := s.(plan := WithRequirement(s.plan, id, requirement));
            Evolves(s, t) && (PlanAnswered(env, s) ==> PlanAnswered(env, t))
  {
    hide PlanAnswered, WithRequirement, Trim;
    var t := s.(plan := WithRequirement(s.plan, id, requirement));
    forall item | item in t.plan
      ensures exists before :: before in s.plan && SameMod(before, item)
    {
      var i :| 0 <= i < |t.plan| && t.plan[i] == item;
      WithRequirementAt(s.plan, id, requirement, i);
      assert SameMod(s.plan[i], item);
    }
    if PlanAnswered(env, s) { PlanAnsweredStays(env, s, t); }
  }

  lemma DisplacedAnswers(env: Env, s: State, details: Details)
    ensures Evolves(s, Displaced(s, details))
    ensures PlanAnswered(env, s) ==> PlanAnswered(env, Displaced(s, details))
  {
    hide PlanAnswered, Without, Canonical, Lower;
    var t := Displaced(s, details);
    WithoutMembers(s.plan, details.id);
    forall item | item in t.plan
      ensures exists before :: before in s.plan && SameMod(before, item)
    {
      assert SameMod(item, item);
    }
    if PlanAnswered(env, s) { PlanAnsweredStays(env, s, t); }
  }

  // ---- What the whole plan meets

  lemma MetIffAgrees(env: Env, s: State, dependency: Dependency)
    requires WellFormed(env, s) && dependency.id in env.catalog
    ensures Met(env, s.plan, |s.plan|, dependency) <==> Agrees(env, s, dependency)
  {
    hide Satisfies, InstalledEverywhere, Canonical, Trim, Key, OneItemEach;
    var id, requirement := Target(env, dependency), Trim(dependency.requirement);
    if ProvidedBefore(env, s.plan, |s.plan|, id, requirement) {
      var i :| 0 <= i < |s.plan| && Key(s.plan[i]) == id && Satisfies(env.rank, s.plan[i].release.version, requirement);
      assert GoodItem(env, s.resolved, s.plan[i]);
    }
    if AlreadyGood(env, id, requirement, s) {
      assert HasKey(s.plan, id);
      var i :| 0 <= i < |s.plan| && Key(s.plan[i]) == id;
      assert GoodItem(env, s.resolved, s.plan[i]);
    }
  }

  /** The whole plan meets what each of its mods asks for. */
  ghost predicate EverythingMet(env: Env, plan: seq<Item>) {
    forall item, d :: item in plan && d in Asked(env, item) ==> Met(env, plan, |plan|, d)
  }

  /** The release that took the place of another suits every planned dependent. */
  ghost predicate ReplacementsSuit(env: Env, s: State) {
    forall item, d :: item in s.plan && d in Asked(env, item) && d.id in env.catalog && Target(env, d) in s.replaced ==>
      Agrees(env, s, d)
  }

  /** A resolved plan meets what each of its mods asks for exactly when each shared
      dependency that gave way ended with a release that suits all its planned dependents. */
  lemma PlanMeetsEverythingIff(env: Env, query: string, selected: Release)
    requires CleanIds(env) && query in env.catalog && selected in env.catalog[query].releases
    requires Resolve(env, query, selected, true, "", {}, START).Resolved?
    ensures var s := Resolve(env, query, selected, true, "", {}, START).state;
            && EverythingMet(env, s.plan) <==> ReplacementsSuit(env, s)
  {
    hide Satisfies, Canonical, WellFormed, CleanIds, Resolve, Wanted, Met, Agrees, NoRoot;
    StartIsGood(env, selected);
    var s := Resolve(env, query, selected, true, "", {}, START).state;
    PlanIsSound(env, query, selected);
    NothingAsked(env);
    ResolveAnswers(env, query, selected, "", {}, START, true);
    forall item, d | item in s.plan && d in Asked(env, item)
      ensures d.id in env.catalog && (Target(env, d) in s.replaced || Agrees(env, s, d))
      ensures Met(env, s.plan, |s.plan|, d) <==> Agrees(env, s, d)
    {
      assert AllAnswered(env, s, Asked(env, item));
      assert Answered(env, s, d);
      MetIffAgrees(env, s, d);
    }
  }

  lemma NothingAsked(env: Env)
    ensures PlanAnswered(env, START)
  {}

  // ---- Catalogs without conflicts

  /** A listed release asks for it. */
  ghost predicate IsAsked(env: Env, d: Dependency) {
    exists q, r :: q in env.catalog && r in env.catalog[q].releases && Asks(env, q, r, d)
  }

  predicate Asks(env: Env, q: string, r: Release, d: Dependency)
    requires q in env.catalog
  {
    var fetched := env.fetch(env.catalog[q].id, r.id);
    fetched.Some? && d in Wanted(fetched.value)
  }

  /** Any two dependencies on one mod accept the release found for the other. */
  ghost predicate Agreeable(env: Env) {
    forall d, e :: IsAsked(env, d) && IsAsked(env, e) ==> AgreeOn(env, d, e)
  }

  predicate AgreeOn(env: Env, d: Dependency, e: Dependency) {
    d.id in env.catalog && e.id in env.catalog && Target(env, d) == Target(env, e) ==>
      var found := FindRelease(env, env.catalog[d.id].releases, Trim(d.requirement));
      found.Some? ==> Satisfies(env.rank, found.value.version, Trim(e.requirement))
  }

  /** The release resolved for a mod is the one found for a dependency on it. */
  ghost predicate FoundFor(env: Env, s: State, id: string)
    requires id in s.resolved
  {
    exists d :: FoundForAsked(env, s.resolved[id], id, d)
  }

  ghost predicate FoundForAsked(env: Env, release: Release, id: string, d: Dependency) {
    && IsAsked(env, d) && d.id in env.catalog && Target(env, d) == id
    && FindRelease(env, env.catalog[d.id].releases, Trim(d.requirement)) == Some(release)
  }

  ghost predicate Peaceful(env: Env, s: State) {
    && s.replaced == {}
    && forall id :: id in s.resolved ==> FoundFor(env, s, id)
  }

  ghost predicate AllAsked(env: Env, dependencies: seq<Dependency>) {
    forall d :: d in dependencies ==> IsAsked(env, d)
  }

  lemma NoDisagreement(env: Env, s: State, d: Dependency)
    requires Agreeable(env) && Peaceful(env, s) && IsAsked(env, d) && d.id in env.catalog
    ensures Target(env, d) in s.resolved ==> AlreadyGood(env, Target(env, d), Trim(d.requirement), s)
  {
    hide Satisfies, Canonical, Trim, FindRelease, IsAsked;
    var id := Target(env, d);
    if id in s.resolved {
      assert FoundFor(env, s, id);
      var e :| FoundForAsked(env, s.resolved[id], id, e);
      assert AgreeOn(env, e, d);
    }
  }

  lemma {:induction false} ResolveStaysPeaceful(env: Env, query: string, selected: Release, root: bool, requirement: string,
                                                visiting: set<string>, s: State)
    requires Agreeable(env) && query in env.catalog && selected in env.catalog[query].releases
    requires Peaceful(env, s)
    requires root || exists d :: FoundForAsked(env, selected, Canonical(env.catalog[query]), d)
    ensures var r := Resolve(env, query, selected, root, requirement, visiting, s);
            r.Resolved? ==> r.state.replaced == {} && (!root ==> Peaceful(env, r.state))
    decreases Known(env) - visiting, 0, 0
  {
    hide Satisfies, Canonical, ResolveAll, Resolve, Known, Wanted, IsAsked, Agreeable, FindRelease;
    var id := Canonical(env.catalog[query]);
    var r := Resolve(env, query, selected, root, requirement, visiting, s);
    var wanted := ResolveUnfolds(env, query, selected, root, requirement, visiting, s);
    if r.Resolved? && id !in s.resolved {
      ListedAsks(env, query, selected, wanted);
      ResolveAllStaysPeaceful(env, wanted, visiting + {id}, s);
      var below := ResolveAll(env, wanted, visiting + {id}, s).state;
      if !root {
        forall other | other in r.state.resolved
          ensures FoundFor(env, r.state, other)
        {
          if other != id {
            assert FoundFor(env, below, other);
          }
        }
      }
    }
  }

  lemma ListedAsks(env: Env, query: string, selected: Release, wanted: seq<Dependency>)
    requires query in env.catalog && selected in env.catalog[query].releases
    requires var fetched := env.fetch(env.catalog[query].id, selected.id); fetched.Some? && wanted == Wanted(fetched.value)
    ensures AllAsked(env, wanted)
  {
    hide Wanted;
    forall d | d in wanted
      ensures IsAsked(env, d)
    {
      assert Asks(env, query, selected, d);
    }
  }

  lemma {:induction false} ResolveAllStaysPeaceful(env: Env, dependencies: seq<Dependency>, visiting: set<string>, s: State)
    requires Agreeable(env) && Peaceful(env, s) && AllAsked(env, dependencies)
    ensures var r := ResolveAll(env, dependencies, visiting, s);
            r.Resolved? ==> Peaceful(env, r.state)
    decreases Known(env) - visiting, 1, |dependencies|
  {
    hide ResolveOne, Known, Peaceful, Agreeable, IsAsked;
    if dependencies != [] {
      assert dependencies[0] in dependencies;
      ResolveOneStaysPeaceful(env, dependencies[0], visiting, s);
      var next := ResolveOne(env, dependencies[0], visiting, s);
      if next.Resolved? {
        assert forall d :: d in dependencies[1..] ==> d in dependencies;
        ResolveAllStaysPeaceful(env, dependencies[1..], visiting, next.state);
      }
    }
  }

  lemma {:induction false} ResolveOneStaysPeaceful(env: Env, dependency: Dependency, visiting: set<string>, s: State)
    requires Agreeable(env) && Peaceful(env, s) && IsAsked(env, dependency)
    ensures var r := ResolveOne(env, dependency, visiting, s);
            r.Resolved? ==> Peaceful(env, r.state)
    decreases Known(env) - visiting, 1, 0
  {
    hide Satisfies, Trim, Canonical, InstalledEverywhere, WithRequirement, Resolve, IsAsked, Agreeable, FindRelease, Candidate;
    if dependency.id in env.catalog {
      var requirement := Trim(dependency.requirement);
      var details := env.catalog[dependency.id];
      var id := Canonical(details);
      NoDisagreement(env, s, dependency);
      if AlreadyGood(env, id, requirement, s) {
        var t := s.(plan := WithRequirement(s.plan, id, requirement));
        forall other | other in t.resolved
          ensures FoundFor(env, t, other)
        {
          assert FoundFor(env, s, other);
        }
      } else {
        assert Displaced(s, details) == s;
        var release := FindRelease(env, details.releases, requirement);
        if !InstalledEverywhere(env, id, requirement) && release.Some? {
          FoundReleaseQualifies(env, details.releases, requirement);
          assert FoundForAsked(env, release.value, id, dependency);
          ResolveStaysPeaceful(env, dependency.id, release.value, false, requirement, visiting, s);
        }
      }
    }
  }

  /** In a catalog where any two dependencies on one mod accept each other's release no
      shared dependency gives way, whatever mod is asked for. */
  lemma AgreeableCatalogHasNoConflict(env: Env, query: string, selected: Release)
    requires CleanIds(env) && Agreeable(env) && query in env.catalog && selected in env.catalog[query].releases
    ensures var r := Resolve(env, query, selected, true, "", {}, START);
            r.Resolved? ==> r.state.replaced == {} && Ordered(env, r.state.plan) && EverythingMet(env, r.state.plan)
  {
    hide Satisfies, Canonical, WellFormed, CleanIds, Resolve, Ordered, EverythingMet, Agreeable, Agrees;
    assert Peaceful(env, START);
    ResolveStaysPeaceful(env, query, selected, true, "", {}, START);
    PlanIsOrdered(env, query, selected);
    if Resolve(env, query, selected, true, "", {}, START).Resolved? {
      PlanMeetsEverythingIff(env, query, selected);
    }
  }

  // ---- Identifiers that name no directory

  /** A mod whose identifier is blank, or cannot name a directory, is never planned: resolving
      it fails unless another mod has been resolved under the same name. */
  lemma UnsafeIdentifierIsRefused(env: Env, query: string, selected: Release, root: bool, requirement: string,
                                  visiting: set<string>, s: State)
    requires query in env.catalog
    requires var name := Trim(env.catalog[query].id); name == "" || name == "." || name == ".." || '/' in name || '\\' in name
    ensures var r := Resolve(env, query, selected, root, requirement, visiting, s);
            if Canonical(env.catalog[query]) in s.resolved && Canonical(env.catalog[query]) != "" then r == Resolved(s) else r.Failed?
  {
    hide Canonical, Trim, ResolveAll;
  }
}
