/** What a resolved install plan promises. */
module InstallPlans {
  import opened Prelude
  import opened Text
  import opened Requirements
  import opened Resolver

  /** The catalog writes the identifier of one mod in one way, letter case aside. */
  ghost predicate CleanIds(env: Env) {
    forall q, r :: q in env.catalog && r in env.catalog && Canonical(env.catalog[q]) == Canonical(env.catalog[r]) ==>
      Lower(env.catalog[q].id) == Lower(env.catalog[r].id)
  }

  function Key(item: Item): string {
    Lower(Trim(item.modId))
  }

  predicate HasKey(plan: seq<Item>, key: string) {
    exists i :: 0 <= i < |plan| && Key(plan[i]) == key
  }

  ghost predicate OneItemEach(plan: seq<Item>) {
    forall i, j :: 0 <= i < j < |plan| ==> Key(plan[i]) != Key(plan[j])
  }

  ghost predicate Listed(env: Env, item: Item) {
    exists q :: q in env.catalog && env.catalog[q].id == item.modId && item.release in env.catalog[q].releases
  }

  /** The release can be fetched safely, is listed, is the one recorded as resolved, and
      satisfies every requirement recorded on the item. */
  ghost predicate GoodItem(env: Env, resolved: map<string, Release>, item: Item) {
    && Get(resolved, Key(item)) == Some(item.release)
    && SatisfiesAll(env, item.release.version, item.requirements)
    && "https://" <= item.release.url
    && Trim(item.modId) != ""
    && Listed(env, item)
  }

  ghost predicate WellFormed(env: Env, s: State) {
    && OneItemEach(s.plan)
    && (forall i :: 0 <= i < |s.plan| ==> GoodItem(env, s.resolved, s.plan[i]))
    && (forall k :: k in s.resolved ==> HasKey(s.plan, k))
  }

  predicate NoRoot(plan: seq<Item>) {
    forall i :: 0 <= i < |plan| ==> !plan[i].root
  }

  lemma CanonicalIsKey(env: Env, query: string, item: Item)
    requires query in env.catalog && item.modId == env.catalog[query].id && Trim(item.modId) != ""
    ensures Canonical(env.catalog[query]) == Key(item)
  {
  }

  // ---- Recording a requirement

  predicate SameButRequirement(item: Item, r: Item, id: string, requirement: string) {
    && r.modId == item.modId && r.release == item.release && r.root == item.root
    && (r.requirements == item.requirements
        || (EqualFold(Trim(item.modId), id) && r.requirements == item.requirements + [requirement]))
  }

  lemma {:induction false} WithRequirementAt(plan: seq<Item>, id: string, requirement: string, i: nat)
    requires i < |plan|
    ensures SameButRequirement(plan[i], WithRequirement(plan, id, requirement)[i], id, requirement)
  {
    hide EqualFold, Trim;
    if !EqualFold(Trim(plan[0].modId), id) && i > 0 {
      WithRequirementAt(plan[1..], id, requirement, i - 1);
    }
  }

  lemma ItemWithRequirement(env: Env, s: State, id: string, requirement: string, item: Item, r: Item)
    requires GoodItem(env, s.resolved, item) && AlreadyGood(env, id, requirement, s) && Lower(id) == id
    requires SameButRequirement(item, r, id, requirement)
    ensures GoodItem(env, s.resolved, r) && Key(r) == Key(item) && r.root == item.root
  {
    hide Satisfies, Trim, Lower;
    assert Listed(env, item) ==> Listed(env, r);
    assert SatisfiesAll(env, item.release.version, r.requirements);
  }

  lemma RequirementKeepsForm(env: Env, s: State, id: string, requirement: string)
    requires WellFormed(env, s) && AlreadyGood(env, id, requirement, s)
    requires Lower(id) == id
    ensures WellFormed(env, s.(plan := WithRequirement(s.plan, id, requirement)))
    ensures NoRoot(s.plan) ==> NoRoot(WithRequirement(s.plan, id, requirement))
  {
    hide AlreadyGood, GoodItem, Key, SameButRequirement, WithRequirement;
    var t := s.(plan := WithRequirement(s.plan, id, requirement));
    forall i | 0 <= i < |t.plan|
      ensures GoodItem(env, t.resolved, t.plan[i]) && Key(t.plan[i]) == Key(s.plan[i]) && t.plan[i].root == s.plan[i].root
    {
      WithRequirementAt(s.plan, id, requirement, i);
      ItemWithRequirement(env, s, id, requirement, s.plan[i], t.plan[i]);
    }
    forall k | k in t.resolved
      ensures HasKey(t.plan, k)
    {
      assert HasKey(s.plan, k);
      var i :| 0 <= i < |s.plan| && Key(s.plan[i]) == k;
      assert Key(t.plan[i]) == k;
    }
  }

  // ---- Taking a mod out of the plan

  lemma {:induction false} WithoutMembers(plan: seq<Item>, id: string)
    ensures forall item :: item in Without(plan, id) <==> item in plan && Lower(item.modId) != Lower(id)
  {
    hide Lower;
    if plan != [] {
      WithoutMembers(plan[1..], id);
      assert plan == [plan[0]] + plan[1..];
    }
  }

  lemma {:induction false} WithoutStaysDistinct(plan: seq<Item>, id: string)
    requires OneItemEach(plan)
    ensures OneItemEach(Without(plan, id))
  {
    hide Lower, Key;
    if plan != [] {
      var rest := plan[1..];
      assert forall i :: 0 <= i < |rest| ==> rest[i] == plan[i + 1];
      WithoutStaysDistinct(rest, id);
      WithoutMembers(rest, id);
      forall item | item in Without(rest, id)
        ensures Key(item) != Key(plan[0])
      {
        var i :| 0 <= i < |rest| && rest[i] == item;
      }
      OneMoreDistinct(plan[0], Without(rest, id));
    }
  }

  lemma OneMoreDistinct(item: Item, plan: seq<Item>)
    requires OneItemEach(plan) && forall other :: other in plan ==> Key(other) != Key(item)
    ensures OneItemEach([item] + plan)
  {
    hide Key;
  }

  /** The items that go are those of the mod, however the catalog was asked for it. */
  lemma DroppedIffSameMod(env: Env, s: State, query: string, item: Item)
    requires CleanIds(env) && query in env.catalog && GoodItem(env, s.resolved, item)
    ensures Lower(item.modId) == Lower(env.catalog[query].id) <==> Key(item) == Canonical(env.catalog[query])
  {
    hide Lower, Trim, SatisfiesAll;
    LowerOfTrim(item.modId);
    LowerOfTrim(env.catalog[query].id);
    var q :| q in env.catalog && env.catalog[q].id == item.modId;
    CanonicalIsKey(env, q, item);
    SameWhenLower(Trim(item.modId), Trim(env.catalog[query].id));
  }

  lemma SameWhenLower(a: string, b: string)
    ensures Lower(a) == Lower(b) ==> (a == "" <==> b == "")
  {
    assert |Lower(a)| == |a| && |Lower(b)| == |b|;
  }

  lemma KeptItemIsGood(env: Env, s: State, query: string, item: Item)
    requires CleanIds(env) && query in env.catalog && GoodItem(env, s.resolved, item)
    requires Lower(item.modId) != Lower(env.catalog[query].id)
    ensures GoodItem(env, s.resolved - {Canonical(env.catalog[query])}, item)
  {
    hide Lower, Trim, SatisfiesAll, Canonical, CleanIds;
    DroppedIffSameMod(env, s, query, item);
  }

  lemma OthersKeepTheirItem(env: Env, s: State, query: string, key: string)
    requires CleanIds(env) && query in env.catalog && WellFormed(env, s)
    requires key in s.resolved && key != Canonical(env.catalog[query])
    ensures HasKey(Without(s.plan, env.catalog[query].id), key)
  {
    hide Lower, Key, Canonical, CleanIds, GoodItem, OneItemEach;
    var plan, id := s.plan, env.catalog[query].id;
    assert HasKey(plan, key);
    var i :| 0 <= i < |plan| && Key(plan[i]) == key;
    DroppedIffSameMod(env, s, query, plan[i]);
    WithoutMembers(plan, id);
    var r := Without(plan, id);
    assert plan[i] in r;
    var j :| 0 <= j < |r| && r[j] == plan[i];
  }

  lemma DisplacedKeepsForm(env: Env, s: State, query: string)
    requires CleanIds(env) && query in env.catalog && WellFormed(env, s)
    ensures var t := Displaced(s, env.catalog[query]);
            && WellFormed(env, t)
            && Canonical(env.catalog[query]) !in t.resolved
            && t.resolved.Keys <= s.resolved.Keys
            && (NoRoot(s.plan) ==> NoRoot(t.plan))
  {
    hide Lower, Without, OneItemEach, GoodItem, Canonical, CleanIds, HasKey;
    var details := env.catalog[query];
    var id := Canonical(details);
    if id in s.resolved {
      var t := Displaced(s, details);
      WithoutMembers(s.plan, details.id);
      WithoutStaysDistinct(s.plan, details.id);
      forall i | 0 <= i < |t.plan|
        ensures GoodItem(env, t.resolved, t.plan[i]) && t.plan[i] in s.plan
      {
        assert t.plan[i] in t.plan;
        var j :| 0 <= j < |s.plan| && s.plan[j] == t.plan[i];
        KeptItemIsGood(env, s, query, s.plan[j]);
      }
      forall k | k in t.resolved
        ensures HasKey(t.plan, k)
      {
        OthersKeepTheirItem(env, s, query, k);
      }
    }
  }

  lemma AppendedKeepsForm(env: Env, s: State, id: string, item: Item)
    requires WellFormed(env, s) && id !in s.resolved && id == Key(item)
    requires GoodItem(env, s.resolved[id := item.release], item)
    ensures WellFormed(env, Appended(s, id, item))
  {
    hide Satisfies;
    var t := Appended(s, id, item);
    forall i | 0 <= i < |t.plan|
      ensures GoodItem(env, t.resolved, t.plan[i])
    {
      if i < |s.plan| {
        assert GoodItem(env, s.resolved, s.plan[i]);
        assert Key(s.plan[i]) in s.resolved;
      }
    }
    forall i, j | 0 <= i < j < |t.plan|
      ensures Key(t.plan[i]) != Key(t.plan[j])
    {
      assert GoodItem(env, s.resolved, s.plan[i]);
      assert Key(s.plan[i]) in s.resolved;
    }
    forall k | k in t.resolved
      ensures HasKey(t.plan, k)
    {
      if k == id {
        assert Key(t.plan[|s.plan|]) == k;
      } else {
        assert HasKey(s.plan, k);
        var i :| 0 <= i < |s.plan| && Key(s.plan[i]) == k;
        assert Key(t.plan[i]) == k;
      }
    }
  }

  // ---- The recursion keeps the form

  /** What every part of the recursion ensures of the state it returns. */
  ghost predicate Kept(env: Env, visiting: set<string>, s: State, r: Result) {
    r.Resolved? ==>
      && WellFormed(env, r.state)
      && r.state.resolved.Keys !! visiting
      && (NoRoot(s.plan) ==> NoRoot(r.state.plan))
      && s.replaced <= r.state.replaced
  }

  /** What the last step of Resolve makes of the state its dependencies left. */
  lemma AppendingKeepsForm(env: Env, query: string, selected: Release, requirement: string, s: State, root: bool)
    requires CleanIds(env) && query in env.catalog && selected in env.catalog[query].releases
    requires WellFormed(env, s) && Canonical(env.catalog[query]) !in s.resolved
    requires Satisfies(env.rank, selected.version, requirement) && Fetchable(env.catalog[query], selected)
    ensures var item := Item(env.catalog[query].id, selected, root, [requirement]);
            var t := Appended(s, Canonical(env.catalog[query]), item);
            && WellFormed(env, t)
            && t.plan == s.plan + [item]
            && t.resolved.Keys == s.resolved.Keys + {Canonical(env.catalog[query])}
            && (NoRoot(s.plan) && !root ==> NoRoot(t.plan))
  {
    hide Satisfies, Canonical, WellFormed, Trim, Lower;
    var item := Item(env.catalog[query].id, selected, root, [requirement]);
    CanonicalIsKey(env, query, item);
    assert Listed(env, item);
    AppendedKeepsForm(env, s, Canonical(env.catalog[query]), item);
    NoRootAppended(s.plan, item);
  }

  /** A mod resolves to what its dependencies left, with the mod itself at the end. */
  lemma ResolveUnfolds(env: Env, query: string, selected: Release, root: bool, requirement: string,
                       visiting: set<string>, s: State) returns (wanted: seq<Dependency>)
    requires query in env.catalog
    ensures var details := env.catalog[query];
            var id := Canonical(details);
            var r := Resolve(env, query, selected, root, requirement, visiting, s);
            var below := ResolveAll(env, wanted, visiting + {id}, s);
            r.Resolved? && id !in s.resolved ==>
              && id !in visiting && Known(env) - (visiting + {id}) < Known(env) - visiting
              && Fetchable(details, selected)
              && env.fetch(details.id, selected.id).Some? && wanted == Wanted(env.fetch(details.id, selected.id).value)
              && below.Resolved?
              && r.state == Appended(below.state, id, Item(details.id, selected, root, [requirement]))
    ensures Canonical(env.catalog[query]) in s.resolved
            && Resolve(env, query, selected, root, requirement, visiting, s).Resolved? ==>
              Resolve(env, query, selected, root, requirement, visiting, s).state == s
  {
    hide Canonical, ResolveAll, Appended, Wanted;
    var details := env.catalog[query];
    var id := Canonical(details);
    var fetched := env.fetch(details.id, selected.id);
    wanted := if fetched.Some? then Wanted(fetched.value) else [];
    if id !in visiting {
      assert id in Known(env);
      assert id in Known(env) - visiting && id !in Known(env) - (visiting + {id});
    }
  }

  lemma {:induction false} ResolveKeepsForm(env: Env, query: string, selected: Release, requirement: string,
                                            visiting: set<string>, s: State, root: bool)
    requires CleanIds(env) && query in env.catalog && selected in env.catalog[query].releases
    requires WellFormed(env, s) && s.resolved.Keys !! visiting
    requires Satisfies(env.rank, selected.version, requirement)
    ensures !root ==> Kept(env, visiting, s, Resolve(env, query, selected, root, requirement, visiting, s))
    decreases Known(env) - visiting, 0, 0
  {
    hide Satisfies, Canonical, WellFormed, NoRoot, Appended, ResolveAll, CleanIds, Resolve, Known, Wanted;
    var id := Canonical(env.catalog[query]);
    var r := Resolve(env, query, selected, root, requirement, visiting, s);
    var wanted := ResolveUnfolds(env, query, selected, root, requirement, visiting, s);
    if r.Resolved? && id !in s.resolved {
      ResolveAllKeepsForm(env, wanted, visiting + {id}, s);
      var below := ResolveAll(env, wanted, visiting + {id}, s);
      AppendingKeepsForm(env, query, selected, requirement, below.state, root);
      AppendedKeepsHistory(below.state, id, Item(env.catalog[query].id, selected, root, [requirement]));
    }
  }

  lemma AppendedKeepsHistory(s: State, id: string, item: Item)
    ensures Appended(s, id, item).replaced == s.replaced
  {
  }

  lemma NoRootAppended(plan: seq<Item>, item: Item)
    ensures NoRoot(plan) && !item.root ==> NoRoot(plan + [item])
    ensures (plan + [item])[..|plan + [item]| - 1] == plan
  {
  }

  lemma {:induction false} ResolveAllKeepsForm(env: Env, dependencies: seq<Dependency>, visiting: set<string>, s: State)
    requires CleanIds(env) && WellFormed(env, s) && s.resolved.Keys !! visiting
    ensures Kept(env, visiting, s, ResolveAll(env, dependencies, visiting, s))
    decreases Known(env) - visiting, 1, |dependencies|
  {
    hide WellFormed, NoRoot, ResolveOne, Known, CleanIds;
    if dependencies != [] {
      ResolveOneKeepsForm(env, dependencies[0], visiting, s);
      var next := ResolveOne(env, dependencies[0], visiting, s);
      if next.Resolved? {
        ResolveAllKeepsForm(env, dependencies[1..], visiting, next.state);
      }
    }
  }

  lemma {:induction false} ResolveOneKeepsForm(env: Env, dependency: Dependency, visiting: set<string>, s: State)
    requires CleanIds(env) && WellFormed(env, s) && s.resolved.Keys !! visiting
    ensures Kept(env, visiting, s, ResolveOne(env, dependency, visiting, s))
    decreases Known(env) - visiting, 1, 0
  {
    hide WellFormed, NoRoot, Satisfies, Trim, Canonical, InstalledEverywhere, Displaced, WithRequirement;
    if dependency.id in env.catalog {
      var requirement := Trim(dependency.requirement);
      var details := env.catalog[dependency.id];
      var id := Canonical(details);
      if AlreadyGood(env, id, requirement, s) {
        CanonicalIsLower(details);
        RequirementKeepsForm(env, s, id, requirement);
      } else {
        DisplacedKeepsForm(env, s, dependency.id);
        var t := Displaced(s, details);
        DisplacedKeepsHistory(s, details);
        var release := FindRelease(env, details.releases, requirement);
        if !InstalledEverywhere(env, id, requirement) && release.Some? {
          FoundReleaseQualifies(env, details.releases, requirement);
          ResolveKeepsForm(env, dependency.id, release.value, requirement, visiting, t, false);
        }
      }
    }
  }

  lemma CanonicalIsLower(details: Details)
    ensures Lower(Canonical(details)) == Canonical(details)
  {
    hide Lower, Trim;
    var id := Trim(details.id);
    LowerTwice(if id == "" then Trim(details.slug) else id);
  }

  lemma DisplacedKeepsHistory(s: State, details: Details)
    ensures s.replaced <= Displaced(s, details).replaced
    ensures Displaced(s, details).replaced == {} ==> Displaced(s, details) == s
  {
  }

  // ---- Order

  /** The first n items of the plan, or every target already, provide what is asked for. */
  ghost predicate Met(env: Env, plan: seq<Item>, n: nat, dependency: Dependency)
    requires n <= |plan|
  {
    dependency.id in env.catalog &&
    var id, requirement := Canonical(env.catalog[dependency.id]), Trim(dependency.requirement);
    InstalledEverywhere(env, id, requirement) || ProvidedBefore(env, plan, n, id, requirement)
  }

  ghost predicate ProvidedBefore(env: Env, plan: seq<Item>, n: nat, id: string, requirement: string)
    requires n <= |plan|
  {
    exists i :: 0 <= i < n && Key(plan[i]) == id && Satisfies(env.rank, plan[i].release.version, requirement)
  }

  ghost predicate AllMet(env: Env, plan: seq<Item>, n: nat, dependencies: seq<Dependency>)
    requires n <= |plan|
  {
    forall i :: 0 <= i < |dependencies| ==> Met(env, plan, n, dependencies[i])
  }

  ghost predicate ItemOrdered(env: Env, plan: seq<Item>, j: nat)
    requires j < |plan|
  {
    var fetched := env.fetch(plan[j].modId, plan[j].release.id);
    fetched.Some? && AllMet(env, plan, j, Wanted(fetched.value))
  }

  /** A topological order: what an item depends on comes before it. */
  ghost predicate Ordered(env: Env, plan: seq<Item>) {
    forall j :: 0 <= j < |plan| ==> ItemOrdered(env, plan, j)
  }

  /** The longer plan starts with the same releases. */
  ghost predicate Grows(p: seq<Item>, q: seq<Item>) {
    |p| <= |q| && forall i :: 0 <= i < |p| ==> p[i].modId == q[i].modId && p[i].release == q[i].release
  }

  lemma MetStays(env: Env, p: seq<Item>, q: seq<Item>, n: nat, m: nat, dependency: Dependency)
    requires Grows(p, q) && n <= |p| && n <= m <= |q| && Met(env, p, n, dependency)
    ensures Met(env, q, m, dependency)
  {
    hide Satisfies, InstalledEverywhere, Canonical, Trim, Lower;
    var id, requirement := Canonical(env.catalog[dependency.id]), Trim(dependency.requirement);
    if ProvidedBefore(env, p, n, id, requirement) {
      var i :| 0 <= i < n && Key(p[i]) == id && Satisfies(env.rank, p[i].release.version, requirement);
      assert Key(q[i]) == id && Satisfies(env.rank, q[i].release.version, requirement);
    }
  }

  lemma AllMetStays(env: Env, p: seq<Item>, q: seq<Item>, n: nat, m: nat, dependencies: seq<Dependency>)
    requires Grows(p, q) && n <= |p| && n <= m <= |q| && AllMet(env, p, n, dependencies)
    ensures AllMet(env, q, m, dependencies)
  {
    hide Met;
    forall i | 0 <= i < |dependencies|
      ensures Met(env, q, m, dependencies[i])
    {
      MetStays(env, p, q, n, m, dependencies[i]);
    }
  }

  lemma OrderedAppend(env: Env, plan: seq<Item>, item: Item)
    requires Ordered(env, plan)
    requires env.fetch(item.modId, item.release.id).Some?
    requires AllMet(env, plan, |plan|, Wanted(env.fetch(item.modId, item.release.id).value))
    ensures Ordered(env, plan + [item])
  {
    hide AllMet, Wanted;
    var q := plan + [item];
    forall j | 0 <= j < |q|
      ensures ItemOrdered(env, q, j)
    {
      if j < |plan| {
        assert ItemOrdered(env, plan, j);
        AllMetStays(env, plan, q, j, j, Wanted(env.fetch(plan[j].modId, plan[j].release.id).value));
      } else {
        AllMetStays(env, plan, q, j, j, Wanted(env.fetch(item.modId, item.release.id).value));
      }
    }
  }

  lemma OrderedSame(env: Env, p: seq<Item>, q: seq<Item>)
    requires Ordered(env, p) && Grows(p, q) && |p| == |q|
    ensures Ordered(env, q)
  {
    hide AllMet, Wanted;
    forall j | 0 <= j < |q|
      ensures ItemOrdered(env, q, j)
    {
      assert ItemOrdered(env, p, j);
      AllMetStays(env, p, q, j, j, Wanted(env.fetch(p[j].modId, p[j].release.id).value));
    }
  }

  /** Nothing was displaced on the way, and the plan only grew, in order. */
  ghost predicate KeptOrder(env: Env, s: State, r: Result) {
    r.Resolved? && r.state.replaced == {} ==> Grows(s.plan, r.state.plan) && Ordered(env, r.state.plan)
  }

  lemma {:induction false} ResolveKeepsOrder(env: Env, query: string, selected: Release, requirement: string,
                                             visiting: set<string>, s: State, root: bool)
    requires CleanIds(env) && query in env.catalog && selected in env.catalog[query].releases
    requires WellFormed(env, s) && s.resolved.Keys !! visiting && Ordered(env, s.plan)
    requires Satisfies(env.rank, selected.version, requirement)
    requires Canonical(env.catalog[query]) !in s.resolved
    ensures var r := Resolve(env, query, selected, root, requirement, visiting, s);
            && KeptOrder(env, s, r)
            && (r.Resolved? ==>
                  && |r.state.plan| > 0
                  && r.state.plan[|r.state.plan| - 1] == Item(env.catalog[query].id, selected, root, [requirement]))
    decreases Known(env) - visiting, 0, 0
  {
    hide Satisfies, Canonical, WellFormed, NoRoot, ResolveAll, CleanIds, Resolve, Known, Wanted, Ordered, Grows, AllMet;
    var id := Canonical(env.catalog[query]);
    var r := Resolve(env, query, selected, root, requirement, visiting, s);
    var wanted := ResolveUnfolds(env, query, selected, root, requirement, visiting, s);
    if r.Resolved? {
      ResolveAllKeepsForm(env, wanted, visiting + {id}, s);
      ResolveAllKeepsOrder(env, wanted, visiting + {id}, s);
      var below := ResolveAll(env, wanted, visiting + {id}, s);
      var item := Item(env.catalog[query].id, selected, root, [requirement]);
      if below.state.replaced == {} {
        OrderedAppend(env, below.state.plan, item);
        GrowsFurther(s.plan, below.state.plan, item);
      }
    }
  }

  lemma GrowsFurther(p: seq<Item>, q: seq<Item>, item: Item)
    requires Grows(p, q)
    ensures Grows(p, q + [item])
  {
  }

  lemma GrowsOn(p: seq<Item>, q: seq<Item>, r: seq<Item>)
    requires Grows(p, q) && Grows(q, r)
    ensures Grows(p, r)
  {
  }

  lemma {:induction false} ResolveAllKeepsOrder(env: Env, dependencies: seq<Dependency>, visiting: set<string>, s: State)
    requires CleanIds(env) && WellFormed(env, s) && s.resolved.Keys !! visiting && Ordered(env, s.plan)
    ensures var r := ResolveAll(env, dependencies, visiting, s);
            && KeptOrder(env, s, r)
            && (r.Resolved? && r.state.replaced == {} ==> AllMet(env, r.state.plan, |r.state.plan|, dependencies))
    decreases Known(env) - visiting, 1, |dependencies|
  {
    hide WellFormed, NoRoot, CleanIds, ResolveOne, Ordered, Grows, Met;
    if dependencies == [] {
      GrowsItself(s.plan);
    } else {
      ResolveOneKeepsForm(env, dependencies[0], visiting, s);
      ResolveOneKeepsOrder(env, dependencies[0], visiting, s);
      var next := ResolveOne(env, dependencies[0], visiting, s);
      if next.Resolved? && next.state.replaced == {} {
        var r := ResolveAll(env, dependencies[1..], visiting, next.state);
        ResolveAllKeepsForm(env, dependencies[1..], visiting, next.state);
        ResolveAllKeepsOrder(env, dependencies[1..], visiting, next.state);
        if r.Resolved? && r.state.replaced == {} {
          GrowsOn(s.plan, next.state.plan, r.state.plan);
          GrowsIsLonger(next.state.plan, r.state.plan);
          MetStays(env, next.state.plan, r.state.plan, |next.state.plan|, |r.state.plan|, dependencies[0]);
          assert AllMet(env, r.state.plan, |r.state.plan|, dependencies[1..]);
          assert forall i :: 1 <= i < |dependencies| ==> dependencies[i] == dependencies[1..][i - 1];
        }
      } else if next.Resolved? {
        ResolveAllKeepsForm(env, dependencies[1..], visiting, next.state);
      }
    }
  }

  lemma GrowsItself(p: seq<Item>)
    ensures Grows(p, p)
  {
  }

  lemma GrowsIsLonger(p: seq<Item>, q: seq<Item>)
    requires Grows(p, q)
    ensures |p| <= |q|
  {
  }

  lemma {:induction false} ResolveOneKeepsOrder(env: Env, dependency: Dependency, visiting: set<string>, s: State)
    requires CleanIds(env) && WellFormed(env, s) && s.resolved.Keys !! visiting && Ordered(env, s.plan)
    ensures var r := ResolveOne(env, dependency, visiting, s);
            && KeptOrder(env, s, r)
            && (r.Resolved? && r.state.replaced == {} ==> Met(env, r.state.plan, |r.state.plan|, dependency))
    decreases Known(env) - visiting, 1, 0
  {
    hide WellFormed, NoRoot, Satisfies, Trim, Canonical, InstalledEverywhere, Displaced, WithRequirement, CleanIds,
         Ordered, Grows, ProvidedBefore, Resolve;
    if dependency.id in env.catalog {
      var requirement := Trim(dependency.requirement);
      var details := env.catalog[dependency.id];
      var id := Canonical(details);
      if AlreadyGood(env, id, requirement, s) {
        RecordingKeepsOrder(env, s, id, requirement);
      } else {
        DisplacedKeepsForm(env, s, dependency.id);
        var t := Displaced(s, details);
        DisplacedKeepsHistory(s, details);
        GrowsItself(s.plan);
        var release := FindRelease(env, details.releases, requirement);
        if !InstalledEverywhere(env, id, requirement) && release.Some? {
          FoundReleaseQualifies(env, details.releases, requirement);
          ResolveKeepsForm(env, dependency.id, release.value, requirement, visiting, t, false);
          if t.replaced == {} {
            ResolveKeepsOrder(env, dependency.id, release.value, requirement, visiting, s, false);
            var r := Resolve(env, dependency.id, release.value, false, requirement, visiting, s);
            if r.Resolved? {
              LastIsNamed(env, r.state);
              LastProvides(env, r.state.plan, dependency.id, release.value, requirement);
            }
          }
        }
      }
    }
  }

  lemma LastIsNamed(env: Env, s: State)
    requires WellFormed(env, s) && |s.plan| > 0
    ensures Trim(s.plan[|s.plan| - 1].modId) != ""
  {
    assert GoodItem(env, s.resolved, s.plan[|s.plan| - 1]);
  }

  lemma LastProvides(env: Env, plan: seq<Item>, query: string, release: Release, requirement: string)
    requires query in env.catalog && |plan| > 0 && Trim(env.catalog[query].id) != ""
    requires plan[|plan| - 1] == Item(env.catalog[query].id, release, false, [requirement])
    requires Satisfies(env.rank, release.version, requirement)
    ensures ProvidedBefore(env, plan, |plan|, Canonical(env.catalog[query]), requirement)
  {
    hide Satisfies, Canonical, Key;
    CanonicalIsKey(env, query, plan[|plan| - 1]);
  }

  lemma RecordingKeepsOrder(env: Env, s: State, id: string, requirement: string)
    requires WellFormed(env, s) && AlreadyGood(env, id, requirement, s) && Ordered(env, s.plan)
    ensures var q := WithRequirement(s.plan, id, requirement);
            Grows(s.plan, q) && Ordered(env, q) && ProvidedBefore(env, q, |q|, id, requirement)
  {
    hide Satisfies, Ordered, Key, SameButRequirement, WithRequirement;
    var q := WithRequirement(s.plan, id, requirement);
    forall i | 0 <= i < |q|
      ensures q[i].modId == s.plan[i].modId && q[i].release == s.plan[i].release && Key(q[i]) == Key(s.plan[i])
    {
      WithRequirementAt(s.plan, id, requirement, i);
      SameKey(s.plan[i], q[i], id, requirement);
    }
    OrderedSame(env, s.plan, q);
    assert HasKey(s.plan, id);
    var i :| 0 <= i < |s.plan| && Key(s.plan[i]) == id;
    assert GoodItem(env, s.resolved, s.plan[i]);
    assert Key(q[i]) == id && Satisfies(env.rank, q[i].release.version, requirement);
  }

  lemma SameKey(item: Item, r: Item, id: string, requirement: string)
    requires SameButRequirement(item, r, id, requirement)
    ensures r.modId == item.modId && r.release == item.release && Key(r) == Key(item)
  {
  }

  // ---- Main results

  const START := State(map[], [], {})

  /** What a successful resolution plans: one item for each mod it resolved, each with a
      listed release that satisfies every requirement recorded on it, whatever shared
      dependencies were replaced; last comes the mod the user asked for, the only root. */
  lemma PlanIsSound(env: Env, query: string, selected: Release)
    requires CleanIds(env) && query in env.catalog && selected in env.catalog[query].releases
    ensures var r := Resolve(env, query, selected, true, "", {}, START);
            r.Resolved? ==>
              var plan := r.state.plan;
              && WellFormed(env, r.state)
              && |plan| > 0
              && plan[|plan| - 1] == Item(env.catalog[query].id, selected, true, [""])
              && NoRoot(plan[..|plan| - 1])
  {
    hide Satisfies, Canonical, WellFormed, NoRoot, ResolveAll, CleanIds, Resolve, Known, Wanted;
    var id := Canonical(env.catalog[query]);
    var r := Resolve(env, query, selected, true, "", {}, START);
    StartIsGood(env, selected);
    var wanted := ResolveUnfolds(env, query, selected, true, "", {}, START);
    if r.Resolved? {
      ResolveAllKeepsForm(env, wanted, {} + {id}, START);
      var below := ResolveAll(env, wanted, {} + {id}, START);
      AppendingKeepsForm(env, query, selected, "", below.state, true);
      NoRootAppended(below.state.plan, Item(env.catalog[query].id, selected, true, [""]));
    }
  }

  lemma StartIsGood(env: Env, selected: Release)
    ensures WellFormed(env, START) && NoRoot(START.plan) && Ordered(env, START.plan)
    ensures Satisfies(env.rank, selected.version, "")
  {
  }

  /** When no shared dependency was replaced, the plan is a topological order. */
  lemma PlanIsOrdered(env: Env, query: string, selected: Release)
    requires CleanIds(env) && query in env.catalog && selected in env.catalog[query].releases
    ensures var r := Resolve(env, query, selected, true, "", {}, START);
            r.Resolved? && r.state.replaced == {} ==> Ordered(env, r.state.plan)
  {
    hide Satisfies, Canonical, WellFormed, NoRoot, ResolveAll, CleanIds, Resolve, Known, Wanted, Ordered;
    StartIsGood(env, selected);
    ResolveKeepsOrder(env, query, selected, "", {}, START, true);
  }
}
