/** Two branches that need different releases of a shared dependency, which the second one
    asks for under another name. */
module ReplacementExample {
  import opened Prelude
  import opened Text
  import opened Requirements
  import opened Resolver
  import opened InstallPlans

  const RANK: Ranking := (v: string) => if v == "v1" then Some(1.0) else if v == "v2" then Some(2.0) else None

  function Of(version: string): Release {
    Release(version, version, "https://", [])
  }

  /** spelling is how the catalog writes the identifier of the library when it is asked for
      it as "m". */
  function Catalog(spelling: string): map<string, Details> {
    map["r" := Details("r", "", [Of("1")]),
        "a" := Details("a", "", [Of("1")]),
        "b" := Details("b", "", [Of("1")]),
        "l" := Details("l", "", [Of("1"), Of("2")]),
        "m" := Details(spelling, "", [Of("1"), Of("2")])]
  }

  function Dependencies(modId: string): seq<Dependency> {
    match modId
    case "r" => [Dependency("a", ""), Dependency("b", "")]
    case "a" => [Dependency("l", "=1")]
    case "b" => [Dependency("m", "=2")]
    case _ => []
  }

  function Site(spelling: string): Env {
    Env(Catalog(spelling), (modId: string, _) => Some(Dependencies(modId)), RANK, (_, _) => 0, (_, _) => true, [], false, map[])
  }

  predicate Spelled(spelling: string) {
    spelling == "l" || spelling == "l "
  }

  // ---- Small facts about the texts

  predicate Plain(id: string) {
    |id| == 1 && 'a' <= id[0] <= 'z'
  }

  lemma PlainIds(id: string)
    requires Plain(id)
    ensures Trim(id) == id && Lower(id) == id && !BuiltIn(id) && Trimmed(id)
  {
    hide Trim;
    TrimmedStays(id);
    assert Lower(id) == id;
  }

  lemma CanonicalIds(spelling: string, id: string)
    requires Spelled(spelling) && id in {"r", "a", "b", "l"}
    ensures Catalog(spelling)[id].id == id && Plain(id) && Canonical(Catalog(spelling)[id]) == id
    ensures SafeSegment(id)
  {
    hide Trim, Lower, BuiltIn;
    PlainIds(id);
    assert id[0] != '.' && id[0] != '/' && id[0] != '\\';
  }

  lemma LibraryIds(spelling: string, query: string)
    requires Spelled(spelling) && query in {"l", "m"}
    ensures Canonical(Catalog(spelling)[query]) == "l"
    ensures SafeSegment(Catalog(spelling)[query].id)
  {
    hide Lower;
    PlainIds("l");
    TrimAround("", "l", " ");
    assert "" + "l" + " " == "l ";
  }

  lemma ReleaseIds(version: string)
    requires version in {"1", "2"}
    ensures SafeSegment(version)
  {
    TrimmedStays(version);
    assert version[0] != '.' && version[0] != '/' && version[0] != '\\';
  }

  lemma Ranks()
    ensures Normalized(RANK, "1") == Some(1.0) && Normalized(RANK, "2") == Some(2.0)
  {
    hide Normalized;
    Rank("1");
    Rank("2");
    assert "v" + "1" == "v1" && "v" + "2" == "v2";
  }

  lemma Rank(version: string)
    requires |version| == 1 && '0' <= version[0] <= '9'
    ensures Normalized(RANK, version) == RANK("v" + version)
  {
    hide Trim;
    TrimmedStays(version);
    assert Lower(version)[0] == version[0];
  }

  lemma Meaning(version: string, bound: string)
    requires version in {"1", "2"} && bound in {"1", "2"}
    ensures Satisfies(RANK, version, "=" + bound) <==> version == bound
    ensures Trim("=" + bound) == "=" + bound
  {
    hide Trim, Normalized, Satisfies;
    Ranks();
    assert OPERATORS[5] == "=";
    RequirementMeaning(RANK, version, "=", bound, "", "", "");
    assert "" + ("=" + "" + bound) + "" == "=" + bound;
    TrimmedStays("=" + bound);
  }

  // ---- The run

  lemma NothingInstalled(spelling: string, id: string, requirement: string)
    ensures !InstalledEverywhere(Site(spelling), id, requirement)
  {
  }

  lemma OneOf(spelling: string, id: string)
    requires id in {"r", "a", "b"}
    ensures FindRelease(Site(spelling), Catalog(spelling)[id].releases, "") == Some(Of("1"))
  {
    assert Candidate(Site(spelling), Of("1"), "", false);
  }

  lemma LibraryRelease(spelling: string, query: string, version: string)
    requires query in {"l", "m"} && version in {"1", "2"}
    ensures FindRelease(Site(spelling), Catalog(spelling)[query].releases, "=" + version) == Some(Of(version))
  {
    hide Satisfies, Trim;
    Meaning("1", version);
    Meaning("2", version);
    var all, env := Catalog(spelling)[query].releases, Site(spelling);
    assert "https://" <= Of("1").url && "https://" <= Of("2").url;
    assert Candidate(env, Of("1"), "=" + version, false) <==> version == "1";
    assert Candidate(env, Of("2"), "=" + version, false) <==> version == "2";
    OneCandidate(env, all, "=" + version, Of(version));
  }

  lemma OneCandidate(env: Env, all: seq<Release>, requirement: string, r: Release)
    requires |all| == 2 && all[0] != all[1] && r in all && !env.allowIncompatible
    requires forall x :: x in all ==> (Candidate(env, x, requirement, false) <==> x == r)
    ensures FindRelease(env, all, requirement) == Some(r)
  {
    hide Candidate;
    var found := Candidates(env, all, requirement, false);
    CandidatesQualify(env, all, requirement, false);
    assert r in found;
    assert forall x :: x in found ==> x == r;
    assert found[env.pick(found, requirement) % |found|] in found;
  }

  function LibraryItem(id: string, version: string): Item {
    Item(id, Of(version), false, ["=" + version])
  }

  lemma LibraryResolves(spelling: string, query: string, version: string, visiting: set<string>, s: State)
    requires Spelled(spelling) && query in {"l", "m"} && version in {"1", "2"} && "l" !in visiting && "l" !in s.resolved
    ensures Resolve(Site(spelling), query, Of(version), false, "=" + version, visiting, s)
            == Resolved(Appended(s, "l", LibraryItem(Catalog(spelling)[query].id, version)))
  {
    hide Canonical, Known, Appended, BuiltIn, SafeSegment;
    LibraryIds(spelling, query);
    ReleaseIds(version);
    NothingBelow(spelling, visiting + {"l"}, s);
    assert Dependencies(Catalog(spelling)[query].id) == [];
  }

  lemma NothingBelow(spelling: string, visiting: set<string>, s: State)
    ensures ResolveAll(Site(spelling), Wanted([]), visiting, s) == Resolved(s)
  {
  }

  lemma {:induction false} NothingBuiltIn(dependencies: seq<Dependency>)
    requires forall d :: d in dependencies ==> !BuiltIn(d.id)
    ensures Wanted(dependencies) == dependencies
  {
    hide BuiltIn;
    if dependencies != [] {
      assert dependencies[0] in dependencies;
      NothingBuiltIn(dependencies[1..]);
    }
  }

  lemma AllWanted(id: string)
    ensures Wanted(Dependencies(id)) == Dependencies(id)
  {
    hide BuiltIn, Wanted;
    PlainIds("a");
    PlainIds("b");
    PlainIds("l");
    PlainIds("m");
    NothingBuiltIn(Dependencies(id));
  }

  lemma AllOfOne(env: Env, d: Dependency, visiting: set<string>, s: State)
    ensures ResolveAll(env, [d], visiting, s) == ResolveOne(env, d, visiting, s)
  {
    hide ResolveOne;
    assert [d][1..] == [];
  }

  /** What each of the two mods asks for. */
  function Library(id: string): Dependency {
    if id == "a" then Dependency("l", "=1") else Dependency("m", "=2")
  }

  /** A mod whose only dependency is the library. */
  lemma DependentResolves(spelling: string, id: string, s: State, t: State)
    requires Spelled(spelling) && id in {"a", "b"} && id !in s.resolved
    requires ResolveOne(Site(spelling), Library(id), {"r"} + {id}, s) == Resolved(t)
    ensures Resolve(Site(spelling), id, Of("1"), false, "", {"r"}, s) == Resolved(Appended(t, id, Item(id, Of("1"), false, [""])))
  {
    hide Canonical, Known, Appended, BuiltIn, ResolveOne, ResolveAll, Wanted, SafeSegment;
    CanonicalIds(spelling, id);
    ReleaseIds("1");
    AllWanted(id);
    AllOfOne(Site(spelling), Library(id), {"r"} + {id}, s);
    assert Dependencies(id) == [Library(id)];
  }

  /** A dependency of the root that has not been resolved. */
  lemma BranchResolves(spelling: string, id: string, s: State, t: State)
    requires Spelled(spelling) && id in {"a", "b"} && id !in s.resolved
    requires Resolve(Site(spelling), id, Of("1"), false, "", {"r"}, s) == Resolved(t)
    ensures ResolveOne(Site(spelling), Dependency(id, ""), {"r"}, s) == Resolved(t)
  {
    hide Canonical, FindRelease, Resolve, InstalledEverywhere, Satisfies;
    CanonicalIds(spelling, id);
    OneOf(spelling, id);
    NothingInstalled(spelling, id, "");
    assert Trim("") == "";
  }

  lemma LibraryBranch(spelling: string, query: string, version: string, visiting: set<string>, s: State)
    requires Spelled(spelling) && query in {"l", "m"} && version in {"1", "2"} && "l" !in visiting
    requires "l" in s.resolved ==> s.resolved["l"] == Of("1") && version == "2"
    ensures ResolveOne(Site(spelling), Dependency(query, "=" + version), visiting, s)
            == Resolved(Appended(Displaced(s, Catalog(spelling)[query]), "l", LibraryItem(Catalog(spelling)[query].id, version)))
  {
    hide FindRelease, Resolve, InstalledEverywhere, Satisfies, Appended, Without, Trim, Lower, Canonical, SafeSegment;
    LibraryIds(spelling, query);
    Meaning("1", version);
    LibraryRelease(spelling, query, version);
    NothingInstalled(spelling, "l", "=" + version);
    LibraryResolves(spelling, query, version, visiting, Displaced(s, Catalog(spelling)[query]));
  }

  const A := Item("a", Of("1"), false, [""])
  const B := Item("b", Of("1"), false, [""])
  const R := Item("r", Of("1"), true, [""])
  const FIRST := LibraryItem("l", "1")

  const AFTER_A := State(map["l" := Of("1"), "a" := Of("1")], [FIRST, A], {})

  /** What is left of the plan when the library gives way. */
  function Left(spelling: string): seq<Item> {
    if spelling == "l" then [A] else [FIRST, A]
  }

  function AfterB(spelling: string): State {
    State(map["a" := Of("1"), "l" := Of("2"), "b" := Of("1")], Left(spelling) + [LibraryItem(spelling, "2"), B], {"l"})
  }

  lemma FirstBranch(spelling: string)
    requires Spelled(spelling)
    ensures ResolveOne(Site(spelling), Dependency("a", ""), {"r"}, START) == Resolved(AFTER_A)
  {
    hide Resolve, ResolveOne, Canonical;
    LibraryBranch(spelling, "l", "1", {"r"} + {"a"}, START);
    var t := Appended(START, "l", FIRST);
    LibraryIds(spelling, "l");
    assert Displaced(START, Catalog(spelling)["l"]) == START;
    assert Library("a") == Dependency("l", "=" + "1");
    DependentResolves(spelling, "a", START, t);
    assert Appended(t, "a", A) == AFTER_A;
    BranchResolves(spelling, "a", START, AFTER_A);
  }

  lemma WhatGivesWay(spelling: string)
    requires Spelled(spelling)
    ensures Without([FIRST, A], spelling) == Left(spelling)
  {
    assert Lower("l")[0] != Lower("a")[0] && |Lower("l ")| != |Lower("l")| && |Lower("l ")| != |Lower("a")|;
    assert [FIRST, A][1..] == [A] && [A][1..] == [];
    assert Without([A], spelling) == [A];
  }

  lemma SecondBranch(spelling: string)
    requires Spelled(spelling)
    ensures ResolveOne(Site(spelling), Dependency("b", ""), {"r"}, AFTER_A) == Resolved(AfterB(spelling))
  {
    hide Resolve, ResolveOne, Canonical, Without;
    LibraryBranch(spelling, "m", "2", {"r"} + {"b"}, AFTER_A);
    LibraryIds(spelling, "m");
    WhatGivesWay(spelling);
    var displaced := Displaced(AFTER_A, Catalog(spelling)["m"]);
    assert displaced == State(map["a" := Of("1")], Left(spelling), {"l"}) by {
      assert AFTER_A.resolved - {"l"} == map["a" := Of("1")];
    }
    var t := Appended(displaced, "l", LibraryItem(spelling, "2"));
    assert Library("b") == Dependency("m", "=" + "2");
    DependentResolves(spelling, "b", AFTER_A, t);
    assert Appended(t, "b", B) == AfterB(spelling) by {
      assert Left(spelling) + [LibraryItem(spelling, "2")] + [B] == Left(spelling) + [LibraryItem(spelling, "2"), B];
    }
    BranchResolves(spelling, "b", AFTER_A, AfterB(spelling));
  }

  lemma BothBranches(spelling: string, first: Dependency, second: Dependency)
    requires Spelled(spelling) && first == Dependency("a", "") && second == Dependency("b", "")
    ensures ResolveAll(Site(spelling), [first, second], {"r"}, START) == Resolved(AfterB(spelling))
  {
    hide ResolveOne;
    FirstBranch(spelling);
    SecondBranch(spelling);
    assert [first, second][1..] == [second];
    AllOfOne(Site(spelling), second, {"r"}, AFTER_A);
  }

  function Final(spelling: string): State {
    Appended(AfterB(spelling), "r", R)
  }

  lemma RootResolves(spelling: string)
    requires Spelled(spelling)
    ensures Resolve(Site(spelling), "r", Of("1"), true, "", {}, START) == Resolved(Final(spelling))
  {
    hide Canonical, ResolveAll, Known, BuiltIn, Wanted, SafeSegment, Appended;
    var first, second := Dependency("a", ""), Dependency("b", "");
    BothBranches(spelling, first, second);
    CanonicalIds(spelling, "r");
    ReleaseIds("1");
    AllWanted("r");
    assert {} + {"r"} == {"r"};
    assert Dependencies("r") == [first, second];
  }

  /** The resolution succeeds and plans the second release only, although the mod it plans
      first needs the first one: the conflict is not reported, and the order is lost. */
  lemma ConflictGoesUnnoticed()
    ensures CleanIds(Site("l"))
    ensures Resolve(Site("l"), "r", Of("1"), true, "", {}, START) == Resolved(Final("l"))
    ensures Final("l").plan == [A, LibraryItem("l", "2"), B, R]
    ensures Dependency("l", "=1") in Site("l").fetch("a", "1").value
    ensures !Met(Site("l"), Final("l").plan, 4, Dependency("l", "=1"))
  {
    hide Canonical, Resolve, ResolveAll, Known, BuiltIn, Wanted, Met, CleanIds;
    RootResolves("l");
    NotProvided();
    CleanCatalog();
  }

  /** When the catalog writes the library's identifier with a space at the end the second
      time, the first release is not taken out of the plan: it has two items for one mod. */
  lemma SpellingExample()
    ensures Resolve(Site("l "), "r", Of("1"), true, "", {}, START) == Resolved(Final("l "))
    ensures Final("l ").plan == [FIRST, A, LibraryItem("l ", "2"), B, R]
    ensures Key(FIRST) == Key(LibraryItem("l ", "2")) && !OneItemEach(Final("l ").plan)
  {
    hide Canonical, Resolve, ResolveAll, Known, BuiltIn, Wanted;
    RootResolves("l ");
    PlainIds("l");
    TrimAround("", "l", " ");
    assert "" + "l" + " " == "l ";
    var plan := Final("l ").plan;
    assert Key(plan[0]) == Key(plan[2]);
  }

  lemma CleanCatalog()
    ensures CleanIds(Site("l"))
  {
    hide Canonical, Trim, Lower, BuiltIn;
    LibraryIds("l", "m");
    CanonicalIds("l", "r");
    CanonicalIds("l", "a");
    CanonicalIds("l", "b");
    CanonicalIds("l", "l");
  }

  lemma NotProvided()
    ensures !Met(Site("l"), [A, LibraryItem("l", "2"), B, R], 4, Dependency("l", "=1"))
  {
    hide Satisfies, Trim, Canonical, InstalledEverywhere;
    CanonicalIds("l", "l");
    Meaning("2", "1");
    assert "=" + "1" == "=1";
    NothingInstalled("l", "l", "=1");
    var plan := [A, LibraryItem("l", "2"), B, R];
    forall i | 0 <= i < 4
      ensures !(Key(plan[i]) == "l" && Satisfies(RANK, plan[i].release.version, "=1"))
    {
      PlainIds(plan[i].modId);
    }
  }
}
