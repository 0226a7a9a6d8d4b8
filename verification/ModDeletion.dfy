/** Which mods go together with a deleted one, and what deleting several does. */
module ModDeletion {
  import opened Prelude

  /** What a readable mod archive says about itself; identifiers are already normalised. */
  datatype Archive = Archive(modId: string, dependencies: set<string>)

  datatype Installed = Installed(id: string, archive: Option<Archive>)

  predicate BuiltIn(modId: string) {
    modId in {"game", "survival", "creative"}
  }

  predicate Readable(mod: Installed) {
    mod.archive.Some? && mod.archive.value.modId != ""
  }

  ghost predicate Needs(mods: seq<Installed>, id: string, key: string) {
    exists i :: 0 <= i < |mods| && mods[i].id == id && NeedsKey(mods[i], key)
  }

  predicate NeedsKey(mod: Installed, key: string) {
    Readable(mod) && key in mod.archive.value.dependencies && !BuiltIn(key)
  }

  ghost predicate Provides(mods: seq<Installed>, id: string, key: string) {
    exists i :: 0 <= i < |mods| && mods[i].id == id && ProvidesKey(mods[i], key)
  }

  predicate ProvidesKey(mod: Installed, key: string) {
    Readable(mod) && mod.archive.value.modId == key
  }

  ghost predicate DistinctIds(mods: seq<Installed>) {
    forall i, j :: 0 <= i < j < |mods| ==> mods[i].id != mods[j].id
  }

  /** A mod needs what its archive lists, unless that is the game itself. */
  lemma NeedsIff(mods: seq<Installed>, i: int, key: string)
    requires DistinctIds(mods) && 0 <= i < |mods|
    ensures Needs(mods, mods[i].id, key) <==>
            && mods[i].archive.Some? && mods[i].archive.value.modId != "" && key in mods[i].archive.value.dependencies
            && key != "game" && key != "survival" && key != "creative"
  {
    if NeedsKey(mods[i], key) {
      assert Needs(mods, mods[i].id, key);
    }
  }

  // ---- The specification

  /** A member needs the key and nobody outside does. */
  ghost predicate Orphaned(mods: seq<Installed>, members: set<string>, key: string) {
    && (exists id :: id in members && Needs(mods, id, key))
    && (forall id :: Needs(mods, id, key) ==> id in members)
  }

  ghost predicate Closed(mods: seq<Installed>, target: string, members: set<string>) {
    && target in members
    && forall key, id :: Orphaned(mods, members, key) && Provides(mods, id, key) ==> id in members
  }

  ghost predicate LeastClosed(mods: seq<Installed>, target: string, members: set<string>) {
    && Closed(mods, target, members)
    && forall other :: Closed(mods, target, other) ==> members <= other
  }

  /** Whatever order dependencies and records are visited in, the result is the same. */
  lemma LeastClosedIsUnique(mods: seq<Installed>, target: string, a: set<string>, b: set<string>)
    requires LeastClosed(mods, target, a) && LeastClosed(mods, target, b)
    ensures a == b
  {
    assert a <= b && b <= a;
  }

  /** No survivor needs a deleted mod, except possibly the one the user chose. */
  lemma SurvivorsKeepTheirDependencies(mods: seq<Installed>, target: string, members: set<string>,
                                       survivor: string, deleted: string, key: string)
    requires DistinctIds(mods) && LeastClosed(mods, target, members)
    requires deleted in members && deleted != target && Provides(mods, deleted, key)
    requires survivor !in members
    ensures !Needs(mods, survivor, key)
  {
    if Needs(mods, survivor, key) {
      var smaller := members - {deleted};
      OneKeyEach(mods, deleted, key);
      forall k, id | Orphaned(mods, smaller, k) && Provides(mods, id, k)
        ensures id in smaller
      {
        assert Orphaned(mods, members, k);
      }
      assert Closed(mods, target, smaller);
    }
  }

  lemma OneKeyEach(mods: seq<Installed>, id: string, key: string)
    requires DistinctIds(mods) && Provides(mods, id, key)
    ensures forall k :: Provides(mods, id, k) ==> k == key
  {
    var i :| 0 <= i < |mods| && mods[i].id == id && ProvidesKey(mods[i], key);
    assert forall j :: 0 <= j < |mods| && mods[j].id == id ==> j == i;
  }

  // ---- The worklist

  function Lookup(m: map<string, seq<string>>, k: string): seq<string> {
    if k in m then m[k] else []
  }

  ghost function Elements(s: seq<string>): set<string> {
    set x | x in s
  }

  ghost predicate NoDuplicates<T>(s: seq<T>) {
    forall i, j :: 0 <= i < j < |s| ==> s[i] != s[j]
  }

  method Index(mods: seq<Installed>) returns (requiredBy: map<string, seq<string>>, providers: map<string, seq<string>>)
    ensures forall id, key :: key in Lookup(requiredBy, id) <==> Needs(mods, id, key)
    ensures forall id, key :: id in Lookup(providers, key) <==> Provides(mods, id, key)
  {
    hide Needs, Provides;
    requiredBy, providers := map[], map[];
    NothingYet(mods);
    for i := 0 to |mods|
      invariant forall id, key :: key in Lookup(requiredBy, id) <==> Needs(mods[..i], id, key)
      invariant forall id, key :: id in Lookup(providers, key) <==> Provides(mods[..i], id, key)
    {
      var mod := mods[i];
      OneMore(mods[..i], mod, mods[..i + 1]);
      ghost var before := requiredBy;
      if Readable(mod) {
        requiredBy := AddRequirements(requiredBy, mod);
        AllAdded(before, requiredBy, mod);
        assert forall id, key :: key in Lookup(requiredBy, id) <==> key in Lookup(before, id) || (id == mod.id && NeedsKey(mod, key));
        var key := mod.archive.value.modId;
        providers := providers[key := Lookup(providers, key) + [mod.id]];
      }
      forall id, key
        ensures key in Lookup(requiredBy, id) <==> Needs(mods[..i + 1], id, key)
      {
        assert key in Lookup(before, id) <==> Needs(mods[..i], id, key);
        assert Needs(mods[..i + 1], id, key) <==> Needs(mods[..i], id, key) || (mod.id == id && NeedsKey(mod, key));
        assert key in Lookup(requiredBy, id) <==> key in Lookup(before, id) || (id == mod.id && NeedsKey(mod, key));
      }
    }
    assert mods[..|mods|] == mods;
  }

  lemma NothingYet(mods: seq<Installed>)
    ensures forall id, key :: !Needs(mods[..0], id, key) && !Provides(mods[..0], id, key)
  {}

  /** Exactly these keys are added for the mod, less the built-in ones. */
  ghost predicate Adds(before: map<string, seq<string>>, after: map<string, seq<string>>, mod: Installed, keys: set<string>) {
    forall id, key :: AddsKey(before, after, mod, keys, id, key)
  }

  predicate AddsKey(before: map<string, seq<string>>, after: map<string, seq<string>>, mod: Installed, keys: set<string>, id: string, key: string) {
    key in Lookup(after, id) <==> key in Lookup(before, id) || (id == mod.id && key in keys && !BuiltIn(key))
  }

  method AddRequirements(requiredBy0: map<string, seq<string>>, mod: Installed) returns (requiredBy: map<string, seq<string>>)
    requires Readable(mod)
    ensures Adds(requiredBy0, requiredBy, mod, mod.archive.value.dependencies)
  {
    hide Adds;
    requiredBy := requiredBy0;
    ghost var all := mod.archive.value.dependencies;
    var pending := mod.archive.value.dependencies;
    NothingAdded(requiredBy0, mod);
    assert all - pending == {};
    while pending != {}
      invariant pending <= all && Adds(requiredBy0, requiredBy, mod, all - pending)
      decreases pending
    {
      var dependency :| dependency in pending;
      AddOne(requiredBy0, requiredBy, mod, all - pending, dependency);
      if !BuiltIn(dependency) {
        requiredBy := requiredBy[mod.id := Lookup(requiredBy, mod.id) + [dependency]];
      }
      assert all - (pending - {dependency}) == all - pending + {dependency};
      pending := pending - {dependency};
    }
    assert all - pending == all;
  }

  lemma NothingAdded(before: map<string, seq<string>>, mod: Installed)
    ensures Adds(before, before, mod, {})
  {
  }

  lemma AddOne(before: map<string, seq<string>>, so: map<string, seq<string>>, mod: Installed, keys: set<string>, key: string)
    requires Adds(before, so, mod, keys)
    ensures Adds(before, if BuiltIn(key) then so else so[mod.id := Lookup(so, mod.id) + [key]], mod, keys + {key})
  {
    var after := if BuiltIn(key) then so else so[mod.id := Lookup(so, mod.id) + [key]];
    forall id, k
      ensures AddsKey(before, after, mod, keys + {key}, id, k)
    {
      assert AddsKey(before, so, mod, keys, id, k);
    }
  }

  lemma AllAdded(before: map<string, seq<string>>, after: map<string, seq<string>>, mod: Installed)
    requires Readable(mod) && Adds(before, after, mod, mod.archive.value.dependencies)
    ensures forall id, key :: key in Lookup(after, id) <==> key in Lookup(before, id) || (id == mod.id && NeedsKey(mod, key))
  {
    forall id, key
      ensures key in Lookup(after, id) <==> key in Lookup(before, id) || (id == mod.id && NeedsKey(mod, key))
    {
      assert AddsKey(before, after, mod, mod.archive.value.dependencies, id, key);
    }
  }

  lemma OneMore(before: seq<Installed>, mod: Installed, after: seq<Installed>)
    requires after == before + [mod]
    ensures forall id, key :: Needs(after, id, key) <==> Needs(before, id, key) || (mod.id == id && NeedsKey(mod, key))
    ensures forall id, key :: Provides(after, id, key) <==> Provides(before, id, key) || (mod.id == id && ProvidesKey(mod, key))
  {
    assert after[|before|] == mod;
    assert forall j :: 0 <= j < |before| ==> after[j] == before[j];
  }

  /** stillRequiredByOther */
  method StillRequiredByOther(mods: seq<Installed>, deleting: set<string>, requiredBy: map<string, seq<string>>, key: string)
    returns (required: bool)
    requires forall id, k :: k in Lookup(requiredBy, id) <==> Needs(mods, id, k)
    ensures required <==> exists id :: Needs(mods, id, key) && id !in deleting
  {
    for i := 0 to |mods|
      invariant forall j :: 0 <= j < i && mods[j].id !in deleting ==> !Needs(mods, mods[j].id, key)
    {
      if mods[i].id in deleting { continue; }
      if key in Lookup(requiredBy, mods[i].id) { return true; }
    }
    required := false;
  }

  /** modDeletionSet: the chosen mod first, then every dependency nobody else needs. */
  method ModDeletionSet(mods: seq<Installed>, target: string) returns (ordered: seq<string>)
    ensures ordered != [] && ordered[0] == target && NoDuplicates(ordered)
    ensures LeastClosed(mods, target, Elements(ordered))
  {
    hide Needs, Provides, Orphaned, Closed, NoDuplicates, Lookup;
    var requiredBy, providers := Index(mods);
    ordered := [target];
    StartClosed(mods, target);
    var index := 0;
    while index < |ordered|
      invariant 0 <= index <= |ordered| && ordered != [] && ordered[0] == target
      invariant NoDuplicates(ordered)
      invariant forall other :: Closed(mods, target, other) ==> Elements(ordered) <= other
      invariant AllHandled(mods, Elements(ordered[..index]), Elements(ordered))
      invariant forall id :: id in Elements(ordered) ==> id == target || id in Ids(mods)
      decreases |Ids(mods) + {target}| - index
    {
      Bounded(ordered, index, Ids(mods) + {target});
      ordered := Expand(mods, target, ordered, index, requiredBy, providers);
      index := index + 1;
    }
    assert ordered[..index] == ordered;
    EverythingHandled(mods, target, ordered);
  }

  lemma StartClosed(mods: seq<Installed>, target: string)
    ensures NoDuplicates([target])
    ensures forall other :: Closed(mods, target, other) ==> Elements([target]) <= other
  {}

  lemma EverythingHandled(mods: seq<Installed>, target: string, ordered: seq<string>)
    requires ordered != [] && ordered[0] == target
    requires AllHandled(mods, Elements(ordered), Elements(ordered))
    ensures Closed(mods, target, Elements(ordered))
  {
    var members := Elements(ordered);
    forall key, id | Orphaned(mods, members, key) && Provides(mods, id, key)
      ensures id in members
    {
      assert Handled(mods, members, members, key);
    }
  }

  /** One turn of the worklist: the dependencies of the mod at index. */
  method Expand(mods: seq<Installed>, ghost target: string, ordered0: seq<string>, index: nat,
                requiredBy: map<string, seq<string>>, providers: map<string, seq<string>>) returns (ordered: seq<string>)
    requires forall id, key :: key in Lookup(requiredBy, id) <==> Needs(mods, id, key)
    requires forall id, key :: id in Lookup(providers, key) <==> Provides(mods, id, key)
    requires index < |ordered0| && NoDuplicates(ordered0)
    requires forall other :: Closed(mods, target, other) ==> Elements(ordered0) <= other
    requires AllHandled(mods, Elements(ordered0[..index]), Elements(ordered0))
    ensures ordered0 <= ordered && NoDuplicates(ordered)
    ensures forall other :: Closed(mods, target, other) ==> Elements(ordered) <= other
    ensures AllHandled(mods, Elements(ordered[..index + 1]), Elements(ordered))
    ensures forall id :: id in Elements(ordered) ==> id in Elements(ordered0) || id in Ids(mods)
  {
    hide Needs, Provides, Orphaned, Closed, NoDuplicates, Ids;
    ordered := ordered0;
    var current := ordered0[index];
    ghost var processed := Elements(ordered0[..index + 1]);
    var dependencies := Lookup(requiredBy, current);
    for j := 0 to |dependencies|
      invariant ordered0 <= ordered && NoDuplicates(ordered)
      invariant forall other :: Closed(mods, target, other) ==> Elements(ordered) <= other
      invariant forall k :: 0 <= k < j ==> Resolved(mods, processed, Elements(ordered), dependencies[k])
      invariant forall id :: id in Elements(ordered) ==> id in Elements(ordered0) || id in Ids(mods)
    {
      var key := dependencies[j];
      var required := StillRequiredByOther(mods, (set x | x in ordered), requiredBy, key);
      if Lookup(providers, key) == [] || required {
        assert processed <= Elements(ordered);
        assert Resolved(mods, processed, Elements(ordered), key);
        continue;
      }
      IsOrphaned(mods, Elements(ordered), current, key);
      ordered := AddProviders(mods, target, ordered, Lookup(providers, key), key);
    }
    assert ordered[..index + 1] == ordered0[..index + 1] == ordered0[..index] + [current];
    forall key
      ensures Handled(mods, processed, Elements(ordered), key)
    {
      assert Handled(mods, Elements(ordered0[..index]), Elements(ordered0), key);
      if Needs(mods, current, key) {
        assert key in dependencies;
      }
    }
  }

  lemma IsOrphaned(mods: seq<Installed>, members: set<string>, id: string, key: string)
    requires id in members && Needs(mods, id, key)
    requires !exists other :: Needs(mods, other, key) && other !in members
    ensures Orphaned(mods, members, key)
  {}

  function Ids(mods: seq<Installed>): set<string> {
    set i | 0 <= i < |mods| :: mods[i].id
  }

  /** All providers are in, or somebody who needs the key is still outside the given part. */
  ghost predicate Resolved(mods: seq<Installed>, part: set<string>, deleting: set<string>, key: string) {
    || (forall id :: Provides(mods, id, key) ==> id in deleting)
    || (exists id :: Needs(mods, id, key) && id !in part)
  }

  ghost predicate Handled(mods: seq<Installed>, part: set<string>, deleting: set<string>, key: string) {
    (exists id :: id in part && Needs(mods, id, key)) ==> Resolved(mods, part, deleting, key)
  }

  ghost predicate AllHandled(mods: seq<Installed>, part: set<string>, deleting: set<string>) {
    forall key :: Handled(mods, part, deleting, key)
  }

  method AddProviders(mods: seq<Installed>, ghost target: string, ordered0: seq<string>,
                      candidates: seq<string>, ghost key: string) returns (ordered: seq<string>)
    requires NoDuplicates(ordered0)
    requires forall other :: Closed(mods, target, other) ==> Elements(ordered0) <= other
    requires Orphaned(mods, Elements(ordered0), key)
    requires forall id :: id in candidates <==> Provides(mods, id, key)
    ensures ordered0 <= ordered && NoDuplicates(ordered)
    ensures forall other :: Closed(mods, target, other) ==> Elements(ordered) <= other
    ensures forall id :: Provides(mods, id, key) ==> id in ordered
    ensures forall id :: id in ordered ==> id in ordered0 || id in Ids(mods)
  {
    hide Needs;
    ordered := ordered0;
    for i := 0 to |candidates|
      invariant ordered0 <= ordered && NoDuplicates(ordered)
      invariant forall other :: Closed(mods, target, other) ==> Elements(ordered) <= other
      invariant forall k :: 0 <= k < i ==> candidates[k] in ordered
      invariant forall id :: id in ordered ==> id in ordered0 || id in Ids(mods)
    {
      var provider := candidates[i];
      if provider in ordered { continue; }
      assert Provides(mods, provider, key);
      forall other | Closed(mods, target, other)
        ensures provider in other
      {
        assert Orphaned(mods, other, key);
      }
      ordered := ordered + [provider];
    }
  }

  lemma {:induction false} Bounded(ordered: seq<string>, index: nat, universe: set<string>)
    requires NoDuplicates(ordered) && index < |ordered|
    requires forall id :: id in ordered ==> id in universe
    ensures index < |universe|
    decreases |ordered|
  {
    var last := ordered[|ordered| - 1];
    var rest := ordered[..|ordered| - 1];
    if index < |rest| {
      forall id | id in rest
        ensures id in universe
      {
        assert id in ordered;
      }
      Bounded(rest, index, universe);
    } else if |rest| > 0 {
      forall id | id in rest
        ensures id in universe - {last}
      {
        var i :| 0 <= i < |rest| && rest[i] == id;
        assert ordered[i] == id;
      }
      Bounded(rest, |rest| - 1, universe - {last});
    } else {
      assert last in universe;
    }
  }

  // ---- Deleting several mods at once

  ghost predicate Plans(mods: seq<Installed>, targets: seq<string>, sets: seq<seq<string>>, withDependencies: bool) {
    && |sets| == |targets|
    && forall i :: 0 <= i < |targets| ==>
         if withDependencies then NoDuplicates(sets[i]) && LeastClosed(mods, targets[i], Elements(sets[i]))
         else sets[i] == [targets[i]]
  }

  function Flatten(sets: seq<seq<string>>): seq<string> {
    if sets == [] then [] else Flatten(sets[..|sets| - 1]) + sets[|sets| - 1]
  }

  lemma {:induction false} FlattenContains(sets: seq<seq<string>>, id: string)
    ensures id in Flatten(sets) <==> exists i :: 0 <= i < |sets| && id in sets[i]
  {
    if sets != [] {
      var rest := sets[..|sets| - 1];
      FlattenContains(rest, id);
      assert forall i :: 0 <= i < |rest| ==> rest[i] == sets[i];
    }
  }

  /** A union of deletion sets is as safe as each of them. */
  lemma UnionKeepsDependencies(mods: seq<Installed>, targets: seq<string>, sets: seq<seq<string>>,
                               survivor: string, deleted: string, key: string)
    requires DistinctIds(mods) && Plans(mods, targets, sets, true)
    requires deleted in Flatten(sets) && deleted !in targets && survivor !in Flatten(sets)
    requires Provides(mods, deleted, key)
    ensures !Needs(mods, survivor, key)
  {
    FlattenContains(sets, deleted);
    FlattenContains(sets, survivor);
    var i :| 0 <= i < |sets| && deleted in sets[i];
    assert targets[i] in targets;
    SurvivorsKeepTheirDependencies(mods, targets[i], Elements(sets[i]), survivor, deleted, key);
  }

  /** Two deletion sets share a mod only if one of the chosen mods is in the set of the other. */
  lemma OverlapMeansOneHoldsTheOther(mods: seq<Installed>, a: string, b: string, A: set<string>, B: set<string>)
    requires DistinctIds(mods) && LeastClosed(mods, a, A) && LeastClosed(mods, b, B)
    requires a !in B && b !in A
    ensures A !! B
  {
    var rest := A - B;
    forall key, id | Orphaned(mods, rest, key) && Provides(mods, id, key)
      ensures id in rest
    {
      assert Orphaned(mods, A, key);
      var needer :| needer in rest && Needs(mods, needer, key);
      if id in B {
        SurvivorsKeepTheirDependencies(mods, b, B, needer, id, key);
      }
    }
    assert Closed(mods, a, rest);
  }

  datatype Removal = Rejected | Completed | Aborted

  /** RemoveMods: the deletion sets of all chosen mods, one after the other. A record that
      is gone already is an error, so the removal stops at the first repetition. */
  method RemoveMods(mods: seq<Installed>, chosen: seq<string>, withDependencies: bool)
    returns (result: Removal, remaining: set<string>, ghost targets: seq<string>, ghost sets: seq<seq<string>>)
    requires DistinctIds(mods)
    ensures result.Rejected? <==> chosen == [] || exists i :: 0 <= i < |chosen| && chosen[i] != "" && chosen[i] !in Ids(mods)
    ensures result.Rejected? ==> remaining == Ids(mods)
    ensures !result.Rejected? ==>
              && NoDuplicates(targets) && Plans(mods, targets, sets, withDependencies)
              && (forall id :: id in targets <==> id in chosen && id != "")
    ensures result.Completed? ==> remaining == Ids(mods) - Elements(Flatten(sets))
    ensures !result.Rejected? ==> (result.Completed? <==> NoDuplicates(Flatten(sets)))
    ensures result.Aborted? ==> exists n :: 0 <= n < |Flatten(sets)| && NoDuplicates(Flatten(sets)[..n])
                                     && Flatten(sets)[n] in Flatten(sets)[..n]
                                     && remaining == Ids(mods) - Elements(Flatten(sets)[..n])
  {
    hide LeastClosed;
    remaining, targets, sets := Ids(mods), [], [];
    if chosen == [] { return Rejected, remaining, targets, sets; }
    var seen: seq<string>, toDelete: seq<string> := [], [];
    for i := 0 to |chosen|
      invariant forall k :: 0 <= k < i && chosen[k] != "" ==> chosen[k] in Ids(mods)
      invariant targets == seen && NoDuplicates(seen) && Plans(mods, targets, sets, withDependencies)
      invariant forall id :: id in seen <==> id in chosen[..i] && id != ""
      invariant toDelete == Flatten(sets) && forall id :: id in toDelete ==> id in Ids(mods)
    {
      var id := chosen[i];
      assert chosen[..i + 1] == chosen[..i] + [id];
      if id == "" || id in seen { continue; }
      if id !in Ids(mods) { return Rejected, remaining, targets, sets; }
      var more := [id];
      if withDependencies {
        more := ModDeletionSet(mods, id);
        OnlyInstalled(mods, id, more);
      }
      seen := seen + [id];
      targets := targets + [id];
      sets := sets + [more];
      toDelete := toDelete + more;
      assert sets[..|sets| - 1] + [more] == sets;
    }
    assert chosen[..|chosen|] == chosen;
    for i := 0 to |toDelete|
      invariant NoDuplicates(toDelete[..i]) && remaining == Ids(mods) - Elements(toDelete[..i])
    {
      assert toDelete[..i + 1] == toDelete[..i] + [toDelete[i]];
      if toDelete[i] !in remaining { return Aborted, remaining, targets, sets; }
      remaining := remaining - {toDelete[i]};
    }
    assert toDelete[..|toDelete|] == toDelete;
    result := Completed;
  }

  lemma OnlyInstalled(mods: seq<Installed>, target: string, members: seq<string>)
    requires target in Ids(mods) && LeastClosed(mods, target, Elements(members))
    ensures forall id :: id in members ==> id in Ids(mods)
  {
    assert Closed(mods, target, Ids(mods));
  }

  /** With dependencies, the removal completes exactly when no chosen mod is in the
      deletion set of another chosen one. */
  lemma CompletesIffNoChosenModIsADependency(mods: seq<Installed>, targets: seq<string>, sets: seq<seq<string>>)
    requires DistinctIds(mods) && NoDuplicates(targets) && Plans(mods, targets, sets, true)
    ensures NoDuplicates(Flatten(sets)) <==>
            forall i, j :: 0 <= i < |targets| && 0 <= j < |targets| && i != j ==> targets[i] !in sets[j]
  {
    if forall i, j :: 0 <= i < |targets| && 0 <= j < |targets| && i != j ==> targets[i] !in sets[j] {
      forall i, j | 0 <= i < j < |sets|
        ensures Elements(sets[i]) !! Elements(sets[j])
      {
        assert LeastClosed(mods, targets[i], Elements(sets[i])) && LeastClosed(mods, targets[j], Elements(sets[j]));
        OverlapMeansOneHoldsTheOther(mods, targets[i], targets[j], Elements(sets[i]), Elements(sets[j]));
      }
      DisjointFlattens(sets);
    } else {
      var i, j :| 0 <= i < |targets| && 0 <= j < |targets| && i != j && targets[i] in sets[j];
      assert targets[i] in sets[i];
      if i < j {
        RepetitionFlattens(sets, i, j, targets[i]);
      } else {
        RepetitionFlattens(sets, j, i, targets[i]);
      }
    }
  }

  lemma {:induction false} DisjointFlattens(sets: seq<seq<string>>)
    requires forall i :: 0 <= i < |sets| ==> NoDuplicates(sets[i])
    requires forall i, j :: 0 <= i < j < |sets| ==> Elements(sets[i]) !! Elements(sets[j])
    ensures NoDuplicates(Flatten(sets))
  {
    if sets != [] {
      var rest, last := sets[..|sets| - 1], sets[|sets| - 1];
      DisjointFlattens(rest);
      forall id | id in Flatten(rest)
        ensures id !in last
      {
        FlattenContains(rest, id);
        var i :| 0 <= i < |rest| && id in rest[i];
        assert id in Elements(sets[i]) && Elements(sets[i]) !! Elements(last);
      }
      NoDuplicatesJoin(Flatten(rest), last);
    }
  }

  lemma NoDuplicatesJoin(a: seq<string>, b: seq<string>)
    requires NoDuplicates(a) && NoDuplicates(b) && forall id :: id in a ==> id !in b
    ensures NoDuplicates(a + b)
  {
    forall i, j | 0 <= i < j < |a + b|
      ensures (a + b)[i] != (a + b)[j]
    {
      if i < |a| <= j {
        assert a[i] in a && b[j - |a|] in b;
      }
    }
  }

  lemma {:induction false} RepetitionFlattens(sets: seq<seq<string>>, i: nat, j: nat, id: string)
    requires i < j < |sets| && id in sets[i] && id in sets[j]
    ensures !NoDuplicates(Flatten(sets))
  {
    var rest, last := sets[..|sets| - 1], sets[|sets| - 1];
    if j == |sets| - 1 {
      FlattenContains(rest, id);
      assert rest[i] == sets[i];
      var a :| 0 <= a < |Flatten(rest)| && Flatten(rest)[a] == id;
      var b :| 0 <= b < |last| && last[b] == id;
      assert Flatten(sets)[a] == Flatten(sets)[|Flatten(rest)| + b];
    } else {
      RepetitionFlattens(rest, i, j, id);
      var a, b :| 0 <= a < b < |Flatten(rest)| && Flatten(rest)[a] == Flatten(rest)[b];
      assert Flatten(sets)[a] == Flatten(sets)[b];
    }
  }

  /** Choosing a mod together with its only dependency stops the removal half-way. */
  method ChosenDependencyExample()  returns (result: Removal, remaining: set<string>)
    ensures result == Aborted
  {
    var mods := [Installed("root", Some(Archive("root", {"lib"}))), Installed("lib", Some(Archive("lib", {}))),
                 Installed("other", None)];
    ghost var targets, sets;
    result, remaining, targets, sets := RemoveMods(mods, ["root", "lib", "other"], true);
    assert mods[0].id == "root" && mods[1].id == "lib" && mods[2].id == "other";
    assert "root" in ["root", "lib", "other"] && "lib" in ["root", "lib", "other"];
    ghost var i :| 0 <= i < |targets| && targets[i] == "root";
    ghost var j :| 0 <= j < |targets| && targets[j] == "lib";
    assert NeedsKey(mods[0], "lib") && ProvidesKey(mods[1], "lib");
    assert Needs(mods, "root", "lib") && Provides(mods, "lib", "lib");
    assert Orphaned(mods, Elements(sets[i]), "lib");
    assert Closed(mods, "root", Elements(sets[i]));
    CompletesIffNoChosenModIsADependency(mods, targets, sets);
  }
}
