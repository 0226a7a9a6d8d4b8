/** Installing a resolved plan into one instance. */
module PlanInstallation {
  import opened Prelude
  import opened Text
  import opened Requirements
  import opened Resolver
  import opened InstallPlans

  /** An installed catalog release. */
  datatype Installed = Installed(modId: string, releaseId: string, version: string, enabled: bool)

  /** An enabled release of the item's mod that meets every requirement recorded on it. */
  predicate Serves(env: Env, r: Installed, item: Item) {
    r.enabled && Lower(Trim(r.modId)) == Lower(Trim(item.modId)) && SatisfiesAll(env, r.version, item.requirements)
  }

  predicate Served(env: Env, list: seq<Installed>, item: Item) {
    exists i :: 0 <= i < |list| && Serves(env, list[i], item)
  }

  /** Where the instance has the item's mod, if it does. */
  function Position(list: seq<Installed>, modId: string): (k: int)
    ensures -1 <= k < |list|
    ensures k >= 0 ==> list[k].modId == modId
    ensures forall i :: 0 <= i < (if k == -1 then |list| else k) ==> list[i].modId != modId
  {
    if list == [] then -1
    else if list[0].modId == modId then 0
    else
      var k := Position(list[1..], modId);
      assert forall i :: 0 < i < |list| ==> list[i] == list[1..][i - 1];
      if k == -1 then -1 else k + 1
  }

  predicate IsRelease(r: Installed, item: Item) {
    r.modId == item.modId && r.releaseId == item.release.id && r.version == item.release.version
  }

  function OfItem(item: Item): Installed {
    Installed(item.modId, item.release.id, item.release.version, true)
  }

  /** installDownloadedMod when it succeeds: an older release is replaced; the same one is
      left as it is. */
  function With(list: seq<Installed>, item: Item): seq<Installed> {
    var k := Position(list, item.modId);
    if k >= 0 && IsRelease(list[k], item) then list
    else WithoutAt(list, k) + [OfItem(item)]
  }

  /** How far one installation gets: the records cannot be read; the file is not replaced, or
      the older record not deleted; the new record is not saved; or all goes through. */
  datatype Attempt = NotRead | NotReplaced | NotRecorded | Whole

  function WithoutAt(list: seq<Installed>, k: int): seq<Installed>
    requires -1 <= k < |list|
  {
    if k >= 0 then list[..k] + list[k + 1..] else list
  }

  /** installDownloadedMod: the records afterwards, and whether it succeeded. */
  function Attempted(list: seq<Installed>, item: Item, attempt: Attempt): (seq<Installed>, bool) {
    var k := Position(list, item.modId);
    if attempt.NotRead? then (list, false)
    else if k >= 0 && IsRelease(list[k], item) then (list, true)
    else match attempt
      case NotRecorded => (WithoutAt(list, k), false)
      case Whole => (With(list, item), true)
      case _ => (list, false)
  }

  lemma SuccessIsWith(list: seq<Installed>, item: Item, attempt: Attempt)
    ensures Attempted(list, item, attempt).1 ==> Attempted(list, item, attempt).0 == With(list, item)
  {
  }

  /** attempts: how far the installation of each item gets. */
  function InstalledPlan(env: Env, plan: seq<Item>, before: seq<Installed>, list: seq<Installed>, attempts: Item -> Attempt): (seq<Installed>, bool)
    decreases |plan|
  {
    if plan == [] then (list, false)
    else if !plan[0].root && Served(env, before, plan[0]) then InstalledPlan(env, plan[1..], before, list, attempts)
    else
      var (after, ok) := Attempted(list, plan[0], attempts(plan[0]));
      if !ok || plan[0].root then (after, ok) else InstalledPlan(env, plan[1..], before, after, attempts)
  }

  class Instance {
    var list: seq<Installed>

    method InstallDownloadedMod(item: Item, attempt: Attempt) returns (ok: bool)
      modifies this
      ensures (list, ok) == Attempted(old(list), item, attempt)
    {
      if attempt.NotRead? {
        return false;
      }
      var k := -1;
      for i := 0 to |list|
        invariant list == old(list)
        invariant k == -1 ==> forall j :: 0 <= j < i ==> list[j].modId != item.modId
        invariant k != -1 ==> k == Position(list, item.modId)
      {
        if list[i].modId == item.modId {
          k := i;
          break;
        }
      }
      assert k == Position(list, item.modId);
      if k >= 0 && IsRelease(list[k], item) {
        return true;
      }
      if attempt.NotReplaced? {
        return false;
      }
      if k >= 0 {
        list := list[..k] + list[k + 1..];
      }
      if attempt.NotRecorded? {
        return false;
      }
      list := list + [OfItem(item)];
      return true;
    }

    method InstallModPlan(env: Env, plan: seq<Item>, attempts: Item -> Attempt) returns (installed: bool)
      modifies this
      ensures (list, installed) == InstalledPlan(env, plan, old(list), old(list), attempts)
    {
      hide Attempted, Served;
      ghost var before := list;
      var versions := list;
      assert plan[0..] == plan;
      for i := 0 to |plan|
        invariant InstalledPlan(env, plan, before, before, attempts) == InstalledPlan(env, plan[i..], before, list, attempts)
      {
        assert plan[i..][0] == plan[i] && plan[i..][1..] == plan[i + 1..];
        if !plan[i].root && Served(env, versions, plan[i]) {
          continue;
        }
        var ok := InstallDownloadedMod(plan[i], attempts(plan[i]));
        if !ok {
          return false;
        }
        if plan[i].root {
          return true;
        }
      }
      return false;
    }
  }

  /** An installation leaves the records as they are if the mod's first one is for the very
      release, or the installation fails before it gets to them; one that goes through replaces
      that record by a new, enabled one. */
  lemma AttemptMeaning(list: seq<Installed>, item: Item, attempt: Attempt)
    ensures var k := Position(list, item.modId);
            var (after, ok) := Attempted(list, item, attempt);
            && (attempt == NotRead ==> after == list && !ok)
            && (attempt != NotRead && AlreadyThere(list, k, item) ==> after == list && ok)
            && (attempt != NotRead && !AlreadyThere(list, k, item) ==>
                  && (ok <==> attempt == Whole)
                  && (attempt == NotReplaced ==> after == list)
                  && (attempt == NotRecorded ==> after == WithoutAt(list, k))
                  && (attempt == Whole ==>
                        after == WithoutAt(list, k) + [Installed(item.modId, item.release.id, item.release.version, true)]))
    ensures WithoutAt(list, -1) == list
    ensures forall k :: 0 <= k < |list| ==> WithoutAt(list, k) == list[..k] + list[k + 1..]
  {
    hide Position, WithoutAt;
    var k := Position(list, item.modId);
    assert AlreadyThere(list, k, item) <==> k >= 0 && IsRelease(list[k], item);
    WithoutMeaning(list);
  }

  predicate AlreadyThere(list: seq<Installed>, k: int, item: Item)
    requires -1 <= k < |list|
  {
    k >= 0 && list[k].releaseId == item.release.id && list[k].version == item.release.version
  }

  lemma WithoutMeaning(list: seq<Installed>)
    ensures WithoutAt(list, -1) == list
    ensures forall k :: 0 <= k < |list| ==> WithoutAt(list, k) == list[..k] + list[k + 1..]
  {
  }

  /** An item is served by an enabled release of its mod that meets all its requirements. */
  lemma ServedIff(env: Env, list: seq<Installed>, item: Item)
    ensures Served(env, list, item) <==>
            exists r :: r in list && r.enabled && Lower(Trim(r.modId)) == Lower(Trim(item.modId))
                        && forall requirement :: requirement in item.requirements ==> Satisfies(env.rank, r.version, requirement)
  {
    hide Satisfies, Trim, Lower;
    if Served(env, list, item) {
      var i :| 0 <= i < |list| && Serves(env, list[i], item);
      assert list[i] in list;
    }
    if r :| r in list && r.enabled && Lower(Trim(r.modId)) == Lower(Trim(item.modId))
            && forall requirement :: requirement in item.requirements ==> Satisfies(env.rank, r.version, requirement) {
      var i :| 0 <= i < |list| && list[i] == r;
      assert Serves(env, list[i], item);
    }
  }

  /** A mod that had a record still has one, unless its new record could not be saved after
      the only one it had was deleted. */
  lemma RecordIsLostIff(list: seq<Installed>, item: Item, attempt: Attempt)
    requires Position(list, item.modId) >= 0
    ensures var k := Position(list, item.modId);
            Position(Attempted(list, item, attempt).0, item.modId) == -1 <==>
            attempt.NotRecorded? && !IsRelease(list[k], item) && Position(list[k + 1..], item.modId) == -1
  {
    hide Position, IsRelease;
    var k, modId := Position(list, item.modId), item.modId;
    NoneBeforeFirst(list, modId);
    PositionOfJoin(list[..k], list[k + 1..], modId);
    PositionOfJoin(list[..k] + list[k + 1..], [OfItem(item)], modId);
    PositionOfOne(OfItem(item));
  }

  lemma NoneBeforeFirst(list: seq<Installed>, modId: string)
    requires Position(list, modId) >= 0
    ensures Position(list[..Position(list, modId)], modId) == -1
  {
    hide Position;
  }

  lemma PositionOfOne(r: Installed)
    ensures Position([r], r.modId) == 0
  {
  }

  // ---- What an installed plan provides

  /** The instance has exactly this release, switched off, and nothing else that serves. */
  predicate StaysOff(env: Env, list: seq<Installed>, item: Item) {
    var k := Position(list, item.modId);
    k >= 0 && IsRelease(list[k], item) && !Served(env, list, item)
  }

  lemma WithServesIff(env: Env, list: seq<Installed>, item: Item)
    requires SatisfiesAll(env, item.release.version, item.requirements)
    ensures Served(env, With(list, item), item) <==> !StaysOff(env, list, item)
  {
    hide SatisfiesAll, Trim, Lower, Position;
    var after, k := With(list, item), Position(list, item.modId);
    if !(k >= 0 && IsRelease(list[k], item)) {
      assert Serves(env, after[|after| - 1], item);
    }
  }

  /** The two lists have the same releases of that mod, and the same one first. */
  ghost predicate SameOf(a: seq<Installed>, b: seq<Installed>, modId: string) {
    && (forall r: Installed :: Lower(Trim(r.modId)) == Lower(Trim(modId)) ==> (r in a <==> r in b))
    && SameFirst(a, b, modId)
  }

  predicate SameFirst(a: seq<Installed>, b: seq<Installed>, modId: string) {
    var k, j := Position(a, modId), Position(b, modId);
    (k >= 0 <==> j >= 0) && (k >= 0 ==> b[j] == a[k])
  }

  /** Installing one mod leaves the releases of the others alone. */
  lemma WithLeavesOthers(list: seq<Installed>, item: Item, other: string)
    requires Lower(Trim(other)) != Lower(Trim(item.modId))
    ensures SameOf(list, With(list, item), other)
  {
    hide Trim, Lower, Position, SameFirst;
    var k := Position(list, item.modId);
    if !(k >= 0 && IsRelease(list[k], item)) {
      if k >= 0 {
        var a, b := list[..k], list[k + 1..];
        assert list == a + [list[k]] + b;
        DroppingLeavesOthers(a, list[k], b, other);
        AddingLeavesOthers(a + b, OfItem(item), other);
        SameOfChain(list, a + b, With(list, item), other);
      } else {
        AddingLeavesOthers(list, OfItem(item), other);
      }
    } else {
      SameOfItself(list);
    }
  }

  lemma DroppingLeavesOthers(a: seq<Installed>, r: Installed, b: seq<Installed>, modId: string)
    requires Lower(Trim(r.modId)) != Lower(Trim(modId))
    ensures SameOf(a + [r] + b, a + b, modId)
  {
    hide Trim, Lower, Position;
    SkipPosition(a, r, b, modId);
  }

  lemma AddingLeavesOthers(a: seq<Installed>, r: Installed, modId: string)
    requires Lower(Trim(r.modId)) != Lower(Trim(modId))
    ensures SameOf(a, a + [r], modId)
  {
    hide Trim, Lower, Position;
    SkipPosition(a, r, [], modId);
    assert a + [] == a && a + [r] + [] == a + [r];
  }

  /** Another mod's release in between changes nothing. */
  lemma SkipPosition(a: seq<Installed>, r: Installed, b: seq<Installed>, modId: string)
    requires r.modId != modId
    ensures SameFirst(a + [r] + b, a + b, modId) && SameFirst(a + b, a + [r] + b, modId)
  {
    hide Position;
    PositionOfJoin(a, b, modId);
    PositionOfJoin(a, [r] + b, modId);
    PositionOfJoin([r], b, modId);
    assert a + [r] + b == a + ([r] + b);
    assert Position([r], modId) == -1;
  }

  lemma {:induction false} PositionOfJoin(a: seq<Installed>, b: seq<Installed>, modId: string)
    ensures var k := Position(a, modId);
            Position(a + b, modId) == if k >= 0 then k else if Position(b, modId) >= 0 then |a| + Position(b, modId) else -1
  {
    if a == [] {
      assert a + b == b;
    } else {
      assert (a + b)[1..] == a[1..] + b;
      PositionOfJoin(a[1..], b, modId);
    }
  }

  // ---- The whole plan

  /** The item is provided unless its exact release was there before, switched off. */
  ghost predicate Settled(env: Env, before: seq<Installed>, after: seq<Installed>, item: Item) {
    Served(env, after, item) <==> !StaysOff(env, before, item)
  }

  lemma SameServes(env: Env, a: seq<Installed>, b: seq<Installed>, item: Item)
    requires SameOf(a, b, item.modId)
    ensures Served(env, a, item) <==> Served(env, b, item)
    ensures StaysOff(env, a, item) <==> StaysOff(env, b, item)
  {
    hide SatisfiesAll, Trim, Lower, Position;
    if Served(env, a, item) {
      var i :| 0 <= i < |a| && Serves(env, a[i], item);
      assert a[i] in a;
      assert a[i] in b;
    }
    if Served(env, b, item) {
      var i :| 0 <= i < |b| && Serves(env, b[i], item);
      assert b[i] in b;
      assert b[i] in a;
    }
  }

  ghost predicate Installable(env: Env, plan: seq<Item>) {
    && (forall i, j :: 0 <= i < j < |plan| ==> Lower(Trim(plan[i].modId)) != Lower(Trim(plan[j].modId)))
    && (forall i :: 0 <= i < |plan| ==> SatisfiesAll(env, plan[i].release.version, plan[i].requirements))
    && |plan| > 0 && NoRoot(plan[..|plan| - 1])
  }

  lemma {:induction false} InstallSettles(env: Env, plan: seq<Item>, before: seq<Installed>, list: seq<Installed>, attempts: Item -> Attempt)
    requires Installable(env, plan)
    requires forall i :: 0 <= i < |plan| ==> SameOf(before, list, plan[i].modId)
    requires InstalledPlan(env, plan, before, list, attempts).1
    ensures var after := InstalledPlan(env, plan, before, list, attempts).0;
            && (forall i :: 0 <= i < |plan| ==> Settled(env, before, after, plan[i]))
            && (forall modId: string :: (forall i :: 0 <= i < |plan| ==> Lower(Trim(plan[i].modId)) != Lower(Trim(modId))) ==>
                  SameOf(list, after, modId))
    decreases |plan|
  {
    hide SatisfiesAll, Trim, Lower, With, Served, SameOf, StaysOff, Position, Attempted;
    var item, rest := plan[0], plan[1..];
    SuccessIsWith(list, item, attempts(item));
    assert forall i :: 0 <= i < |rest| ==> rest[i] == plan[i + 1];
    var skipped := !item.root && Served(env, before, item);
    var next := if skipped then list else With(list, item);
    var after := InstalledPlan(env, plan, before, list, attempts).0;
    forall modId: string | Lower(Trim(item.modId)) != Lower(Trim(modId))
      ensures SameOf(list, next, modId)
    {
      if skipped { SameOfItself(list); } else { WithLeavesOthers(list, item, modId); }
    }
    if |rest| > 0 {
      assert !item.root by { assert plan[..|plan| - 1][0] == item; }
      RestIsInstallable(env, plan);
      forall i | 0 <= i < |rest|
        ensures SameOf(before, next, rest[i].modId)
      {
        SameOfChain(before, list, next, rest[i].modId);
      }
      InstallSettles(env, rest, before, next, attempts);
    } else {
      assert rest == [];
      SameOfItself(next);
    }
    SameServes(env, before, list, item);
    SameServes(env, next, after, item);
    if skipped {
      ServedIsOn(env, before, item);
    } else {
      WithServesIff(env, list, item);
    }
    forall modId: string | forall i :: 0 <= i < |plan| ==> Lower(Trim(plan[i].modId)) != Lower(Trim(modId))
      ensures SameOf(list, after, modId)
    {
      assert Lower(Trim(plan[0].modId)) != Lower(Trim(modId));
      SameOfChain(list, next, after, modId);
    }
  }

  lemma RestIsInstallable(env: Env, plan: seq<Item>)
    requires Installable(env, plan) && |plan| > 1
    ensures Installable(env, plan[1..])
  {
    hide SatisfiesAll, Trim, Lower;
    var inner := plan[..|plan| - 1];
    assert plan[1..][..|plan| - 2] == inner[1..];
    assert NoRoot(inner[1..]) by {
      assert forall i :: 0 <= i < |inner[1..]| ==> inner[1..][i] in inner;
    }
  }

  lemma SameOfChain(a: seq<Installed>, b: seq<Installed>, c: seq<Installed>, modId: string)
    requires SameOf(a, b, modId) && SameOf(b, c, modId)
    ensures SameOf(a, c, modId)
  {
    hide Trim, Lower, Position;
  }

  lemma SameOfItself(a: seq<Installed>)
    ensures forall modId: string :: SameOf(a, a, modId)
  {
    hide Trim, Lower, Position;
  }

  lemma ServedIsOn(env: Env, list: seq<Installed>, item: Item)
    ensures Served(env, list, item) ==> !StaysOff(env, list, item)
  {
  }

  /** After a plan that was resolved is installed, the instance has for every item an enabled
      release of its mod that meets all its requirements, exactly unless it had the item's
      own release before, switched off: that one is taken for installed and left off. */
  lemma InstalledPlanIsMetIff(env: Env, query: string, selected: Release, list: seq<Installed>, attempts: Item -> Attempt)
    requires CleanIds(env) && query in env.catalog && selected in env.catalog[query].releases
    requires var r := Resolve(env, query, selected, true, "", {}, START);
             r.Resolved? && InstalledPlan(env, r.state.plan, list, list, attempts).1
    ensures var plan := Resolve(env, query, selected, true, "", {}, START).state.plan;
            var after := InstalledPlan(env, plan, list, list, attempts).0;
            forall i :: 0 <= i < |plan| ==> (Served(env, after, plan[i]) <==> !StaysOff(env, list, plan[i]))
  {
    hide Resolve, InstalledPlan, Served, StaysOff, SatisfiesAll, CleanIds, SameOf;
    PlanIsSound(env, query, selected);
    var s := Resolve(env, query, selected, true, "", {}, START).state;
    SoundIsInstallable(env, s);
    SameOfItself(list);
    InstallSettles(env, s.plan, list, list, attempts);
  }

  /** A plan that ends with its root is installed if every installation goes through, and a plan
      counts as installed only if one of its items is the root. */
  lemma {:induction false} PlanSucceeds(env: Env, plan: seq<Item>, before: seq<Installed>, list: seq<Installed>, attempts: Item -> Attempt)
    ensures (exists i :: 0 <= i < |plan| && plan[i].root) && (forall item :: item in plan ==> attempts(item) == Whole) ==>
              InstalledPlan(env, plan, before, list, attempts).1
    ensures InstalledPlan(env, plan, before, list, attempts).1 ==> exists i :: 0 <= i < |plan| && plan[i].root
    decreases |plan|
  {
    hide Served, Position, With;
    if plan != [] {
      var rest := plan[1..];
      assert forall i :: 0 < i < |plan| ==> plan[i] == rest[i - 1];
      assert forall item :: item in rest ==> item in plan;
      PlanSucceeds(env, rest, before, list, attempts);
      PlanSucceeds(env, rest, before, Attempted(list, plan[0], attempts(plan[0])).0, attempts);
      if j :| 0 <= j < |rest| && rest[j].root {
        assert plan[j + 1].root;
      }
      if i :| 0 <= i < |plan| && plan[i].root {
        assert i > 0 ==> rest[i - 1].root;
      }
    }
  }

  lemma SoundIsInstallable(env: Env, s: State)
    requires WellFormed(env, s) && |s.plan| > 0 && NoRoot(s.plan[..|s.plan| - 1])
    ensures Installable(env, s.plan)
  {
    hide SatisfiesAll, Trim, Lower, Listed;
    forall i | 0 <= i < |s.plan|
      ensures SatisfiesAll(env, s.plan[i].release.version, s.plan[i].requirements)
      ensures Lower(Trim(s.plan[i].modId)) == Key(s.plan[i])
    {
      assert GoodItem(env, s.resolved, s.plan[i]);
    }
  }
}
