/** The Last Known Good marker of an instance and its snapshots: linking, retention,
    deletion and recovery. */
module LastKnownGood {
  import opened Prelude
  import opened SnapshotMods

  type SnapshotId = string

  /** What a snapshot captured; it never changes once the snapshot is in place. */
  datatype Captured = Captured(instance: string, gameVersion: string, mods: seq<Mod>, automatic: bool)

  datatype Marker = Marker(snapshotId: SnapshotId, gameVersion: string, mods: seq<Mod>)

  /** A listed snapshot; an unreadable manifest is None. */
  datatype Listed = Listed(id: SnapshotId, manifest: Option<Captured>)

  predicate Restorable(instance: string, m: Option<Captured>) {
    m.Some? && m.value.instance == instance && forall i :: 0 <= i < |m.value.mods| ==> Recoverable(m.value.mods[i])
  }

  predicate Matches(instance: string, m: Option<Captured>, gameVersion: string, mods: seq<Mod>) {
    Restorable(instance, m) && m.value.gameVersion == gameVersion && SameMods(m.value.mods, mods)
  }

  /** The newest match, or the empty identifier. */
  function Newest(instance: string, listed: seq<Listed>, gameVersion: string, mods: seq<Mod>): SnapshotId {
    if listed == [] then ""
    else if Matches(instance, listed[0].manifest, gameVersion, mods) then listed[0].id
    else Newest(instance, listed[1..], gameVersion, mods)
  }

  /** A snapshot matches if its manifest can be read and is the instance's, records the same
      game version and mods, and every one of its mods can be downloaded again. */
  lemma MatchesIff(instance: string, m: Option<Captured>, gameVersion: string, mods: seq<Mod>)
    ensures Matches(instance, m, gameVersion, mods) <==>
            && m.Some? && m.value.instance == instance && m.value.gameVersion == gameVersion
            && SameMods(m.value.mods, mods)
            && forall mod :: mod in m.value.mods ==> Recoverable(mod)
  {
    hide SameMods, Recoverable;
  }

  method FindMatchingSnapshot(instance: string, listed: seq<Listed>, gameVersion: string, mods: seq<Mod>) returns (id: SnapshotId)
    ensures id == Newest(instance, listed, gameVersion, mods)
  {
    hide Matches;
    assert listed[0..] == listed;
    for i := 0 to |listed|
      invariant Newest(instance, listed, gameVersion, mods) == Newest(instance, listed[i..], gameVersion, mods)
    {
      assert listed[i..][0] == listed[i] && listed[i..][1..] == listed[i + 1..];
      var same := Comparable(instance, listed[i].manifest, gameVersion, mods);
      if same {
        return listed[i].id;
      }
    }
    return "";
  }

  /** The checks in the body of that loop. */
  method Comparable(instance: string, m: Option<Captured>, gameVersion: string, mods: seq<Mod>) returns (ok: bool)
    ensures ok <==> Matches(instance, m, gameVersion, mods)
  {
    if m.None? || m.value.instance != instance || m.value.gameVersion != gameVersion {
      return false;
    }
    var same := SameModSet(m.value.mods, mods);
    if !same {
      return false;
    }
    ok := ValidateMods(m.value.mods);
  }

  predicate FirstMatch(instance: string, listed: seq<Listed>, gameVersion: string, mods: seq<Mod>, i: int) {
    && 0 <= i < |listed| && Matches(instance, listed[i].manifest, gameVersion, mods)
    && forall j :: 0 <= j < i ==> !Matches(instance, listed[j].manifest, gameVersion, mods)
  }

  lemma {:induction false} NewestIsFirst(instance: string, listed: seq<Listed>, gameVersion: string, mods: seq<Mod>)
    requires forall i :: 0 <= i < |listed| ==> listed[i].id != ""
    ensures var id := Newest(instance, listed, gameVersion, mods);
            if id == "" then forall i :: 0 <= i < |listed| ==> !Matches(instance, listed[i].manifest, gameVersion, mods)
            else exists i :: FirstMatch(instance, listed, gameVersion, mods, i) && listed[i].id == id
  {
    hide Matches;
    if listed != [] {
      var rest := listed[1..];
      NewestIsFirst(instance, rest, gameVersion, mods);
      var id := Newest(instance, rest, gameVersion, mods);
      if Matches(instance, listed[0].manifest, gameVersion, mods) {
        assert FirstMatch(instance, listed, gameVersion, mods, 0);
      } else if id != "" {
        var i :| FirstMatch(instance, rest, gameVersion, mods, i) && rest[i].id == id;
        assert forall j :: 0 < j <= i + 1 ==> listed[j] == rest[j - 1];
        assert FirstMatch(instance, listed, gameVersion, mods, i + 1);
      }
    }
  }

  // ---- Retention

  /** A snapshot whose manifest cannot be read is not listed. */
  function Automatic(written: map<SnapshotId, Captured>, stored: seq<SnapshotId>, unreadable: set<SnapshotId>): seq<SnapshotId> {
    if stored == [] then []
    else if stored[0] in written && written[stored[0]].automatic && stored[0] !in unreadable then
      [stored[0]] + Automatic(written, stored[1..], unreadable)
    else Automatic(written, stored[1..], unreadable)
  }

  /** The automatic snapshots beyond the newest ones that are kept. */
  function Surplus(written: map<SnapshotId, Captured>, stored: seq<SnapshotId>, retention: nat, unreadable: set<SnapshotId>): seq<SnapshotId> {
    var automatic := Automatic(written, stored, unreadable);
    if |automatic| <= retention then [] else automatic[retention..]
  }

  /** Retention counts it: automatic, and its manifest can be read. */
  predicate Counts(written: map<SnapshotId, Captured>, unreadable: set<SnapshotId>, id: SnapshotId) {
    id in written && written[id].automatic && id !in unreadable
  }

  /** The positions before i of the snapshots that retention counts. */
  function Newer(written: map<SnapshotId, Captured>, stored: seq<SnapshotId>, unreadable: set<SnapshotId>, i: int): set<int>
    requires i <= |stored|
  {
    set j | 0 <= j < i && Counts(written, unreadable, stored[j])
  }

  predicate Distinct(stored: seq<SnapshotId>) {
    forall i, j :: 0 <= i < j < |stored| ==> stored[i] != stored[j]
  }

  lemma {:induction false} AutomaticJoin(written: map<SnapshotId, Captured>, a: seq<SnapshotId>, b: seq<SnapshotId>, unreadable: set<SnapshotId>)
    ensures Automatic(written, a + b, unreadable) == Automatic(written, a, unreadable) + Automatic(written, b, unreadable)
  {
    if a == [] {
      assert a + b == b;
    } else {
      assert (a + b)[1..] == a[1..] + b;
      AutomaticJoin(written, a[1..], b, unreadable);
    }
  }

  lemma AutomaticOne(written: map<SnapshotId, Captured>, id: SnapshotId, unreadable: set<SnapshotId>)
    ensures Automatic(written, [], unreadable) == []
    ensures Automatic(written, [id], unreadable) == if Counts(written, unreadable, id) then [id] else []
  {
    assert [id][1..] == [];
  }

  lemma NewerStep(written: map<SnapshotId, Captured>, stored: seq<SnapshotId>, unreadable: set<SnapshotId>, i: int)
    requires 0 <= i < |stored|
    ensures |Newer(written, stored, unreadable, 0)| == 0
    ensures |Newer(written, stored, unreadable, i + 1)|
            == |Newer(written, stored, unreadable, i)| + if Counts(written, unreadable, stored[i]) then 1 else 0
  {
    hide Counts;
    var before, now := Newer(written, stored, unreadable, i), Newer(written, stored, unreadable, i + 1);
    assert now == if Counts(written, unreadable, stored[i]) then before + {i} else before;
  }

  lemma {:induction false} AutomaticCount(written: map<SnapshotId, Captured>, stored: seq<SnapshotId>, unreadable: set<SnapshotId>, i: int)
    requires 0 <= i < |stored|
    ensures |Automatic(written, stored[..i], unreadable)| == |Newer(written, stored, unreadable, i)|
  {
    hide Automatic, Newer, Counts;
    if i == 0 {
      AutomaticOne(written, stored[0], unreadable);
      NewerStep(written, stored, unreadable, 0);
      assert stored[..0] == [];
    } else {
      AutomaticCount(written, stored, unreadable, i - 1);
      assert stored[..i] == stored[..i - 1] + [stored[i - 1]];
      AutomaticJoin(written, stored[..i - 1], [stored[i - 1]], unreadable);
      AutomaticOne(written, stored[i - 1], unreadable);
      NewerStep(written, stored, unreadable, i - 1);
    }
  }

  lemma OnlyOnce(a: seq<SnapshotId>, id: SnapshotId, b: seq<SnapshotId>, n: nat)
    requires id !in a && id !in b && n <= |a + [id] + b|
    ensures id in (a + [id] + b)[n..] <==> |a| >= n
  {
    var all := a + [id] + b;
    assert forall k :: 0 <= k < |all| && all[k] == id ==> k == |a|;
    assert all[|a|] == id;
    if |a| >= n { assert all[n..][|a| - n] == id; }
  }

  /** A stored snapshot is surplus exactly when retention counts it and as many newer ones as
      are kept. */
  lemma SurplusIff(written: map<SnapshotId, Captured>, stored: seq<SnapshotId>, retention: nat, unreadable: set<SnapshotId>, i: int)
    requires 0 <= i < |stored| && Distinct(stored)
    ensures stored[i] in Surplus(written, stored, retention, unreadable) <==>
            Counts(written, unreadable, stored[i]) && |Newer(written, stored, unreadable, i)| >= retention
  {
    hide Automatic, Newer;
    var id, before, after := stored[i], stored[..i], stored[i + 1..];
    AutomaticMembers(written, stored, unreadable);
    var all := Automatic(written, stored, unreadable);
    if Counts(written, unreadable, id) {
      assert stored == before + [id] + after;
      AutomaticJoin(written, before + [id], after, unreadable);
      AutomaticJoin(written, before, [id], unreadable);
      AutomaticOne(written, id, unreadable);
      AutomaticCount(written, stored, unreadable, i);
      AutomaticMembers(written, before, unreadable);
      AutomaticMembers(written, after, unreadable);
      var a, b := Automatic(written, before, unreadable), Automatic(written, after, unreadable);
      assert all == a + [id] + b;
      if retention <= |all| { OnlyOnce(a, id, b, retention); }
    }
  }

  function Dropped(stored: seq<SnapshotId>, id: SnapshotId): seq<SnapshotId> {
    if stored == [] then []
    else if stored[0] == id then Dropped(stored[1..], id)
    else [stored[0]] + Dropped(stored[1..], id)
  }

  lemma {:induction false} DroppedMembers(stored: seq<SnapshotId>, id: SnapshotId)
    ensures forall x :: x in Dropped(stored, id) <==> x in stored && x != id
  {
    if stored != [] {
      DroppedMembers(stored[1..], id);
    }
  }

  lemma SurplusIsRest(written: map<SnapshotId, Captured>, stored: seq<SnapshotId>, retention: nat, unreadable: set<SnapshotId>)
    ensures var all := Automatic(written, stored, unreadable);
            Surplus(written, stored, retention, unreadable) == if |all| <= retention then [] else all[retention..]
  {
  }

  lemma {:induction false} DroppedDistinct(stored: seq<SnapshotId>, id: SnapshotId)
    requires Distinct(stored)
    ensures Distinct(Dropped(stored, id))
  {
    if stored != [] {
      var rest := stored[1..];
      assert forall i :: 0 <= i < |rest| ==> rest[i] == stored[i + 1];
      DroppedDistinct(rest, id);
      DroppedMembers(rest, id);
      assert stored[0] !in rest;
    }
  }

  lemma {:induction false} AutomaticMembers(written: map<SnapshotId, Captured>, stored: seq<SnapshotId>, unreadable: set<SnapshotId>)
    ensures forall x :: x in Automatic(written, stored, unreadable) <==>
              x in stored && x in written && written[x].automatic && x !in unreadable
  {
    if stored != [] {
      AutomaticMembers(written, stored[1..], unreadable);
    }
  }

  class Storage {
    const steady: bool      // whether every removal works
    ghost var written: map<SnapshotId, Captured>
    var automatic: map<SnapshotId, bool>
    var stored: seq<SnapshotId>

    constructor (steady: bool)
      ensures Valid() && stored == [] && this.steady == steady
    {
      this.steady, written, automatic, stored := steady, map[], map[], [];
    }

    ghost predicate Valid()
      reads this
    {
      && Distinct(stored)
      && forall id :: id in stored ==> id in written && id in automatic && automatic[id] == written[id].automatic
    }

    /** Removing a snapshot may fail. */
    method Remove(id: SnapshotId) returns (ok: bool)
      modifies this`stored
      ensures stored == if ok then Dropped(old(stored), id) else old(stored)
      ensures steady ==> ok
    {
      if steady { ok := true; } else { ok := *; }
      if ok {
        ghost var before := stored;
        var kept := [];
        assert stored[0..] == stored;
        for i := 0 to |stored|
          invariant stored == before
          invariant kept + Dropped(stored[i..], id) == Dropped(stored, id)
        {
          assert stored[i..][0] == stored[i] && stored[i..][1..] == stored[i + 1..];
          if stored[i] != id {
            kept := kept + [stored[i]];
          }
        }
        stored := kept;
      }
    }

    /** The automatic snapshots, newest first. */
    method ListAutomatic(unreadable: set<SnapshotId>) returns (found: seq<SnapshotId>)
      requires Valid()
      ensures found == Automatic(written, stored, unreadable)
    {
      found := [];
      assert stored[0..] == stored;
      for i := 0 to |stored|
        invariant found + Automatic(written, stored[i..], unreadable) == Automatic(written, stored, unreadable)
      {
        assert stored[i..][0] == stored[i] && stored[i..][1..] == stored[i + 1..];
        assert stored[i] in stored;
        if automatic[stored[i]] && stored[i] !in unreadable {
          found := found + [stored[i]];
        }
      }
    }

    /** Manual snapshots, those that cannot be read, the newest automatic ones and the protected
        one survive; if no removal fails, nothing else does. */
    method EnforceRetention(retention: nat, protected: SnapshotId, unreadable: set<SnapshotId>) returns (allRemoved: bool)
      requires Valid()
      modifies this`stored
      ensures Valid() && (steady ==> allRemoved)
      ensures forall id :: id in stored ==> id in old(stored)
      ensures forall id :: id in old(stored) && (id !in Surplus(written, old(stored), retention, unreadable) || id == protected) ==> id in stored
      ensures allRemoved ==> forall id :: id in Surplus(written, old(stored), retention, unreadable) && id != protected ==> id !in stored
      ensures forall i :: 0 <= i < |old(stored)| ==>
                var id := old(stored)[i];
                && (!Counts(written, unreadable, id) || |Newer(written, old(stored), unreadable, i)| < retention || id == protected ==> id in stored)
                && (Counts(written, unreadable, id) && |Newer(written, old(stored), unreadable, i)| >= retention && id != protected && allRemoved ==>
                      id !in stored)
    {
      hide Automatic, Dropped, Surplus, Newer, Counts;
      forall i | 0 <= i < |stored|
        ensures stored[i] in Surplus(written, stored, retention, unreadable) <==>
                Counts(written, unreadable, stored[i]) && |Newer(written, stored, unreadable, i)| >= retention
      {
        SurplusIff(written, stored, retention, unreadable, i);
      }
      allRemoved := true;
      ghost var before := stored;
      var found := ListAutomatic(unreadable);
      SurplusIsRest(written, before, retention, unreadable);
      if |found| <= retention {
        return;
      }
      var surplus := found[retention..];
      for i := 0 to |surplus|
        invariant Distinct(stored) && (steady ==> allRemoved)
        invariant forall id :: id in stored ==> id in before
        invariant forall id :: id in before && (id !in surplus || id == protected) ==> id in stored
        invariant allRemoved ==> forall j :: 0 <= j < i && surplus[j] != protected ==> surplus[j] !in stored
      {
        if surplus[i] == protected {
          continue;
        }
        DroppedMembers(stored, surplus[i]);
        DroppedDistinct(stored, surplus[i]);
        var removed := Remove(surplus[i]);
        if !removed {
          allRemoved := false;
        }
      }
    }
  }

  // ---- Histories

  type Id = nat

  /** What a goroutine is in the middle of, with what it has read so far. */
  datatype Task =
    | Recording(found: Marker)
    | Deleting(id: SnapshotId)
    | Clearing(read: Marker)
    | Retaining(surplus: seq<SnapshotId>, protected: Option<SnapshotId>)
    | Recovering(read: Marker)

  /** One instance. written holds every snapshot ever made; stored the identifiers of those
      still there, newest first. */
  datatype History = History(
    instance: string,
    written: map<SnapshotId, Captured>,
    stored: seq<SnapshotId>,
    marker: Option<Marker>,
    tasks: map<Id, Task>)

  /** unreadable: the snapshots whose manifest cannot be read just then. ok: whether reading
      or saving the marker, or removing a snapshot, works. */
  datatype Step =
    | Create(id: SnapshotId, captured: Captured)
    | Find(t: Id, gameVersion: string, mods: seq<Mod>, unreadable: set<SnapshotId>)
    | SaveFound(t: Id, ok: bool)
    | Delete(t: Id, id: SnapshotId)
    | ReadToClear(t: Id, ok: bool)
    | SaveCleared(t: Id, ok: bool)
    | ListSurplus(t: Id, retention: nat, unreadable: set<SnapshotId>)
    | ReadProtected(t: Id, ok: bool)
    | DropNext(t: Id, ok: bool)
    | ReadMarker(t: Id)

  function Reading(h: History, unreadable: set<SnapshotId>): (listed: seq<Listed>)
    ensures |listed| == |h.stored|
    ensures forall i :: 0 <= i < |listed| ==> listed[i].id == h.stored[i] && listed[i].manifest == ReadOf(h, unreadable, h.stored[i])
  {
    seq(|h.stored|, i requires 0 <= i < |h.stored| => Listed(h.stored[i], ReadOf(h, unreadable, h.stored[i])))
  }

  function ReadOf(h: History, unreadable: set<SnapshotId>, id: SnapshotId): Option<Captured> {
    if id in h.stored && id !in unreadable then Get(h.written, id) else None
  }

  predicate Enabled(h: History, step: Step) {
    match step
    case Create(id, _) => id != "" && id !in h.written
    case Find(t, _, _, _) => t !in h.tasks
    case SaveFound(t, _) => t in h.tasks && h.tasks[t].Recording?
    case Delete(t, id) => t !in h.tasks && id in h.stored
    case ReadToClear(t, _) => t in h.tasks && h.tasks[t].Deleting?
    case SaveCleared(t, _) => t in h.tasks && h.tasks[t].Clearing?
    case ListSurplus(t, _, _) => t !in h.tasks
    case ReadProtected(t, _) => t in h.tasks && h.tasks[t].Retaining? && h.tasks[t].protected.None?
    case DropNext(t, _) =>
      t in h.tasks && h.tasks[t].Retaining? && h.tasks[t].protected.Some? && h.tasks[t].surplus != []
    case ReadMarker(t) => t !in h.tasks && h.marker.Some?
  }

  function ReferenceOf(h: History): SnapshotId {
    if h.marker.Some? then h.marker.value.snapshotId else ""
  }

  function Ended(h: History, t: Id): History {
    h.(tasks := h.tasks - {t})
  }

  function Next(h: History, step: Step): History
    requires Enabled(h, step)
  {
    match step
    case Create(id, captured) => h.(written := h.written[id := captured], stored := [id] + h.stored)
    case Find(t, gameVersion, mods, unreadable) =>
      var id := Newest(h.instance, Reading(h, unreadable), gameVersion, mods);
      h.(tasks := h.tasks[t := Recording(Marker(id, gameVersion, mods))])
    case SaveFound(t, ok) => Ended(if ok then h.(marker := Some(h.tasks[t].found)) else h, t)
    case Delete(t, id) => h.(stored := Dropped(h.stored, id), tasks := h.tasks[t := Deleting(id)])
    case ReadToClear(t, ok) =>
      if !ok || h.marker.None? || h.marker.value.snapshotId != h.tasks[t].id then Ended(h, t)
      else h.(tasks := h.tasks[t := Clearing(h.marker.value)])
    case SaveCleared(t, ok) => Ended(if ok then h.(marker := Some(h.tasks[t].read.(snapshotId := ""))) else h, t)
    case ListSurplus(t, retention, unreadable) =>
      h.(tasks := h.tasks[t := Retaining(Surplus(h.written, h.stored, retention, unreadable), None)])
    case ReadProtected(t, ok) =>
      h.(tasks := h.tasks[t := h.tasks[t].(protected := Some(if ok then ReferenceOf(h) else ""))])
    case DropNext(t, ok) =>
      var task := h.tasks[t];
      var dropped := if ok && task.surplus[0] != task.protected.value then Dropped(h.stored, task.surplus[0]) else h.stored;
      h.(stored := dropped, tasks := h.tasks[t := task.(surplus := task.surplus[1..])])
    case ReadMarker(t) => h.(tasks := h.tasks[t := Recovering(h.marker.value)])
  }

  /** ResolveRecoverySnapshot on a marker that was read earlier. */
  function Resolved(h: History, marker: Marker, unreadable: set<SnapshotId>): Option<SnapshotId> {
    if marker.snapshotId != "" && Restorable(h.instance, ReadOf(h, unreadable, marker.snapshotId)) then Some(marker.snapshotId)
    else
      var id := Newest(h.instance, Reading(h, unreadable), marker.gameVersion, marker.mods);
      if id == "" then None else Some(id)
  }

  function Run(h: History, steps: seq<Step>): Option<History>
    decreases |steps|
  {
    if steps == [] then Some(h)
    else if !Enabled(h, steps[0]) then None
    else Run(Next(h, steps[0]), steps[1..])
  }

  function Fresh(instance: string): History {
    History(instance, map[], [], None, map[])
  }

  // ---- What histories keep

  /** The snapshot a marker names captured what the marker records, even if it is gone. */
  ghost predicate Linked(h: History, m: Marker) {
    m.snapshotId != "" ==> Matches(h.instance, Get(h.written, m.snapshotId), m.gameVersion, m.mods)
  }

  ghost predicate TaskFits(h: History, task: Task) {
    match task
    case Recording(found) => Linked(h, found)
    case Deleting(_) => true
    case Clearing(read) => Linked(h, read)
    case Retaining(surplus, _) =>
      forall i :: 0 <= i < |surplus| ==> surplus[i] in h.written && h.written[surplus[i]].automatic
    case Recovering(read) => Linked(h, read)
  }

  ghost predicate Invariant(h: History) {
    && "" !in h.written
    && Distinct(h.stored)
    && (forall id :: id in h.stored ==> id in h.written)
    && (h.marker.Some? ==> Linked(h, h.marker.value))
    && (forall t :: t in h.tasks ==> TaskFits(h, h.tasks[t]))
  }

  lemma FoundIsLinked(h: History, gameVersion: string, mods: seq<Mod>, unreadable: set<SnapshotId>)
    requires Invariant(h)
    ensures Linked(h, Marker(Newest(h.instance, Reading(h, unreadable), gameVersion, mods), gameVersion, mods))
  {
    hide Matches;
    var listed := Reading(h, unreadable);
    NewestIsFirst(h.instance, listed, gameVersion, mods);
    var id := Newest(h.instance, listed, gameVersion, mods);
    if id != "" {
      var i :| FirstMatch(h.instance, listed, gameVersion, mods, i) && listed[i].id == id;
      MatchIsReadable(h.instance, listed[i].manifest, gameVersion, mods);
      assert listed[i].manifest == Get(h.written, id);
    }
  }

  lemma MatchIsReadable(instance: string, m: Option<Captured>, gameVersion: string, mods: seq<Mod>)
    requires Matches(instance, m, gameVersion, mods)
    ensures m.Some? && Restorable(instance, m)
  {
  }

  lemma StepKeepsInvariant(h: History, step: Step)
    requires Invariant(h) && Enabled(h, step)
    ensures Invariant(Next(h, step))
  {
    hide Matches, Newest, Reading, Linked, Automatic, Dropped;
    var g := Next(h, step);
    StillLinked(h, g);
    ClearedIsLinked(h);
    match step
    case Find(t, gameVersion, mods, unreadable) => FoundIsLinked(h, gameVersion, mods, unreadable);
    case Delete(t, id) =>
      DroppedMembers(h.stored, id);
      DroppedDistinct(h.stored, id);
    case DropNext(t, ok) =>
      DroppedMembers(h.stored, h.tasks[t].surplus[0]);
      DroppedDistinct(h.stored, h.tasks[t].surplus[0]);
    case ListSurplus(t, retention, unreadable) =>
      AutomaticMembers(h.written, h.stored, unreadable);
      var all := Automatic(h.written, h.stored, unreadable);
      assert forall i :: 0 <= i < |all| ==> all[i] in all;
    case _ =>
  }

  lemma ClearedIsLinked(h: History)
    ensures forall m: Marker :: m.snapshotId == "" ==> Linked(h, m)
  {
  }

  /** Snapshots are never rewritten, so what was linked stays linked. */
  lemma StillLinked(h: History, g: History)
    requires h.instance == g.instance && forall id :: id in h.written ==> Get(g.written, id) == Get(h.written, id)
    ensures forall m :: Linked(h, m) ==> Linked(g, m)
  {
    hide Matches;
    forall m | Linked(h, m)
      ensures Linked(g, m)
    {
      if m.snapshotId != "" {
        MatchIsReadable(h.instance, Get(h.written, m.snapshotId), m.gameVersion, m.mods);
      }
    }
  }

  lemma {:induction false} RunKeepsInvariant(h: History, steps: seq<Step>)
    requires Invariant(h)
    ensures Run(h, steps).Some? ==> Invariant(Run(h, steps).value) && Run(h, steps).value.instance == h.instance
    decreases |steps|
  {
    hide Invariant;
    if steps != [] && Enabled(h, steps[0]) {
      StepKeepsInvariant(h, steps[0]);
      RunKeepsInvariant(Next(h, steps[0]), steps[1..]);
    }
  }

  // ---- Main results

  /** The marker is the instance's own, or one that a recovery read at any time before. */
  ghost predicate Known(h: History, marker: Marker) {
    h.marker == Some(marker) || exists t :: t in h.tasks && h.tasks[t] == Recovering(marker)
  }

  ghost predicate Recovers(h: History, marker: Marker, unreadable: set<SnapshotId>, id: SnapshotId) {
    id in h.stored && Matches(h.instance, ReadOf(h, unreadable, id), marker.gameVersion, marker.mods)
  }

  /** Across any history of snapshots, launches, deletions and retentions, in any
      interleaving: recovery finds a snapshot exactly when one is there that belongs to the
      instance, can be restored and captured the recorded game version and mod set, and what
      it finds is such a snapshot. */
  lemma RecoveryIsRight(instance: string, steps: seq<Step>, h: History, marker: Marker, unreadable: set<SnapshotId>)
    requires Run(Fresh(instance), steps) == Some(h) && Known(h, marker)
    ensures var r := Resolved(h, marker, unreadable);
            if r.Some? then Recovers(h, marker, unreadable, r.value)
            else forall id :: !Recovers(h, marker, unreadable, id)
    ensures h.instance == instance
    ensures Recovers(h, marker, unreadable, marker.snapshotId) ==> Resolved(h, marker, unreadable) == Some(marker.snapshotId)
  {
    hide Matches, Restorable, Newest;
    RunKeepsInvariant(Fresh(instance), steps);
    assert Linked(h, marker);
    if Recovers(h, marker, unreadable, marker.snapshotId) {
      MatchIsReadable(h.instance, ReadOf(h, unreadable, marker.snapshotId), marker.gameVersion, marker.mods);
    }
    var listed := Reading(h, unreadable);
    NewestIsFirst(instance, listed, marker.gameVersion, marker.mods);
    var r := Resolved(h, marker, unreadable);
    var newest := Newest(instance, listed, marker.gameVersion, marker.mods);
    if r.Some? && r.value == marker.snapshotId && Restorable(instance, ReadOf(h, unreadable, marker.snapshotId)) {
      RestorableIsReadable(instance, ReadOf(h, unreadable, marker.snapshotId));
    } else if r.Some? {
      var i :| FirstMatch(instance, listed, marker.gameVersion, marker.mods, i) && listed[i].id == newest;
      assert h.stored[i] == newest;
    } else {
      forall id
        ensures !Recovers(h, marker, unreadable, id)
      {
        if id in h.stored {
          var i :| 0 <= i < |h.stored| && h.stored[i] == id;
          assert !Matches(instance, listed[i].manifest, marker.gameVersion, marker.mods);
        }
      }
    }
  }

  lemma RestorableIsReadable(instance: string, m: Option<Captured>)
    requires Restorable(instance, m)
    ensures m.Some?
  {
  }

  /** Deleting a snapshot takes that one alone, and clears the reference of the marker exactly
      if it was to that one; what the marker records stays. */
  lemma DeletionClearsTheReference(h: History, t: Id, id: SnapshotId)
    requires t !in h.tasks && id in h.stored
    ensures Enabled(h, Delete(t, id))
    ensures var deleted := Next(h, Delete(t, id));
            && Enabled(deleted, ReadToClear(t, true))
            && (forall x :: x in deleted.stored <==> x in h.stored && x != id) && deleted.marker == h.marker
            && var read := Next(deleted, ReadToClear(t, true));
               if h.marker.Some? && h.marker.value.snapshotId == id
               then && Enabled(read, SaveCleared(t, true))
                    && Next(read, SaveCleared(t, true)).marker == Some(h.marker.value.(snapshotId := ""))
                    && Next(read, SaveCleared(t, false)).marker == h.marker
               else read.marker == h.marker && t !in read.tasks
  {
    DroppedMembers(h.stored, id);
  }

  /** A launch that is recorded leaves a marker with its game version and mods, linked to the
      newest snapshot that matches them; if saving it fails the marker stays. */
  lemma LaunchIsRecorded(h: History, t: Id, gameVersion: string, mods: seq<Mod>, unreadable: set<SnapshotId>)
    requires t !in h.tasks
    ensures Enabled(h, Find(t, gameVersion, mods, unreadable))
    ensures var found := Next(h, Find(t, gameVersion, mods, unreadable));
            && Enabled(found, SaveFound(t, true)) && found.marker == h.marker && found.stored == h.stored
            && Next(found, SaveFound(t, false)).marker == h.marker
            && var m := Next(found, SaveFound(t, true)).marker;
               m == Some(Marker(Newest(h.instance, Reading(h, unreadable), gameVersion, mods), gameVersion, mods))
  {
    hide Newest, Reading;
  }

  /** A new snapshot is the first of the list, and the others stay as they were. */
  lemma CreatedIsNewest(h: History, id: SnapshotId, captured: Captured)
    requires id != "" && id !in h.written
    ensures Enabled(h, Create(id, captured))
    ensures var g := Next(h, Create(id, captured));
            && g.stored[..1] == [id] && g.stored[1..] == h.stored && Get(g.written, id) == Some(captured)
            && (forall x :: x != id ==> Get(g.written, x) == Get(h.written, x)) && g.marker == h.marker
  {
  }

  /** In any history a retention that lists the snapshots takes for surplus exactly those of
      them that it counts and that have as many newer ones as are to be kept. */
  lemma RetentionListsTheOldest(instance: string, steps: seq<Step>, h: History, t: Id, retention: nat, unreadable: set<SnapshotId>)
    requires Run(Fresh(instance), steps) == Some(h) && Enabled(h, ListSurplus(t, retention, unreadable))
    ensures var surplus := Next(h, ListSurplus(t, retention, unreadable)).tasks[t].surplus;
            && (forall id :: id in surplus ==> id in h.stored)
            && forall i :: 0 <= i < |h.stored| ==>
                 (h.stored[i] in surplus <==>
                  Counts(h.written, unreadable, h.stored[i]) && |Newer(h.written, h.stored, unreadable, i)| >= retention)
  {
    hide Automatic, Surplus, Newer, Counts;
    RunKeepsInvariant(Fresh(instance), steps);
    SurplusIsRest(h.written, h.stored, retention, unreadable);
    AutomaticMembers(h.written, h.stored, unreadable);
    forall i | 0 <= i < |h.stored|
      ensures h.stored[i] in Surplus(h.written, h.stored, retention, unreadable) <==>
              Counts(h.written, unreadable, h.stored[i]) && |Newer(h.written, h.stored, unreadable, i)| >= retention
    {
      SurplusIff(h.written, h.stored, retention, unreadable, i);
    }
  }

  /** A removal takes neither a manual snapshot nor the one that was read as protected, and
      nothing but the next of the surplus. */
  lemma OneRemoval(instance: string, steps: seq<Step>, h: History, t: Id)
    requires Run(Fresh(instance), steps) == Some(h) && Enabled(h, DropNext(t, true))
    ensures forall id :: id in h.stored ==> id in h.written && id != ""
    ensures var g := Next(h, DropNext(t, true));
            var protected, next := h.tasks[t].protected.value, h.tasks[t].surplus[0];
            && (forall id :: id in h.stored && !h.written[id].automatic ==> id in g.stored)
            && (forall id :: id in h.stored ==> (id !in g.stored <==> id == next && id != protected))
  {
    RunKeepsInvariant(Fresh(instance), steps);
    assert TaskFits(h, h.tasks[t]);
    DroppedMembers(h.stored, h.tasks[t].surplus[0]);
  }

  /** A retention that has read what to protect goes on with that and with what is left of
      its surplus, whatever happens around it. */
  lemma {:induction false} RetentionGoesOn(h: History, steps: seq<Step>, g: History, t: Id)
    requires Run(h, steps) == Some(g)
    requires t in h.tasks && h.tasks[t].Retaining? && h.tasks[t].protected.Some?
    ensures t in g.tasks && g.tasks[t].Retaining? && g.tasks[t].protected == h.tasks[t].protected
    ensures forall id :: id in g.tasks[t].surplus ==> id in h.tasks[t].surplus
    decreases |steps|
  {
    hide Newest, Reading, Surplus, Dropped;
    if steps != [] {
      RetentionGoesOn(Next(h, steps[0]), steps[1..], g, t);
    }
  }

  /** The nth step records a launch that worked and links the marker to that snapshot. */
  predicate LinksTo(h: History, steps: seq<Step>, n: nat, id: SnapshotId) {
    && n < |steps| && steps[n].SaveFound? && steps[n].ok
    && var so := Run(h, steps[..n]);
       so.Some? && Enabled(so.value, steps[n]) && so.value.tasks[steps[n].t].found.snapshotId == id
  }

  /** A marker comes to refer to a snapshot only by a launch that is recorded. */
  lemma {:induction false} OnlyLaunchesLink(h: History, steps: seq<Step>, g: History) returns (n: nat)
    requires Run(h, steps) == Some(g) && ReferenceOf(g) != ReferenceOf(h) && ReferenceOf(g) != ""
    ensures LinksTo(h, steps, n, ReferenceOf(g))
    decreases |steps|
  {
    hide Newest, Reading, Surplus, Dropped;
    var one := Next(h, steps[0]);
    if ReferenceOf(one) == ReferenceOf(g) {
      n := 0;
      assert steps[..0] == [];
    } else {
      n := OnlyLaunchesLink(one, steps[1..], g);
      n := n + 1;
      assert steps[..n][1..] == steps[1..][..n - 1] && steps[..n][0] == steps[0];
    }
  }

  ghost predicate LinkedMeanwhile(h: History, steps: seq<Step>, id: SnapshotId) {
    exists n: nat :: LinksTo(h, steps, n, id)
  }

  /** From the moment a retention reads what to protect: it removes the snapshot that the
      marker refers to exactly when that one is next in its surplus and the read had failed
      or found another reference. After a read that worked, a launch recorded in between has
      then linked the marker to one of the snapshots the retention had found to be surplus;
      without such a launch the snapshot survives every removal. */
  lemma RetentionRemovesReferenceIff(instance: string, before: seq<Step>, h: History, t: Id, ok: bool, meanwhile: seq<Step>, g: History)
    requires Run(Fresh(instance), before) == Some(h) && Enabled(h, ReadProtected(t, ok))
    requires Run(Next(h, ReadProtected(t, ok)), meanwhile) == Some(g) && Enabled(g, DropNext(t, true))
    requires ReferenceOf(g) in g.stored
    ensures var removed := ReferenceOf(g) !in Next(g, DropNext(t, true)).stored;
            && (removed <==> g.tasks[t].surplus[0] == ReferenceOf(g) && (!ok || ReferenceOf(g) != ReferenceOf(h)))
            && (removed ==> ReferenceOf(g) in h.tasks[t].surplus)
            && (removed && ok ==> LinkedMeanwhile(Next(h, ReadProtected(t, ok)), meanwhile, ReferenceOf(g)))
  {
    hide Newest, Reading, Surplus, Dropped, Run, LinksTo;
    var protecting := Next(h, ReadProtected(t, ok));
    RetentionGoesOn(protecting, meanwhile, g, t);
    var steps := Earlier(h, ReadProtected(t, ok), meanwhile, g);
    steps := Joined(Fresh(instance), before, h, steps, g);
    OneRemoval(instance, steps, g, t);
    assert ReferenceOf(protecting) == ReferenceOf(h);
    if ReferenceOf(g) != ReferenceOf(h) {
      var n := OnlyLaunchesLink(protecting, meanwhile, g);
    }
  }

  lemma {:induction false} Joined(f: History, before: seq<Step>, h: History, after: seq<Step>, g: History) returns (steps: seq<Step>)
    requires Run(f, before) == Some(h) && Run(h, after) == Some(g)
    ensures Run(f, steps) == Some(g)
    decreases |before|
  {
    if before == [] {
      steps := after;
    } else {
      var rest := Joined(Next(f, before[0]), before[1..], h, after, g);
      steps := Earlier(f, before[0], rest, g);
    }
  }

  const OLD := Captured("i", "1", [], true)
  const RECENT := Captured("i", "2", [], true)
  const BOTH := History("i", map["old" := OLD, "recent" := RECENT], ["recent", "old"], None, map[])
  const LINKED := Marker("old", "1", [])

  /** Both can happen. A launch is recorded between the two, and one-click recovery is lost
      although nobody deleted a snapshot. */
  lemma RetentionRaceExample()
    ensures exists steps, h :: Run(Fresh("i"), steps) == Some(h)
                               && ReferenceOf(h) == "old" && "old" !in h.stored
                               && Resolved(h, h.marker.value, {}) == None
  {
    hide Run, Resolved, Next, Enabled;
    var protecting := BOTH.(tasks := map[0 := Retaining(["old"], Some(""))]);
    NothingElseMatches(LOST);
    var steps := RaceIsLost(protecting);
    var listed := BOTH.(tasks := map[0 := Retaining(["old"], None)]);
    ProtectsNothing(listed, true);
    steps := Earlier(listed, ReadProtected(0, true), steps, LOST);
    steps := RetentionLists(BOTH, listed, steps, LOST);
    steps := TwoSnapshots(steps, LOST);
  }

  /** The marker refers to a surplus snapshot all along, reading it fails once, and the
      very next removal takes that snapshot. */
  lemma FailedReadExample()
    ensures exists steps, h :: Run(Fresh("i"), steps) == Some(h)
                               && Enabled(h, ReadProtected(0, false)) && ReferenceOf(h) == "old" && "old" in h.stored
                               && Run(Next(h, ReadProtected(0, false)), [DropNext(0, true)]) == Some(LOST)
                               && ReferenceOf(LOST) == "old" && "old" !in LOST.stored
                               && Resolved(LOST, LINKED, {}) == None
  {
    hide Run, Resolved, Newest;
    var listed := BOTH.(marker := Some(LINKED), tasks := map[0 := Retaining(["old"], None)]);
    NothingElseMatches(LOST);
    ProtectsNothing(listed, false);
    var drop := LastDrop();
    assert Run(listed, []) == Some(listed) by { NoSteps(listed); }
    var steps := RetentionLists(BOTH.(marker := Some(LINKED)), listed, [], listed);
    steps := LinkedSnapshots(steps, listed);
  }

  const LOST := History("i", BOTH.written, ["recent"], Some(LINKED), map[0 := Retaining([], Some(""))])

  lemma ProtectsNothing(listed: History, ok: bool)
    requires listed.tasks == map[0 := Retaining(["old"], None)] && (ok ==> listed.marker.None?)
    ensures Enabled(listed, ReadProtected(0, ok))
    ensures Next(listed, ReadProtected(0, ok)) == listed.(tasks := map[0 := Retaining(["old"], Some(""))])
  {
  }

  lemma OneSnapshot(later: seq<Step>, h: History) returns (steps: seq<Step>)
    requires Run(History("i", map["old" := OLD], ["old"], None, map[]), later) == Some(h)
    ensures Run(Fresh("i"), steps) == Some(h)
  {
    hide Run;
    assert Next(Fresh("i"), Create("old", OLD)) == History("i", map["old" := OLD], ["old"], None, map[]);
    steps := Earlier(Fresh("i"), Create("old", OLD), later, h);
  }

  lemma TwoSnapshots(later: seq<Step>, h: History) returns (steps: seq<Step>)
    requires Run(BOTH, later) == Some(h)
    ensures Run(Fresh("i"), steps) == Some(h)
  {
    hide Run;
    var one := History("i", map["old" := OLD], ["old"], None, map[]);
    assert Next(one, Create("recent", RECENT)) == BOTH by {
      assert ["recent"] + ["old"] == ["recent", "old"];
      assert map["old" := OLD]["recent" := RECENT] == BOTH.written;
    }
    steps := Earlier(one, Create("recent", RECENT), later, h);
    steps := OneSnapshot(steps, h);
  }

  /** The first snapshot is linked before the second one is made. */
  lemma LinkedSnapshots(later: seq<Step>, h: History) returns (steps: seq<Step>)
    requires Run(BOTH.(marker := Some(LINKED)), later) == Some(h)
    ensures Run(Fresh("i"), steps) == Some(h)
  {
    hide Run, Newest;
    var one := History("i", map["old" := OLD], ["old"], None, map[]);
    var found := one.(tasks := map[1 := Recording(LINKED)]);
    assert Next(one, Find(1, "1", [], {})) == found by { OnlyOldMatches(one); }
    var linked := one.(marker := Some(LINKED));
    assert Next(found, SaveFound(1, true)) == linked by {
      assert found.tasks - {1} == map[];
    }
    assert Next(linked, Create("recent", RECENT)) == BOTH.(marker := Some(LINKED)) by {
      assert ["recent"] + ["old"] == ["recent", "old"];
      assert map["old" := OLD]["recent" := RECENT] == BOTH.written;
    }
    steps := Earlier(linked, Create("recent", RECENT), later, h);
    steps := Earlier(found, SaveFound(1, true), steps, h);
    steps := Earlier(one, Find(1, "1", [], {}), steps, h);
    steps := OneSnapshot(steps, h);
  }

  lemma OnlyOldMatches(h: History)
    requires h.instance == "i" && h.written == map["old" := OLD] && h.stored == ["old"]
    ensures Newest("i", Reading(h, {}), "1", []) == "old"
  {
    var listed := Reading(h, {});
    assert listed == [Listed("old", Some(OLD))];
    assert Matches("i", Some(OLD), "1", []);
  }

  lemma RetentionLists(start: History, listed: History, later: seq<Step>, h: History) returns (steps: seq<Step>)
    requires start == BOTH.(marker := start.marker)
    requires listed == start.(tasks := map[0 := Retaining(["old"], None)])
    requires Run(listed, later) == Some(h)
    ensures Run(start, steps) == Some(h)
  {
    hide Run;
    assert Next(start, ListSurplus(0, 1, {})) == listed by {
      assert ["recent", "old"][1..] == ["old"] && ["old"][1..] == [];
      assert Automatic(BOTH.written, ["old"], {}) == ["old"];
      assert Automatic(BOTH.written, ["recent", "old"], {}) == ["recent", "old"];
    }
    steps := Earlier(start, ListSurplus(0, 1, {}), later, h);
  }

  lemma LastDrop() returns (steps: seq<Step>)
    ensures steps == [DropNext(0, true)]
    ensures Run(BOTH.(marker := Some(LINKED), tasks := map[0 := Retaining(["old"], Some(""))]), steps) == Some(LOST)
  {
    hide Run;
    var linked := BOTH.(marker := Some(LINKED), tasks := map[0 := Retaining(["old"], Some(""))]);
    assert Next(linked, DropNext(0, true)) == LOST by {
      assert ["recent", "old"][1..] == ["old"] && ["old"][1..] == [];
      assert Dropped(["old"], "old") == [];
    }
    assert Run(LOST, []) == Some(LOST) by { NoSteps(LOST); }
    steps := Earlier(linked, DropNext(0, true), [], LOST);
  }

  lemma RaceIsLost(protecting: History) returns (steps: seq<Step>)
    requires protecting == BOTH.(tasks := map[0 := Retaining(["old"], Some(""))])
    ensures Run(protecting, steps) == Some(LOST)
  {
    hide Run, Newest;
    OldMatches(protecting);
    var found := protecting.(tasks := protecting.tasks[1 := Recording(LINKED)]);
    assert Next(protecting, Find(1, "1", [], {})) == found;
    var saved := protecting.(marker := Some(LINKED));
    assert Next(found, SaveFound(1, true)) == saved by {
      assert found.tasks - {1} == protecting.tasks;
    }
    steps := LastDrop();
    steps := Earlier(found, SaveFound(1, true), steps, LOST);
    steps := Earlier(protecting, Find(1, "1", [], {}), steps, LOST);
  }

  lemma NoSteps(h: History)
    ensures Run(h, []) == Some(h)
  {
  }

  lemma OldMatches(h: History)
    requires h.instance == "i" && h.written == BOTH.written && h.stored == ["recent", "old"]
    ensures Newest("i", Reading(h, {}), "1", []) == "old"
  {
    var listed := Reading(h, {});
    assert listed == [Listed("recent", Some(RECENT)), Listed("old", Some(OLD))];
    assert !Matches("i", Some(RECENT), "1", []);
    assert Matches("i", Some(OLD), "1", []);
    assert listed[1..][0] == listed[1];
  }

  lemma NothingElseMatches(h: History)
    requires h.instance == "i" && h.written == BOTH.written && h.stored == ["recent"]
    ensures Resolved(h, LINKED, {}) == None
  {
    var listed := Reading(h, {});
    assert listed == [Listed("recent", Some(RECENT))];
    assert !Matches("i", Some(RECENT), "1", []);
    assert listed[1..] == [];
    assert Newest("i", listed, "1", []) == "";
  }

  lemma Earlier(h: History, step: Step, steps: seq<Step>, g: History) returns (all: seq<Step>)
    requires Enabled(h, step) && Run(Next(h, step), steps) == Some(g)
    ensures all == [step] + steps && Run(h, all) == Some(g)
  {
    all := [step] + steps;
    assert all[1..] == steps;
  }
}
