/** What changed between the Last Known Good configuration and the current one. */
module Comparison {
  import opened Prelude
  import opened Text
  import opened SnapshotMods

  datatype Change = Change(name: string, from: string, to: string)

  datatype Changes = Changes(versionFrom: string, versionTo: string, updated: seq<Change>, added: seq<Change>, removed: seq<Change>)

  function Count(c: Changes): nat {
    |c.updated| + |c.added| + |c.removed| + if c.versionFrom != "" && c.versionFrom != c.versionTo then 1 else 0
  }

  predicate Empty(c: Changes) {
    Count(c) == 0
  }

  function Entry(mods: seq<Mod>): map<string, Mod> {
    if mods == [] then map[]
    else Entry(mods[..|mods| - 1])[ModKey(mods[|mods| - 1]) := mods[|mods| - 1]]
  }

  function Name(key: string, names: map<string, string>, mod: Mod): string {
    if key in names && Trim(names[key]) != "" then names[key] else ModDisplayName(mod)
  }

  // ---- The specification: a difference between two maps of versions

  datatype Difference = Difference(updated: map<string, (string, string)>, added: map<string, string>, removed: map<string, string>)

  function Between(before: map<string, string>, after: map<string, string>): Difference {
    Difference(
      map k | k in after && k in before && before[k] != after[k] :: (before[k], after[k]),
      map k | k in after && k !in before :: after[k],
      map k | k in before && k !in after :: before[k])
  }

  function Apply(before: map<string, string>, d: Difference): map<string, string> {
    (map k | k in before && k !in d.removed :: if k in d.updated then d.updated[k].1 else before[k]) + d.added
  }

  /** The difference is complete and says nothing untrue: applying it to the recorded
      versions gives the current ones, it starts from the recorded ones, and it is empty
      only when nothing differs. */
  lemma DifferenceIsComplete(before: map<string, string>, after: map<string, string>)
    ensures var d := Between(before, after);
            && Apply(before, d) == after
            && (forall k :: k in d.removed ==> Get(before, k) == Some(d.removed[k]))
            && (forall k :: k in d.updated ==> Get(before, k) == Some(d.updated[k].0) && d.updated[k].0 != d.updated[k].1)
            && ((d.updated == map[] && d.added == map[] && d.removed == map[]) <==> before == after)
  {
    var d := Between(before, after);
    forall k
      ensures Get(Apply(before, d), k) == Get(after, k)
    {
    }
    MapsAgree(Apply(before, d), after);
    NothingBetweenIff(before, after);
  }

  lemma NothingBetweenIff(before: map<string, string>, after: map<string, string>)
    ensures var d := Between(before, after);
            (d.updated == map[] && d.added == map[] && d.removed == map[]) <==> before == after
  {
    var d := Between(before, after);
    forall k
      ensures k !in d.updated && k !in d.added && k !in d.removed ==> Get(before, k) == Get(after, k)
    {
    }
    if forall k :: Get(before, k) == Get(after, k) {
      MapsAgree(before, after);
    }
  }

  // ---- The comparison

  /** The list says one thing for each of the keys, in some order. */
  ghost predicate Reports(changes: seq<Change>, keys: seq<string>, all: set<string>, report: string -> Change) {
    && |changes| == |keys|
    && (forall i, j :: 0 <= i < j < |keys| ==> keys[i] != keys[j])
    && (forall k :: k in keys <==> k in all)
    && (forall i :: 0 <= i < |keys| ==> changes[i] == report(keys[i]))
  }

  ghost predicate ReportsAll(changes: seq<Change>, all: set<string>, report: string -> Change) {
    exists keys :: Reports(changes, keys, all, report)
  }

  function Report(d: Difference, key: string, names: map<string, string>, before: map<string, Mod>, after: map<string, Mod>): Change {
    if key in d.updated && key in after then Change(Name(key, names, after[key]), d.updated[key].0, d.updated[key].1)
    else if key in d.added && key in after then Change(Name(key, names, after[key]), "", d.added[key])
    else if key in d.removed && key in before then Change(ModDisplayName(before[key]), d.removed[key], "")
    else Change("", "", "")
  }

  function Versions(mods: map<string, Mod>): map<string, string> {
    map k | k in mods :: mods[k].version
  }

  /** What is said of one mod: both versions, the one that is there alone, and the name that
      the instance shows for it, or its own if that is blank. */
  lemma ReportSays(key: string, names: map<string, string>, before: map<string, Mod>, after: map<string, Mod>)
    ensures var report := Report(Between(Versions(before), Versions(after)), key, names, before, after);
            && (key in after && key in before && before[key].version != after[key].version ==>
                  report.from == before[key].version && report.to == after[key].version)
            && (key in after && key !in before ==> report.from == "" && report.to == after[key].version)
            && (key in before && key !in after ==>
                  report == Change(ModDisplayName(before[key]), before[key].version, ""))
            && (key in after && (key in before ==> before[key].version != after[key].version) ==>
                  report.name == if key in names && Trim(names[key]) != "" then names[key] else ModDisplayName(after[key]))
  {
    hide Trim, ModDisplayName;
  }

  method Index(mods: seq<Mod>) returns (byKey: map<string, Mod>)
    ensures byKey == Entry(mods)
  {
    hide ModKey;
    byKey := map[];
    for i := 0 to |mods|
      invariant byKey == Entry(mods[..i])
    {
      byKey := byKey[ModKey(mods[i]) := mods[i]];
      assert mods[..i + 1][..i] == mods[..i];
    }
    assert mods[..|mods|] == mods;
  }

  /** The loop over the current mods. */
  method ReportCurrent(before: map<string, Mod>, after: map<string, Mod>, names: map<string, string>)
    returns (updates: seq<Change>, additions: seq<Change>)
    ensures var d := Between(Versions(before), Versions(after));
            && ReportsAll(updates, d.updated.Keys, k => Report(d, k, names, before, after))
            && ReportsAll(additions, d.added.Keys, k => Report(d, k, names, before, after))
  {
    hide Name, ModDisplayName, Reports;
    ghost var d := Between(Versions(before), Versions(after));
    ghost var report := k => Report(d, k, names, before, after);
    updates, additions := [], [];
    ghost var updated, added: seq<string> := [], [];
    var pending := after.Keys;
    assert d.updated.Keys - pending == {} && d.added.Keys - pending == {};
    NoReports(report);
    while pending != {}
      invariant pending <= after.Keys
      invariant Reports(updates, updated, d.updated.Keys - pending, report)
      invariant Reports(additions, added, d.added.Keys - pending, report)
    {
      var key :| key in pending;
      ghost var toldUpdates, toldAdditions := d.updated.Keys - pending, d.added.Keys - pending;
      pending := pending - {key};
      var mod := after[key];
      if key !in before {
        var change := Change(Name(key, names, mod), "", mod.version);
        assert d.added.Keys - pending == toldAdditions + {key} && d.updated.Keys - pending == toldUpdates;
        OneMoreReport(additions, added, toldAdditions, report, key, change);
        additions := additions + [change];
        added := added + [key];
      } else if before[key].version != mod.version {
        var change := Change(Name(key, names, mod), before[key].version, mod.version);
        assert d.updated.Keys - pending == toldUpdates + {key} && d.added.Keys - pending == toldAdditions;
        OneMoreReport(updates, updated, toldUpdates, report, key, change);
        updates := updates + [change];
        updated := updated + [key];
      } else {
        assert d.updated.Keys - pending == toldUpdates && d.added.Keys - pending == toldAdditions;
      }
    }
    assert d.updated.Keys - pending == d.updated.Keys && d.added.Keys - pending == d.added.Keys;
  }

  /** The loop over the recorded mods. */
  method ReportMissing(before: map<string, Mod>, after: map<string, Mod>, ghost names: map<string, string>)
    returns (removals: seq<Change>)
    ensures var d := Between(Versions(before), Versions(after));
            ReportsAll(removals, d.removed.Keys, k => Report(d, k, names, before, after))
  {
    hide Name, ModDisplayName, Reports;
    ghost var d := Between(Versions(before), Versions(after));
    ghost var report := k => Report(d, k, names, before, after);
    removals := [];
    ghost var removed: seq<string> := [];
    var pending := before.Keys;
    assert d.removed.Keys - pending == {};
    NoReports(report);
    while pending != {}
      invariant pending <= before.Keys
      invariant Reports(removals, removed, d.removed.Keys - pending, report)
    {
      var key :| key in pending;
      ghost var told := d.removed.Keys - pending;
      pending := pending - {key};
      if key !in after {
        var change := Change(ModDisplayName(before[key]), before[key].version, "");
        assert d.removed.Keys - pending == told + {key};
        OneMoreReport(removals, removed, told, report, key, change);
        removals := removals + [change];
        removed := removed + [key];
      } else {
        assert d.removed.Keys - pending == told;
      }
    }
    assert d.removed.Keys - pending == d.removed.Keys;
  }

  /** Every update, addition and removal is reported once, under its name, and nothing else
      is. */
  method CompareConfigurations(recorded: seq<Mod>, recordedVersion: string, current: seq<Mod>, names: map<string, string>, currentVersion: string)
    returns (c: Changes)
    ensures var before, after := Entry(recorded), Entry(current);
            var d := Between(ByKey(recorded), ByKey(current));
            && ReportsAll(c.updated, d.updated.Keys, k => Report(d, k, names, before, after))
            && ReportsAll(c.added, d.added.Keys, k => Report(d, k, names, before, after))
            && ReportsAll(c.removed, d.removed.Keys, k => Report(d, k, names, before, after))
    ensures Compares(c, recorded, recordedVersion, current, currentVersion)
  {
    hide Report, Reports, ReportsAll, Entry, ByKey, Between;
    var versionFrom, versionTo := "", "";
    if recordedVersion != currentVersion {
      versionFrom, versionTo := recordedVersion, currentVersion;
    }
    var before := Index(recorded);
    var after := Index(current);
    EntryVersions(recorded);
    EntryVersions(current);
    var updates, additions;
    updates, additions := ReportCurrent(before, after, names);
    var removals;
    removals := ReportMissing(before, after, names);
    c := Changes(versionFrom, versionTo, updates, additions, removals);
    ghost var d := Between(ByKey(recorded), ByKey(current));
    ghost var report := k => Report(d, k, names, before, after);
    ReportCount(updates, d.updated.Keys, report);
    ReportCount(additions, d.added.Keys, report);
    ReportCount(removals, d.removed.Keys, report);
    assert |d.updated| == |d.updated.Keys| && |d.added| == |d.added.Keys| && |d.removed| == |d.removed.Keys|;
  }

  lemma NoReports(report: string -> Change)
    ensures Reports([], [], {}, report)
  {
  }

  lemma OneMoreReport(changes: seq<Change>, keys: seq<string>, all: set<string>, report: string -> Change, key: string, change: Change)
    requires Reports(changes, keys, all, report) && key !in all && change == report(key)
    ensures Reports(changes + [change], keys + [key], all + {key}, report)
  {
    var keys' := keys + [key];
    forall i, j | 0 <= i < j < |keys'|
      ensures keys'[i] != keys'[j]
    {
      assert keys[i] in keys;
    }
  }

  // ---- When it reports nothing

  lemma {:induction false} EntryVersions(mods: seq<Mod>)
    ensures Versions(Entry(mods)) == ByKey(mods)
  {
    hide ModKey;
    if mods != [] {
      EntryVersions(mods[..|mods| - 1]);
    }
  }

  ghost predicate Compares(c: Changes, recorded: seq<Mod>, recordedVersion: string, current: seq<Mod>, currentVersion: string) {
    && (if recordedVersion == currentVersion then c.versionFrom == c.versionTo == ""
        else c.versionFrom == recordedVersion && c.versionTo == currentVersion)
    && var d := Between(ByKey(recorded), ByKey(current));
    |c.updated| == |d.updated| && |c.added| == |d.added| && |c.removed| == |d.removed|
  }

  lemma ReportCount(changes: seq<Change>, all: set<string>, report: string -> Change)
    requires ReportsAll(changes, all, report)
    ensures |changes| == |all|
  {
    var keys :| Reports(changes, keys, all, report);
    SequenceCount(keys, all);
  }

  lemma {:induction false} SequenceCount(keys: seq<string>, all: set<string>)
    requires forall i, j :: 0 <= i < j < |keys| ==> keys[i] != keys[j]
    requires forall k :: k in keys <==> k in all
    ensures |keys| == |all|
  {
    if keys == [] {
      forall k
        ensures k !in all
      {
        assert k !in keys;
      }
    } else {
      var last := |keys| - 1;
      var rest := keys[..last];
      assert keys[last] in all;
      forall k
        ensures k in rest <==> k in all - {keys[last]}
      {
        if k in rest {
          var i :| 0 <= i < |rest| && rest[i] == k;
          assert keys[i] == k;
        }
        if k in all - {keys[last]} {
          var i :| 0 <= i < |keys| && keys[i] == k;
          assert rest[i] == k;
        }
      }
      SequenceCount(rest, all - {keys[last]});
    }
  }

  /** With distinct identities the comparison is empty exactly when the mod sets are the
      same and the game versions agree, or no game version was recorded: a change from an
      unrecorded version goes unreported. */
  lemma EmptyIff(c: Changes, recorded: seq<Mod>, recordedVersion: string, current: seq<Mod>, currentVersion: string)
    requires DistinctKeys(recorded) && DistinctKeys(current)
    requires Compares(c, recorded, recordedVersion, current, currentVersion)
    ensures Empty(c) <==> SameMods(recorded, current) && (recordedVersion == currentVersion || recordedVersion == "")
  {
    SameModsMeansSameMap(recorded, current);
    var before, after := ByKey(recorded), ByKey(current);
    DifferenceIsComplete(before, after);
    var d := Between(before, after);
    assert |d.updated| == 0 <==> d.updated == map[];
    assert |d.added| == 0 <==> d.added == map[];
    assert |d.removed| == 0 <==> d.removed == map[];
  }
}
