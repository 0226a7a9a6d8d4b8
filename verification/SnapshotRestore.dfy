/** Restoring a snapshot: the parallel downloads, the directory swap and the rebuilt mod
    records. */
module SnapshotRestore {
  import opened Prelude
  import opened Text
  import opened SnapshotMods

  datatype Restored = Restored(entry: Mod, displayName: string, fileName: string, path: string)

  /** How one download ends: with the catalog's name for the mod, possibly blank, and the
      file under the name it was downloaded as. */
  datatype Download = Installed(name: string, fileName: string, content: string) | Broken

  /** Where the file goes, below the staging directory and later below the instance. */
  function PathOf(mod: Mod, fileName: string): string {
    (if mod.enabled then "Mods" else "ModsDisabled") + "/" + fileName
  }

  function RestoredMod(mod: Mod, download: Download): Restored
    requires download.Installed?
  {
    Restored(mod, if Trim(download.name) == "" then mod.identifier else download.name,
             download.fileName, PathOf(mod, download.fileName))
  }

  function Entries(restored: seq<Restored>): (mods: seq<Mod>)
    ensures |mods| == |restored| && forall i :: 0 <= i < |mods| ==> mods[i] == restored[i].entry
  {
    seq(|restored|, i requires 0 <= i < |restored| => restored[i].entry)
  }

  /** What one worker sends back. */
  datatype Arrival = Arrival(mod: Mod, download: Download)

  function Arrived(arrivals: seq<Arrival>): (mods: seq<Mod>)
    ensures |mods| == |arrivals| && forall i :: 0 <= i < |mods| ==> mods[i] == arrivals[i].mod
  {
    seq(|arrivals|, i requires 0 <= i < |arrivals| => arrivals[i].mod)
  }

  /** The files in the staging directory after the copies, in some order. */
  function Staged(arrivals: seq<Arrival>): map<string, string> {
    if arrivals == [] then map[]
    else
      var before, last := Staged(arrivals[..|arrivals| - 1]), arrivals[|arrivals| - 1];
      if last.download.Broken? then before else before[PathOf(last.mod, last.download.fileName) := last.download.content]
  }

  /** Every entry is downloaded by its own worker; the results arrive in any order. */
  method RestoreSnapshotMods(mods: seq<Mod>, arrivals: seq<Arrival>)
    returns (restored: seq<Restored>, staging: map<string, string>, ok: bool)
    requires multiset(Arrived(arrivals)) == multiset(mods)
    ensures ok <==> forall i :: 0 <= i < |arrivals| ==> arrivals[i].download.Installed?
    ensures ok ==> multiset(Entries(restored)) == multiset(mods)
    ensures ok ==> |restored| == |arrivals| &&
                   forall i :: 0 <= i < |arrivals| ==> restored[i] == RestoredMod(arrivals[i].mod, arrivals[i].download)
    ensures !ok ==> restored == []
    ensures staging == Staged(arrivals)
    ensures ok ==> forall i :: 0 <= i < |arrivals| ==>
              && restored[i].entry == arrivals[i].mod && restored[i].fileName == arrivals[i].download.fileName
              && (arrivals[i].mod.enabled ==> restored[i].path == "Mods/" + arrivals[i].download.fileName)
              && (!arrivals[i].mod.enabled ==> restored[i].path == "ModsDisabled/" + arrivals[i].download.fileName)
              && restored[i].path in staging
  {
    hide RestoredMod, PathOf, Staged;
    forall i | 0 <= i < |arrivals| && arrivals[i].download.Installed?
      ensures RestoredMod(arrivals[i].mod, arrivals[i].download).path in Staged(arrivals)
      ensures var r := RestoredMod(arrivals[i].mod, arrivals[i].download);
              && r.entry == arrivals[i].mod && r.fileName == arrivals[i].download.fileName
              && r.path == (if arrivals[i].mod.enabled then "Mods/" else "ModsDisabled/") + arrivals[i].download.fileName
    {
      EntryOfRestored(arrivals[i]);
      EachIsStaged(arrivals, i);
    }
    assert Staged(arrivals[..0]) == map[] by { NothingStaged(); }
    restored, staging := [], map[];
    var failed := false;
    for k := 0 to |arrivals|
      invariant failed <==> exists j :: 0 <= j < k && arrivals[j].download.Broken?
      invariant !failed ==> Entries(restored) == Arrived(arrivals[..k])
      invariant !failed ==> |restored| == k && forall i :: 0 <= i < k ==> restored[i] == RestoredMod(arrivals[i].mod, arrivals[i].download)
      invariant staging == Staged(arrivals[..k])
    {
      OneMoreStaged(arrivals, k);
      if arrivals[k].download.Installed? {
        EntryOfRestored(arrivals[k]);
        staging := staging[PathOf(arrivals[k].mod, arrivals[k].download.fileName) := arrivals[k].download.content];
        restored := restored + [RestoredMod(arrivals[k].mod, arrivals[k].download)];
      } else {
        failed := true;
      }
    }
    assert arrivals[..|arrivals|] == arrivals;
    ok := !failed;
    if failed {
      restored := [];
    }
  }

  /** The file at the path of an arrival is the one that was downloaded for it. */
  predicate HasItsFile(arrivals: seq<Arrival>, i: int)
    requires 0 <= i < |arrivals| && arrivals[i].download.Installed?
  {
    Get(Staged(arrivals), PathOf(arrivals[i].mod, arrivals[i].download.fileName)) == Some(arrivals[i].download.content)
  }

  /** Two arrivals that go to one place bring the same file. */
  predicate Compatible(a: Arrival, b: Arrival)
    requires a.download.Installed? && b.download.Installed?
  {
    PathOf(a.mod, a.download.fileName) == PathOf(b.mod, b.download.fileName) ==> a.download.content == b.download.content
  }

  predicate AllInstalled(arrivals: seq<Arrival>) {
    forall i :: 0 <= i < |arrivals| ==> arrivals[i].download.Installed?
  }

  /** Every entry ends with its own file exactly when no two of them bring different files of
      one name to one directory: the later copy replaces the earlier one without an error. */
  lemma {:induction false} EachHasItsFileIff(arrivals: seq<Arrival>)
    requires AllInstalled(arrivals)
    ensures (forall i :: 0 <= i < |arrivals| ==> HasItsFile(arrivals, i)) <==>
            forall i, j :: 0 <= i < j < |arrivals| ==> Compatible(arrivals[i], arrivals[j])
  {
    hide PathOf;
    if arrivals != [] {
      var n := |arrivals| - 1;
      var before := arrivals[..n];
      EachHasItsFileIff(before);
      forall i | 0 <= i < n
        ensures HasItsFile(arrivals, i) <==> if Same(arrivals, i, n) then Compatible(arrivals[i], arrivals[n]) else HasItsFile(before, i)
      {
        assert before[i] == arrivals[i];
      }
      forall i, j | 0 <= i < j < |arrivals|
        ensures HasItsFile(arrivals, i) && HasItsFile(arrivals, j) ==> Compatible(arrivals[i], arrivals[j])
      {}
      assert HasItsFile(arrivals, n);
    }
  }

  predicate Same(arrivals: seq<Arrival>, i: int, j: int)
    requires AllInstalled(arrivals) && 0 <= i < |arrivals| && 0 <= j < |arrivals|
  {
    PathOf(arrivals[i].mod, arrivals[i].download.fileName) == PathOf(arrivals[j].mod, arrivals[j].download.fileName)
  }

  lemma EntryOfRestored(a: Arrival)
    requires a.download.Installed?
    ensures var r := RestoredMod(a.mod, a.download);
            && r.entry == a.mod && r.fileName == a.download.fileName && r.path == PathOf(a.mod, a.download.fileName)
            && r.path == (if a.mod.enabled then "Mods/" else "ModsDisabled/") + a.download.fileName
  {
    assert ("Mods" + "/") + a.download.fileName == "Mods" + "/" + a.download.fileName;
  }

  lemma NothingStaged()
    ensures Staged([]) == map[]
  {
  }

  lemma OneMoreStaged(arrivals: seq<Arrival>, k: int)
    requires 0 <= k < |arrivals|
    ensures var a := arrivals[k];
            Staged(arrivals[..k + 1]) ==
            if a.download.Broken? then Staged(arrivals[..k])
            else Staged(arrivals[..k])[PathOf(a.mod, a.download.fileName) := a.download.content]
  {
    assert arrivals[..k + 1][..k] == arrivals[..k];
  }

  lemma {:induction false} EachIsStaged(arrivals: seq<Arrival>, i: int)
    requires 0 <= i < |arrivals| && arrivals[i].download.Installed?
    ensures PathOf(arrivals[i].mod, arrivals[i].download.fileName) in Staged(arrivals)
    decreases |arrivals|
  {
    if i < |arrivals| - 1 {
      EachIsStaged(arrivals[..|arrivals| - 1], i);
    }
  }

  // ---- The records

  /** The record that is rebuilt for a restored file. */
  function Record(id: string, instance: string, r: Restored): InstalledMod {
    var source := if r.entry.source.ModDb? then ModDbSource(ReleaseRef(r.entry.modId, r.entry.releaseId)) else "local";
    InstalledMod(id, instance, if Trim(r.displayName) == "" then r.entry.identifier else r.displayName,
                 r.entry.version, r.fileName, r.path, r.entry.enabled, r.entry.source.ModDb?, source)
  }

  lemma RecordIsRecord(id: string, instance: string, r: Restored)
    ensures IsRecordOf(Record(id, instance, r), instance, r)
  {
  }

  predicate IsRecordOf(record: InstalledMod, instance: string, r: Restored) {
    record == Record(record.id, instance, r)
  }

  class ModStore {
    const steady: bool      // whether every save and delete works
    var records: seq<InstalledMod>

    constructor (steady: bool, records: seq<InstalledMod>)
      ensures this.steady == steady && this.records == records
    {
      this.steady, this.records := steady, records;
    }

    method ListMods(instance: string) returns (found: seq<InstalledMod>)
      ensures forall m :: m in found <==> m in records && m.instanceId == instance
    {
      found := [];
      for i := 0 to |records|
        invariant forall m :: m in found <==> m in records[..i] && m.instanceId == instance
      {
        if records[i].instanceId == instance {
          found := found + [records[i]];
        }
      }
      assert records[..|records|] == records;
    }

    method DeleteMod(id: string) returns (ok: bool)
      modifies this
      ensures forall m :: m in records <==> m in old(records) && (ok ==> m.id != id)
      ensures !ok ==> records == old(records)
      ensures steady ==> ok
    {
      if steady { ok := true; } else { ok := *; }
      if ok {
        var kept := [];
        for i := 0 to |records|
          invariant records == old(records)
          invariant forall m :: m in kept <==> m in records[..i] && m.id != id
        {
          if records[i].id != id {
            kept := kept + [records[i]];
          }
        }
        assert records[..|records|] == records;
        records := kept;
      }
    }

    method SaveMod(mod: InstalledMod) returns (ok: bool)
      modifies this
      ensures records == if ok then old(records) + [mod] else old(records)
      ensures steady ==> ok
    {
      if steady { ok := true; } else { ok := *; }
      if ok {
        records := records + [mod];
      }
    }
  }

  predicate AllOf(records: seq<InstalledMod>, instance: string) {
    forall i :: 0 <= i < |records| ==> records[i].instanceId == instance
  }

  /** The records of one instance after a rebuild that went through. */
  predicate Rebuilt(records: seq<InstalledMod>, instance: string, restored: seq<Restored>) {
    |records| == |restored| && forall i :: 0 <= i < |restored| ==> IsRecordOf(records[i], instance, restored[i])
  }

  lemma NoMembers(records: seq<InstalledMod>)
    ensures (forall m :: m !in records) ==> records == []
  {
    if records != [] {
      assert records[0] in records;
    }
  }

  /** ids are the fresh identifiers, files what os.Stat finds in the instance directory. */
  method RebuildInstanceMods(store: ModStore, instance: string, restored: seq<Restored>, ids: seq<string>, files: set<string>)
    returns (ok: bool)
    requires |ids| >= |restored| && AllOf(store.records, instance)
    modifies store
    ensures ok ==> Rebuilt(store.records, instance, restored)
    ensures ok ==> forall i :: 0 <= i < |restored| ==> restored[i].path in files
    ensures store.steady && (forall i :: 0 <= i < |restored| ==> restored[i].path in files) ==> ok
  {
    hide Record, Trim, ModDbSource;
    var existing := store.ListMods(instance);
    for i := 0 to |existing|
      invariant forall m :: m in store.records ==> m in existing && m.id !in Ids(existing[..i])
    {
      var done := store.DeleteMod(existing[i].id);
      if !done {
        return false;
      }
      assert existing[..i + 1] == existing[..i] + [existing[i]];
    }
    assert existing[..|existing|] == existing;
    NoMembers(store.records);
    for i := 0 to |restored|
      invariant Rebuilt(store.records, instance, restored[..i])
      invariant forall j :: 0 <= j < i ==> restored[j].path in files
    {
      if restored[i].path !in files {
        return false;
      }
      var record := Record(ids[i], instance, restored[i]);
      RecordIsRecord(ids[i], instance, restored[i]);
      var done := store.SaveMod(record);
      if !done {
        return false;
      }
    }
    assert restored[..|restored|] == restored;
    return true;
  }

  /** The records of a restore say where the files were put: a mod is on exactly when its file
      is in the directory of the mods that are on. */
  lemma RecordsSayWhereFilesAre(arrivals: seq<Arrival>, instance: string, restored: seq<Restored>, records: seq<InstalledMod>)
    requires AllInstalled(arrivals) && |restored| == |arrivals| && Rebuilt(records, instance, restored)
    requires forall i :: 0 <= i < |arrivals| ==> restored[i] == RestoredMod(arrivals[i].mod, arrivals[i].download)
    ensures forall i :: 0 <= i < |records| ==>
              && (records[i].enabled <==> arrivals[i].mod.enabled)
              && (records[i].enabled <==> "Mods/" <= records[i].filePath)
              && (!records[i].enabled <==> "ModsDisabled/" <= records[i].filePath)
              && records[i].fileName == arrivals[i].download.fileName
              && records[i].name == (if Trim(arrivals[i].download.name) != "" then arrivals[i].download.name else arrivals[i].mod.identifier)
              && records[i].version == arrivals[i].mod.version && (records[i].managed <==> arrivals[i].mod.source.ModDb?)
              && records[i].filePath in Staged(arrivals)
  {
    hide Staged, RestoredMod, PathOf, ModDbSource, Trim, IsRecordOf;
    forall i | 0 <= i < |records|
      ensures RecordSays(arrivals[i], records[i]) && records[i].filePath in Staged(arrivals)
    {
      RecordIsOfArrival(arrivals[i], instance, records[i]);
      EachIsStaged(arrivals, i);
    }
  }

  predicate RecordSays(a: Arrival, record: InstalledMod)
    requires a.download.Installed?
  {
    && (record.enabled <==> a.mod.enabled)
    && (record.enabled <==> "Mods/" <= record.filePath)
    && (!record.enabled <==> "ModsDisabled/" <= record.filePath)
    && record.fileName == a.download.fileName
    && record.name == (if Trim(a.download.name) != "" then a.download.name else a.mod.identifier)
    && record.version == a.mod.version && (record.managed <==> a.mod.source.ModDb?)
  }

  lemma RecordIsOfArrival(a: Arrival, instance: string, record: InstalledMod)
    requires a.download.Installed? && IsRecordOf(record, instance, RestoredMod(a.mod, a.download))
    ensures RecordSays(a, record) && record.filePath == PathOf(a.mod, a.download.fileName)
  {
    hide ModDbSource, Trim;
    EntryOfRestored(a);
    assert record.filePath[4] == if record.enabled then '/' else 'D';
  }

  function Ids(mods: seq<InstalledMod>): set<string> {
    set m | m in mods :: m.id
  }

  // ---- The round trip

  /** The entry survives: its marker can be printed, and the catalog still names its
      release by the version that the snapshot recorded. */
  predicate Survives(cache: map<ReleaseRef, Cached>, mod: Mod) {
    var release := ReleaseRef(mod.modId, mod.releaseId);
    && ':' !in mod.modId && ':' !in mod.releaseId
    && (release in cache && Trim(cache[release].version) != "" ==> cache[release].version == mod.version)
  }

  lemma RecordReadsBack(cache: map<ReleaseRef, Cached>, record: InstalledMod, instance: string, r: Restored)
    requires IsRecordOf(record, instance, r) && Recoverable(r.entry)
    ensures var e := ManifestEntry(cache, record);
            if ':' in r.entry.modId || ':' in r.entry.releaseId then e.source.Unknown?
            else e.source.ModDb? && e.modId == r.entry.modId
                 && (e.version == r.entry.version <==> Survives(cache, r.entry))
  {
    hide Trim;
    var release := ReleaseRef(r.entry.modId, r.entry.releaseId);
    assert Trim("") == "" by { TrimmedStays(""); }
    if ':' in r.entry.modId || ':' in r.entry.releaseId {
      SeparatorIsNotPrinted(release);
    } else {
      MarkerRoundTripIff(release);
    }
  }

  /** What else of an entry survives a restore: whether the mod is on always, its file name
      and checksum as far as the cache knows the release they were downloaded from. */
  lemma EntryComesBack(cache: map<ReleaseRef, Cached>, a: Arrival, instance: string, record: InstalledMod)
    requires a.download.Installed? && Recoverable(a.mod) && ':' !in a.mod.modId && ':' !in a.mod.releaseId
    requires IsRecordOf(record, instance, RestoredMod(a.mod, a.download))
    ensures var e, release := ManifestEntry(cache, record), ReleaseRef(a.mod.modId, a.mod.releaseId);
            && e.enabled == a.mod.enabled && e.modId == a.mod.modId && e.releaseId == a.mod.releaseId
            && (e.sha256 == a.mod.sha256 <==>
                if release in cache then cache[release].checksum == a.mod.sha256 else a.mod.sha256 == "")
            && (release !in cache || Trim(cache[release].fileName) == "" ==> e.fileName == a.download.fileName)
            && (release in cache && Trim(cache[release].fileName) != "" ==> e.fileName == cache[release].fileName)
  {
    hide Trim, ParseModDbSource, ModDbSource;
    MarkerRoundTripIff(ReleaseRef(a.mod.modId, a.mod.releaseId));
    assert Trim("") == "" by { TrimmedStays(""); }
    RecordReadsBack(cache, record, instance, RestoredMod(a.mod, a.download));
    RecordIsOfArrival(a, instance, record);
  }

  lemma KeysDiffer(a: Mod, b: Mod)
    requires a.source.ModDb? && b.source.Unknown?
    ensures ModKey(a) != ModKey(b)
  {
    hide Trim;
    assert ModKey(a)[0] == 'm' && ModKey(b)[0] == 'l';
  }

  /** One rebuilt record, seen from the snapshot: it is the same mod in the same version
      exactly when its entry survives. */
  lemma RecordMatchesIff(cache: map<ReleaseRef, Cached>, mods: seq<Mod>, record: InstalledMod, instance: string, r: Restored)
    requires DistinctKeys(mods) && (forall i :: 0 <= i < |mods| ==> Recoverable(mods[i])) && r.entry in mods
    requires IsRecordOf(record, instance, r)
    ensures var e := ManifestEntry(cache, record);
            Get(ByKey(mods), ModKey(e)) == Some(e.version) <==> Survives(cache, r.entry)
  {
    hide Trim, ParseModDbSource, ModDbSource, ByKey, DistinctKeys, IsRecordOf;
    RecordReadsBack(cache, record, instance, r);
    var e := ManifestEntry(cache, record);
    var i :| 0 <= i < |mods| && mods[i] == r.entry;
    ByKeyLists(mods, ModKey(e));
    if e.source.Unknown? {
      forall j | 0 <= j < |mods|
        ensures ModKey(mods[j]) != ModKey(e)
      {
        KeysDiffer(mods[j], e);
      }
    } else {
      assert ModKey(e) == ModKey(r.entry);
      assert Lists(mods, ModKey(e), r.entry.version);
    }
  }

  /** After a restore whose downloads arrived in any order and whose records were rebuilt,
      the manifest of the instance is the same mod set as the snapshot's exactly when every
      entry survives. */
  lemma RoundTripIff(cache: map<ReleaseRef, Cached>, instance: string, mods: seq<Mod>,
                     restored: seq<Restored>, records: seq<InstalledMod>)
    requires DistinctKeys(mods) && forall i :: 0 <= i < |mods| ==> Recoverable(mods[i])
    requires multiset(Entries(restored)) == multiset(mods) && Rebuilt(records, instance, restored)
    ensures SameMods(mods, Manifest(cache, records)) <==> forall i :: 0 <= i < |mods| ==> Survives(cache, mods[i])
  {
    hide Trim, ModKey, ByKey, Survives, ManifestEntry, DistinctKeys, IsRecordOf;
    var again := Manifest(cache, records);
    assert |Entries(restored)| == |multiset(Entries(restored))| == |mods|;
    forall k | 0 <= k < |records|
      ensures restored[k].entry in mods
      ensures Get(ByKey(mods), ModKey(again[k])) == Some(again[k].version) <==> Survives(cache, restored[k].entry)
    {
      assert Entries(restored)[k] in multiset(Entries(restored));
      assert restored[k].entry in multiset(mods);
      RecordMatchesIff(cache, mods, records[k], instance, restored[k]);
    }
    forall i | 0 <= i < |mods|
      ensures exists k :: 0 <= k < |restored| && restored[k].entry == mods[i]
    {
      assert mods[i] in multiset(mods);
      assert mods[i] in Entries(restored);
    }
  }

  // ---- The swap

  datatype Failure = NotMoved | RolledBack | Stranded

  /** The three directories the swap moves between, by what they hold. */
  class Directories<Content> {
    var live: Option<Content>
    var previous: Option<Content>
    var staging: Option<Content>

    /** Each rename succeeds or fails as the disk decides: setting the instance aside, putting
        the staging directory in its place, moving the instance back. The instance is replaced
        by the complete staging directory, or keeps its files: they are in place unless
        moving them back failed too, and then they are set aside. */
    method Swap(moves: bool, places: bool, back: bool, removes: bool) returns (failure: Option<Failure>)
      requires live.Some? && staging.Some?
      modifies this
      ensures failure.None? <==> moves && places
      ensures failure.None? ==> live == old(staging) && staging == None && previous == if removes then None else old(live)
      ensures failure == Some(NotMoved) <==> !moves
      ensures failure == Some(NotMoved) ==> live == old(live) && previous == old(previous) && staging == None
      ensures failure == Some(RolledBack) <==> moves && !places && back
      ensures failure == Some(RolledBack) ==> live == old(live) && previous == None && staging == old(staging)
      ensures failure == Some(Stranded) <==> moves && !places && !back
      ensures failure == Some(Stranded) ==> live == None && previous == old(live) && staging == old(staging)
    {
      if !moves {
        staging := None;
        return Some(NotMoved);
      }
      live, previous := None, live;
      if !places {
        if !back {
          return Some(Stranded);
        }
        live, previous := previous, None;
        return Some(RolledBack);
      }
      live, staging := staging, None;
      if removes {
        previous := None;
      }
      return None;
    }
  }
}
