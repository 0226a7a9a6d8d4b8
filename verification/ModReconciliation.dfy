/** Bringing the stored mod records of an instance in line with the files on disk. */
module ModReconciliation {
  import opened Prelude
  import opened Text

  /** A mod file that the scan found. */
  datatype Found = Found(name: string, version: string, fileName: string, filePath: string, enabled: bool, size: int)

  datatype Record = Record(id: string, name: string, version: string, fileName: string, filePath: string,
                           enabled: bool, managed: bool, source: string, size: int)

  /** File systems that ignore case compare paths so; the rest compare them exactly. Paths
      are already clean. */
  function PathKey(path: string, ignoresCase: bool): string {
    if ignoresCase then Lower(path) else path
  }

  predicate SamePath(a: string, b: string, ignoresCase: bool) {
    PathKey(a, ignoresCase) == PathKey(b, ignoresCase)
  }

  predicate DistinctPaths(found: seq<Found>, ignoresCase: bool) {
    forall i, j :: 0 <= i < j < |found| ==> !SamePath(found[i].filePath, found[j].filePath, ignoresCase)
  }

  // ---- Matching

  predicate ByPath(found: seq<Found>, matched: set<int>, r: Record, ignoresCase: bool, k: int) {
    0 <= k < |found| && k !in matched && SamePath(found[k].filePath, r.filePath, ignoresCase)
  }

  predicate ByName(found: seq<Found>, matched: set<int>, r: Record, k: int) {
    0 <= k < |found| && k !in matched && EqualFold(found[k].fileName, r.fileName)
  }

  function FirstByPath(found: seq<Found>, matched: set<int>, r: Record, ignoresCase: bool, i: nat): (k: int)
    requires i <= |found|
    ensures k == -1 || (i <= k && ByPath(found, matched, r, ignoresCase, k))
    ensures forall j :: i <= j < (if k == -1 then |found| else k) ==> !ByPath(found, matched, r, ignoresCase, j)
    decreases |found| - i
  {
    if i == |found| then -1
    else if ByPath(found, matched, r, ignoresCase, i) then i
    else FirstByPath(found, matched, r, ignoresCase, i + 1)
  }

  function FirstByName(found: seq<Found>, matched: set<int>, r: Record, i: nat): (k: int)
    requires i <= |found|
    ensures k == -1 || (i <= k && ByName(found, matched, r, k))
    ensures forall j :: i <= j < (if k == -1 then |found| else k) ==> !ByName(found, matched, r, j)
    decreases |found| - i
  {
    if i == |found| then -1
    else if ByName(found, matched, r, i) then i
    else FirstByName(found, matched, r, i + 1)
  }

  /** The first unmatched file at the record's path, else the first with its name. */
  function Choice(found: seq<Found>, matched: set<int>, r: Record, ignoresCase: bool): (k: int)
    ensures k == -1 || ByPath(found, matched, r, ignoresCase, k) || ByName(found, matched, r, k)
    ensures (exists j :: ByPath(found, matched, r, ignoresCase, j)) ==> ByPath(found, matched, r, ignoresCase, k)
    ensures k == -1 ==> forall j :: !ByPath(found, matched, r, ignoresCase, j) && !ByName(found, matched, r, j)
  {
    var byPath := FirstByPath(found, matched, r, ignoresCase, 0);
    if byPath >= 0 then byPath else FirstByName(found, matched, r, 0)
  }

  method FindDiscoveredMod(found: seq<Found>, matched: array<bool>, r: Record, ignoresCase: bool) returns (index: int)
    requires matched.Length == |found|
    ensures index == Choice(found, Marked(matched), r, ignoresCase)
  {
    hide SamePath, EqualFold;
    ghost var marked := Marked(matched);
    for i := 0 to |found|
      invariant forall j :: 0 <= j < i ==> !ByPath(found, marked, r, ignoresCase, j)
    {
      if !matched[i] && SamePath(found[i].filePath, r.filePath, ignoresCase) {
        assert ByPath(found, marked, r, ignoresCase, i);
        return i;
      }
    }
    for i := 0 to |found|
      invariant forall j :: 0 <= j < i ==> !ByName(found, marked, r, j)
    {
      if !matched[i] && EqualFold(found[i].fileName, r.fileName) {
        assert ByName(found, marked, r, i);
        return i;
      }
    }
    return -1;
  }

  function Marked(matched: array<bool>): set<int>
    reads matched
  {
    set k | 0 <= k < matched.Length && matched[k]
  }

  /** What each record of the list gets, and which files are taken after it. */
  function Assigned(list: seq<Record>, found: seq<Found>, ignoresCase: bool): (chosen: seq<int>)
    ensures |chosen| == |list|
    ensures forall i :: 0 <= i < |list| ==> -1 <= chosen[i] < |found|
  {
    if list == [] then []
    else
      var before := Assigned(list[..|list| - 1], found, ignoresCase);
      before + [Choice(found, Taken(before), list[|list| - 1], ignoresCase)]
  }

  function Taken(chosen: seq<int>): set<int> {
    set i | 0 <= i < |chosen| && chosen[i] >= 0 :: chosen[i]
  }

  function Updated(r: Record, f: Found): Record {
    r.(fileName := f.fileName, filePath := f.filePath, enabled := f.enabled, size := f.size)
  }

  function Created(id: string, f: Found): Record {
    Record(id, f.name, f.version, f.fileName, f.filePath, f.enabled, false, "local", f.size)
  }

  lemma {:induction false} AssignedStep(list: seq<Record>, found: seq<Found>, ignoresCase: bool, i: nat)
    requires i < |list|
    ensures Assigned(list[..i + 1], found, ignoresCase)
            == Assigned(list[..i], found, ignoresCase) + [Choice(found, Taken(Assigned(list[..i], found, ignoresCase)), list[i], ignoresCase)]
  {
    assert list[..i + 1][..i] == list[..i];
  }

  predicate NoneTwice(chosen: seq<int>) {
    forall i, j :: 0 <= i < j < |chosen| && chosen[i] >= 0 ==> chosen[i] != chosen[j]
  }

  predicate AllAlike(list: seq<Record>, found: seq<Found>, chosen: seq<int>, ignoresCase: bool)
    requires |chosen| == |list| && forall i :: 0 <= i < |list| ==> -1 <= chosen[i] < |found|
  {
    forall i :: 0 <= i < |list| && chosen[i] >= 0 ==> Alike(found[chosen[i]], list[i], ignoresCase)
  }

  /** No file is given to two records, and every record that gets one has its path or its
      file name. */
  lemma {:induction false} AssignmentIsSound(list: seq<Record>, found: seq<Found>, ignoresCase: bool)
    ensures NoneTwice(Assigned(list, found, ignoresCase))
    ensures AllAlike(list, found, Assigned(list, found, ignoresCase), ignoresCase)
  {
    hide Alike, Choice, NoneTwice, Taken;
    if list == [] {
      NoneAtAll();
    } else {
      var last := |list| - 1;
      var before := Assigned(list[..last], found, ignoresCase);
      AssignmentIsSound(list[..last], found, ignoresCase);
      ChoiceIsNewAndAlike(found, Taken(before), list[last], ignoresCase);
      StillNoneTwice(before, Choice(found, Taken(before), list[last], ignoresCase));
      var chosen := Assigned(list, found, ignoresCase);
      forall i | 0 <= i < |list| && chosen[i] >= 0
        ensures Alike(found[chosen[i]], list[i], ignoresCase)
      {
        assert i < last ==> chosen[i] == before[i] && list[i] == list[..last][i];
      }
    }
  }

  lemma NoneAtAll()
    ensures NoneTwice([])
  {
  }

  lemma StillNoneTwice(chosen: seq<int>, k: int)
    requires NoneTwice(chosen) && k >= -1 && (k >= 0 ==> k !in Taken(chosen))
    ensures NoneTwice(chosen + [k])
  {
    assert forall i :: 0 <= i < |chosen| && chosen[i] >= 0 ==> chosen[i] in Taken(chosen);
  }

  predicate Alike(f: Found, r: Record, ignoresCase: bool) {
    SamePath(f.filePath, r.filePath, ignoresCase) || EqualFold(f.fileName, r.fileName)
  }

  lemma ChoiceIsNewAndAlike(found: seq<Found>, matched: set<int>, r: Record, ignoresCase: bool)
    ensures var k := Choice(found, matched, r, ignoresCase);
            k >= 0 ==> k !in matched && Alike(found[k], r, ignoresCase)
  {
    hide SamePath, EqualFold;
  }

  /** A record whose file is still at its path gets it unless a record before it took it,
      which such a record can only do by file name. */
  lemma {:induction false} OwnFileUnlessTaken(list: seq<Record>, found: seq<Found>, ignoresCase: bool, i: nat, k: nat)
    requires DistinctPaths(found, ignoresCase) && i < |list| && k < |found|
    requires SamePath(found[k].filePath, list[i].filePath, ignoresCase)
    requires forall j :: 0 <= j < |list| && j != i ==> !SamePath(list[j].filePath, list[i].filePath, ignoresCase)
    ensures var chosen := Assigned(list, found, ignoresCase);
            && (chosen[i] == k <==> forall j :: 0 <= j < i ==> chosen[j] != k)
            && (forall j :: 0 <= j < i && chosen[j] == k ==> EqualFold(found[k].fileName, list[j].fileName))
    decreases |list|
  {
    hide SamePath, EqualFold, DistinctPaths, Choice;
    var last := |list| - 1;
    var before := Assigned(list[..last], found, ignoresCase);
    var chosen := Assigned(list, found, ignoresCase);
    assert chosen == before + [Choice(found, Taken(before), list[last], ignoresCase)];
    assert forall j :: 0 <= j < last ==> chosen[j] == before[j];
    if i < last {
      OwnFileUnlessTaken(list[..last], found, ignoresCase, i, k);
      assert list[..last][i] == list[i];
    } else {
      GetsOwnFileIff(found, Taken(before), list[i], ignoresCase, k);
      TakenIff(before, k);
      forall j | 0 <= j < i && before[j] == k
        ensures EqualFold(found[k].fileName, list[j].fileName)
      {
        AssignmentIsSound(list[..last], found, ignoresCase);
        assert list[..last][j] == list[j];
        NotBothPaths(found[k].filePath, list[j].filePath, list[i].filePath, ignoresCase);
      }
    }
  }

  lemma GetsOwnFileIff(found: seq<Found>, matched: set<int>, r: Record, ignoresCase: bool, k: nat)
    requires DistinctPaths(found, ignoresCase) && k < |found|
    requires SamePath(found[k].filePath, r.filePath, ignoresCase)
    ensures Choice(found, matched, r, ignoresCase) == k <==> k !in matched
  {
    if k !in matched {
      assert ByPath(found, matched, r, ignoresCase, k);
    }
  }

  lemma TakenIff(chosen: seq<int>, k: nat)
    ensures k in Taken(chosen) <==> exists j :: 0 <= j < |chosen| && chosen[j] == k
  {
  }

  lemma NotBothPaths(a: string, b: string, c: string, ignoresCase: bool)
    requires SamePath(a, c, ignoresCase) && !SamePath(b, c, ignoresCase)
    ensures !SamePath(a, b, ignoresCase)
  {
  }

  // ---- The reconciliation

  /** The stored records, in some order. */
  predicate IsListing(list: seq<Record>, records: map<string, Record>) {
    && (forall i :: 0 <= i < |list| ==> list[i].id in records && records[list[i].id] == list[i])
    && (forall i, j :: 0 <= i < j < |list| ==> list[i].id != list[j].id)
    && (forall id :: id in records ==> Lists(list, id))
  }

  predicate Lists(list: seq<Record>, id: string) {
    exists i :: 0 <= i < |list| && list[i].id == id
  }

  predicate FreshIds(newIds: seq<string>, records: map<string, Record>, n: nat) {
    && |newIds| == n
    && (forall k :: 0 <= k < n ==> newIds[k] !in records)
    && (forall j, k :: 0 <= j < k < n ==> newIds[j] != newIds[k])
  }

  predicate Creates(found: seq<Found>, chosen: seq<int>, newIds: seq<string>, id: string)
    requires |newIds| == |found|
  {
    exists k :: 0 <= k < |found| && k !in Taken(chosen) && newIds[k] == id
  }

  /** Matched records are kept and updated, the others are deleted, and every file left over
      gets a new record. */
  ghost predicate Reconciles(list: seq<Record>, found: seq<Found>, newIds: seq<string>, ignoresCase: bool, after: map<string, Record>)
    requires |newIds| == |found|
  {
    var chosen := Assigned(list, found, ignoresCase);
    && (forall i :: 0 <= i < |list| ==>
          Get(after, list[i].id) == if chosen[i] < 0 then None else Some(Updated(list[i], found[chosen[i]])))
    && (forall k :: 0 <= k < |found| && k !in Taken(chosen) ==> Get(after, newIds[k]) == Some(Created(newIds[k], found[k])))
    && (forall id :: id in after ==> Lists(list, id) || Creates(found, chosen, newIds, id))
  }

  class ModService {
    const steady: bool      // whether every save and delete works
    var records: map<string, Record>

    constructor (steady: bool, records: map<string, Record>)
      ensures this.steady == steady && this.records == records
    {
      this.steady, this.records := steady, records;
    }

    method SaveMod(r: Record) returns (ok: bool)
      modifies this
      ensures records == if ok then old(records)[r.id := r] else old(records)
      ensures steady ==> ok
    {
      if steady { ok := true; } else { ok := *; }
      if ok {
        records := records[r.id := r];
      }
    }

    method DeleteMod(id: string) returns (ok: bool)
      modifies this
      ensures records == if ok then old(records) - {id} else old(records)
      ensures steady ==> ok
    {
      if steady { ok := true; } else { ok := *; }
      if ok {
        records := records - {id};
      }
    }

    /** list is what the repository returns, in its order; found what the scan returns. */
    method ListMods(directoryExists: bool, list: seq<Record>, found: seq<Found>, newIds: seq<string>, ignoresCase: bool)
      returns (ok: bool)
      requires IsListing(list, records) && FreshIds(newIds, records, |found|)
      modifies this
      ensures !directoryExists ==> ok && records == old(records)
      ensures directoryExists && ok ==> Reconciles(list, found, newIds, ignoresCase, records)
      ensures steady ==> ok
    {
      hide Choice, Taken, Assigned, Reconciles, UpTo, CreatedUpTo;
      if !directoryExists {
        return true;
      }
      var matched := new bool[|found|](_ => false);
      NothingTaken(matched);
      ok := MatchRecords(list, found, matched, ignoresCase);
      if !ok {
        return;
      }
      ghost var kept := records;
      ok := CreateMissing(found, newIds, matched, Assigned(list, found, ignoresCase));
      if ok {
        Finished(list, found, newIds, ignoresCase, old(records), kept, records);
      }
    }

    /** The loop over the records. */
    method MatchRecords(list: seq<Record>, found: seq<Found>, matched: array<bool>, ignoresCase: bool) returns (ok: bool)
      requires IsListing(list, records) && matched.Length == |found| && Marked(matched) == {}
      modifies this, matched
      ensures ok ==> Marked(matched) == Taken(Assigned(list, found, ignoresCase))
      ensures ok ==> UpTo(list, found, Assigned(list, found, ignoresCase), |list|, old(records), records)
      ensures steady ==> ok
    {
      hide Choice, Taken, UpTo, IsListing, Assigned;
      ghost var chosen := Assigned(list, found, ignoresCase);
      Begin(list, found, chosen, records, ignoresCase);
      for i := 0 to |list|
        invariant Marked(matched) == Taken(Assigned(list[..i], found, ignoresCase))
        invariant UpTo(list, found, chosen, i, old(records), records)
      {
        AssignedStep(list, found, ignoresCase, i);
        AssignedPrefix(list, found, ignoresCase, i + 1);
        ghost var before := Assigned(list[..i], found, ignoresCase);
        var k := FindDiscoveredMod(found, matched, list[i], ignoresCase);
        assert k == chosen[i];
        OneMoreTaken(before, k);
        ghost var so := records;
        if k < 0 {
          var done := DeleteMod(list[i].id);
          if !done {
            return false;
          }
        } else {
          ghost var marked := Marked(matched);
          matched[k] := true;
          assert Marked(matched) == marked + {k};
          var done := SaveMod(Updated(list[i], found[k]));
          if !done {
            return false;
          }
        }
        OneMoreRecord(list, found, chosen, i, old(records), so, records);
      }
      assert list[..|list|] == list;
      return true;
    }

    /** The loop over the files that no record was matched with. */
    method CreateMissing(found: seq<Found>, newIds: seq<string>, matched: array<bool>, ghost chosen: seq<int>) returns (ok: bool)
      requires matched.Length == |found| == |newIds| && Marked(matched) == Taken(chosen)
      requires forall j, k :: 0 <= j < k < |newIds| ==> newIds[j] != newIds[k]
      modifies this
      ensures ok ==> CreatedUpTo(found, chosen, newIds, |found|, old(records), records)
      ensures steady ==> ok
    {
      hide Taken, CreatedUpTo;
      ghost var kept := records;
      NothingCreated(found, chosen, newIds, kept);
      for k := 0 to |found|
        invariant CreatedUpTo(found, chosen, newIds, k, kept, records)
      {
        ghost var so := records;
        assert matched[k] <==> k in Marked(matched);
        if !matched[k] {
          var done := SaveMod(Created(newIds[k], found[k]));
          if !done {
            return false;
          }
        }
        OneMoreCreated(found, chosen, newIds, k, kept, so, records);
      }
      return true;
    }
  }

  lemma Begin(list: seq<Record>, found: seq<Found>, chosen: seq<int>, records: map<string, Record>, ignoresCase: bool)
    requires IsListing(list, records) && |chosen| == |list| && forall i :: 0 <= i < |list| ==> -1 <= chosen[i] < |found|
    ensures UpTo(list, found, chosen, 0, records, records)
    ensures Taken(Assigned(list[..0], found, ignoresCase)) == {}
  {
  }

  lemma NothingCreated(found: seq<Found>, chosen: seq<int>, newIds: seq<string>, kept: map<string, Record>)
    requires |newIds| == |found|
    ensures CreatedUpTo(found, chosen, newIds, 0, kept, kept)
  {
  }

  lemma NothingTaken(matched: array<bool>)
    requires forall k :: 0 <= k < matched.Length ==> !matched[k]
    ensures Marked(matched) == {}
  {
  }

  lemma OneMoreTaken(chosen: seq<int>, k: int)
    ensures Taken(chosen + [k]) == if k >= 0 then Taken(chosen) + {k} else Taken(chosen)
  {
    var next := chosen + [k];
    forall x
      ensures x in Taken(next) <==> x in Taken(chosen) || (x == k && k >= 0)
    {
      if x in Taken(chosen) {
        var i :| 0 <= i < |chosen| && chosen[i] >= 0 && chosen[i] == x;
        assert next[i] == x;
      }
      if x == k && k >= 0 {
        assert next[|chosen|] == k;
      }
    }
  }

  lemma {:induction false} AssignedPrefix(list: seq<Record>, found: seq<Found>, ignoresCase: bool, i: nat)
    requires i <= |list|
    ensures Assigned(list[..i], found, ignoresCase) <= Assigned(list, found, ignoresCase)
    decreases |list|
  {
    hide Choice, Taken;
    if i < |list| {
      AssignedPrefix(list[..|list| - 1], found, ignoresCase, i);
      assert list[..|list| - 1][..i] == list[..i];
    } else {
      assert list[..i] == list;
    }
  }

  /** The first n records of the list have been dealt with. */
  ghost predicate UpTo(list: seq<Record>, found: seq<Found>, chosen: seq<int>, n: nat, before: map<string, Record>, after: map<string, Record>)
    requires |chosen| == |list| && n <= |list| && forall i :: 0 <= i < |list| ==> -1 <= chosen[i] < |found|
  {
    && (forall i :: 0 <= i < n ==>
          Get(after, list[i].id) == if chosen[i] < 0 then None else Some(Updated(list[i], found[chosen[i]])))
    && (forall i :: n <= i < |list| ==> Get(after, list[i].id) == Some(list[i]))
    && (forall id :: id in after ==> id in before)
  }

  lemma OneMoreRecord(list: seq<Record>, found: seq<Found>, chosen: seq<int>, n: nat,
                      before: map<string, Record>, so: map<string, Record>, after: map<string, Record>)
    requires |chosen| == |list| && n < |list| && forall i :: 0 <= i < |list| ==> -1 <= chosen[i] < |found|
    requires IsListing(list, before) && UpTo(list, found, chosen, n, before, so)
    requires after == if chosen[n] < 0 then so - {list[n].id} else so[list[n].id := Updated(list[n], found[chosen[n]])]
    ensures UpTo(list, found, chosen, n + 1, before, after)
  {
    forall i | 0 <= i < |list| && i != n
      ensures Get(after, list[i].id) == Get(so, list[i].id)
    {
      assert if i < n then list[i].id != list[n].id else list[n].id != list[i].id;
    }
  }

  /** The first n files have been looked at for new records. */
  ghost predicate CreatedUpTo(found: seq<Found>, chosen: seq<int>, newIds: seq<string>, n: nat, kept: map<string, Record>, after: map<string, Record>)
    requires |newIds| == |found| && n <= |found|
  {
    && (forall k :: 0 <= k < n && k !in Taken(chosen) ==> Get(after, newIds[k]) == Some(Created(newIds[k], found[k])))
    && (forall id :: id !in newIds ==> Get(after, id) == Get(kept, id))
    && (forall id :: id in after ==> id in kept || Creates(found, chosen, newIds, id))
  }

  lemma OneMoreCreated(found: seq<Found>, chosen: seq<int>, newIds: seq<string>, n: nat,
                       kept: map<string, Record>, so: map<string, Record>, after: map<string, Record>)
    requires |newIds| == |found| && n < |found| && forall j, k :: 0 <= j < k < |newIds| ==> newIds[j] != newIds[k]
    requires CreatedUpTo(found, chosen, newIds, n, kept, so)
    requires after == if n in Taken(chosen) then so else so[newIds[n] := Created(newIds[n], found[n])]
    ensures CreatedUpTo(found, chosen, newIds, n + 1, kept, after)
  {
    hide Taken;
    assert newIds[n] in newIds;
    if n !in Taken(chosen) {
      assert Creates(found, chosen, newIds, newIds[n]);
    }
  }

  lemma Finished(list: seq<Record>, found: seq<Found>, newIds: seq<string>, ignoresCase: bool,
                 before: map<string, Record>, kept: map<string, Record>, after: map<string, Record>)
    requires IsListing(list, before) && FreshIds(newIds, before, |found|)
    requires UpTo(list, found, Assigned(list, found, ignoresCase), |list|, before, kept)
    requires CreatedUpTo(found, Assigned(list, found, ignoresCase), newIds, |found|, kept, after)
    ensures Reconciles(list, found, newIds, ignoresCase, after)
  {
    hide Taken, Choice, Assigned;
    forall i | 0 <= i < |list|
      ensures Get(after, list[i].id) == Get(kept, list[i].id)
    {
      assert list[i].id in before;
    }
    forall id | id in kept
      ensures Lists(list, id)
    {
      assert id in before;
    }
  }

  // ---- Main results

  predicate Has(records: map<string, Record>, id: string, f: Found) {
    id in records && records[id].filePath == f.filePath && records[id].fileName == f.fileName
    && records[id].enabled == f.enabled && records[id].size == f.size
  }

  ghost predicate HasSome(records: map<string, Record>, f: Found) {
    exists id :: Has(records, id, f)
  }

  predicate IsOneOf(records: map<string, Record>, id: string, found: seq<Found>) {
    exists k :: 0 <= k < |found| && Has(records, id, found[k])
  }

  /** Records and files correspond one to one, and a record says what its file is like. */
  ghost predicate InBijection(records: map<string, Record>, found: seq<Found>, ignoresCase: bool) {
    && (forall k :: 0 <= k < |found| ==> HasSome(records, found[k]))
    && (forall id :: id in records ==> IsOneOf(records, id, found))
    && (forall a, b :: a in records && b in records && SamePath(records[a].filePath, records[b].filePath, ignoresCase) ==> a == b)
  }

  /** Which file a record of the reconciled set was made for. */
  ghost predicate MadeFor(list: seq<Record>, found: seq<Found>, newIds: seq<string>, chosen: seq<int>, id: string, k: int)
    requires |newIds| == |found| && |chosen| == |list|
  {
    0 <= k < |found| &&
    ((k !in Taken(chosen) && newIds[k] == id) || exists i :: 0 <= i < |list| && list[i].id == id && chosen[i] == k)
  }

  lemma EachIsMadeFor(list: seq<Record>, found: seq<Found>, newIds: seq<string>, ignoresCase: bool, after: map<string, Record>, id: string)
    returns (k: int)
    requires |newIds| == |found| && Reconciles(list, found, newIds, ignoresCase, after) && id in after
    ensures 0 <= k < |found| && Has(after, id, found[k])
    ensures MadeFor(list, found, newIds, Assigned(list, found, ignoresCase), id, k)
  {
    hide Choice, Assigned, Taken;
    var chosen := Assigned(list, found, ignoresCase);
    if Lists(list, id) {
      var i :| 0 <= i < |list| && list[i].id == id;
      assert Get(after, list[i].id).Some?;
      k := chosen[i];
    } else {
      k :| 0 <= k < |found| && k !in Taken(chosen) && newIds[k] == id;
      assert Get(after, newIds[k]) == Some(Created(newIds[k], found[k]));
    }
  }

  lemma OneIsMadeForEach(list: seq<Record>, found: seq<Found>, newIds: seq<string>, before: map<string, Record>, ignoresCase: bool, a: string, b: string, k: int)
    requires IsListing(list, before) && FreshIds(newIds, before, |found|)
    requires MadeFor(list, found, newIds, Assigned(list, found, ignoresCase), a, k)
    requires MadeFor(list, found, newIds, Assigned(list, found, ignoresCase), b, k)
    ensures a == b
  {
    hide Choice, Assigned;
    var chosen := Assigned(list, found, ignoresCase);
    AssignmentIsSound(list, found, ignoresCase);
  }

  /** After a scan that went through, records and files correspond one to one, and every
      record that was there before and still is kept its identity, name, version and source. */
  lemma ScanGivesBijection(list: seq<Record>, found: seq<Found>, newIds: seq<string>, ignoresCase: bool,
                           before: map<string, Record>, after: map<string, Record>)
    requires |newIds| == |found| && FreshIds(newIds, before, |found|) && DistinctPaths(found, ignoresCase)
    requires IsListing(list, before) && Reconciles(list, found, newIds, ignoresCase, after)
    ensures InBijection(after, found, ignoresCase)
    ensures forall id :: id in before && id in after ==>
              after[id] == before[id].(fileName := after[id].fileName, filePath := after[id].filePath,
                                       enabled := after[id].enabled, size := after[id].size)
    ensures forall id :: id in after && id !in before ==> IsImported(after[id], found)
  {
    hide Choice, Assigned, Reconciles, IsListing, FreshIds, MadeFor, Taken, Has;
    var chosen := Assigned(list, found, ignoresCase);
    forall k | 0 <= k < |found|
      ensures HasSome(after, found[k])
    {
      var id := FileHasRecord(list, found, newIds, ignoresCase, after, k);
    }
    forall id | id in after
      ensures IsOneOf(after, id, found)
    {
      var k := EachIsMadeFor(list, found, newIds, ignoresCase, after, id);
    }
    forall a, b | a in after && b in after && SamePath(after[a].filePath, after[b].filePath, ignoresCase)
      ensures a == b
    {
      var j := EachIsMadeFor(list, found, newIds, ignoresCase, after, a);
      var k := EachIsMadeFor(list, found, newIds, ignoresCase, after, b);
      HasPath(after, a, found[j]);
      HasPath(after, b, found[k]);
      OneFileEach(found, ignoresCase, j, k);
      OneIsMadeForEach(list, found, newIds, before, ignoresCase, a, b, j);
    }
    forall id | id in before && id in after
      ensures after[id] == before[id].(fileName := after[id].fileName, filePath := after[id].filePath,
                                       enabled := after[id].enabled, size := after[id].size)
    {
      KeptRecord(list, found, newIds, ignoresCase, before, after, id);
    }
    forall id | id in after && id !in before
      ensures IsImported(after[id], found)
    {
      NewRecordIsImported(list, found, newIds, ignoresCase, before, after, id);
    }
  }

  /** A record for a file that the launcher did not put there. */
  predicate IsImported(r: Record, found: seq<Found>) {
    !r.managed && r.source == "local" && exists k :: 0 <= k < |found| && IsRecordFor(r, found[k])
  }

  predicate IsRecordFor(r: Record, f: Found) {
    r.name == f.name && r.version == f.version && r.fileName == f.fileName && r.filePath == f.filePath
    && r.enabled == f.enabled && r.size == f.size
  }

  lemma NewRecordIsImported(list: seq<Record>, found: seq<Found>, newIds: seq<string>, ignoresCase: bool,
                            before: map<string, Record>, after: map<string, Record>, id: string)
    requires IsListing(list, before) && |newIds| == |found| && Reconciles(list, found, newIds, ignoresCase, after)
    requires id !in before && id in after
    ensures IsImported(after[id], found)
  {
    hide Choice, Assigned, Taken;
    var chosen := Assigned(list, found, ignoresCase);
    var k :| 0 <= k < |found| && k !in Taken(chosen) && newIds[k] == id;
    assert Get(after, newIds[k]) == Some(Created(newIds[k], found[k]));
    assert IsRecordFor(after[id], found[k]);
  }

  /** Paths are compared exactly, or without regard to letter case where the file system does. */
  lemma SamePathIff(a: string, b: string)
    ensures SamePath(a, b, false) <==> a == b
    ensures SamePath(a, b, true) <==> Lower(a) == Lower(b)
  {
  }

  lemma FileHasRecord(list: seq<Record>, found: seq<Found>, newIds: seq<string>, ignoresCase: bool, after: map<string, Record>, k: int)
    returns (id: string)
    requires |newIds| == |found| && Reconciles(list, found, newIds, ignoresCase, after) && 0 <= k < |found|
    ensures Has(after, id, found[k])
  {
    hide Choice, Assigned;
    var chosen := Assigned(list, found, ignoresCase);
    if k in Taken(chosen) {
      var i :| 0 <= i < |list| && chosen[i] == k;
      id := list[i].id;
      assert Get(after, list[i].id) == Some(Updated(list[i], found[k]));
    } else {
      id := newIds[k];
    }
  }

  lemma HasPath(records: map<string, Record>, id: string, f: Found)
    requires Has(records, id, f)
    ensures id in records && records[id].filePath == f.filePath
  {
  }

  lemma OneFileEach(found: seq<Found>, ignoresCase: bool, j: int, k: int)
    requires DistinctPaths(found, ignoresCase) && 0 <= j < |found| && 0 <= k < |found|
    requires SamePath(found[j].filePath, found[k].filePath, ignoresCase)
    ensures j == k
  {
    hide PathKey;
  }

  lemma KeptRecord(list: seq<Record>, found: seq<Found>, newIds: seq<string>, ignoresCase: bool,
                   before: map<string, Record>, after: map<string, Record>, id: string)
    requires IsListing(list, before) && |newIds| == |found| && Reconciles(list, found, newIds, ignoresCase, after)
    requires id in before && id in after
    ensures after[id] == before[id].(fileName := after[id].fileName, filePath := after[id].filePath,
                                     enabled := after[id].enabled, size := after[id].size)
  {
    hide Choice, Assigned, Taken;
    assert Lists(list, id);
    var i :| 0 <= i < |list| && list[i].id == id;
    assert Get(after, list[i].id).Some?;
  }

  /** Scanning again with the same files on disk creates nothing, deletes nothing and
      changes nothing. */
  lemma SecondScanChangesNothing(list: seq<Record>, found: seq<Found>, newIds: seq<string>, ignoresCase: bool,
                                 before: map<string, Record>, after: map<string, Record>)
    requires |newIds| == |found| && FreshIds(newIds, before, |found|) && DistinctPaths(found, ignoresCase)
    requires IsListing(list, before) && InBijection(before, found, ignoresCase)
    requires Reconciles(list, found, newIds, ignoresCase, after)
    ensures after == before
  {
    hide Choice, Assigned, Has, SamePath, DistinctPaths, FreshIds;
    var chosen := Assigned(list, found, ignoresCase);
    forall i | 0 <= i < |list|
      ensures chosen[i] >= 0 && Has(before, list[i].id, found[chosen[i]])
    {
      EveryOneKeepsItsFile(list, found, ignoresCase, before, i);
    }
    forall k | 0 <= k < |found|
      ensures k in Taken(chosen)
    {
      assert HasSome(before, found[k]);
      var id :| Has(before, id, found[k]);
      HasPath(before, id, found[k]);
      assert Lists(list, id);
      var i :| 0 <= i < |list| && list[i].id == id;
      HasPath(before, id, found[chosen[i]]);
      SamePathItself(found[k].filePath, found[chosen[i]].filePath, ignoresCase);
      OneFileEach(found, ignoresCase, k, chosen[i]);
    }
    forall id | id in after
      ensures id in before
    {
      assert !Creates(found, chosen, newIds, id);
      var i :| 0 <= i < |list| && list[i].id == id;
    }
    forall id
      ensures Get(after, id) == Get(before, id)
    {
      if id in before {
        assert Lists(list, id);
        var i :| 0 <= i < |list| && list[i].id == id;
        UpdateIsIdle(before, list[i], found[chosen[i]]);
      }
    }
    MapsAgree(after, before);
  }

  lemma SamePathItself(a: string, b: string, ignoresCase: bool)
    ensures a == b ==> SamePath(a, b, ignoresCase)
  {
  }

  lemma UpdateIsIdle(records: map<string, Record>, r: Record, f: Found)
    requires Has(records, r.id, f) && records[r.id] == r
    ensures Updated(r, f) == r
  {
  }

  lemma {:induction false} EveryOneKeepsItsFile(list: seq<Record>, found: seq<Found>, ignoresCase: bool, before: map<string, Record>, i: nat)
    requires IsListing(list, before) && DistinctPaths(found, ignoresCase) && InBijection(before, found, ignoresCase) && i < |list|
    ensures var chosen := Assigned(list, found, ignoresCase);
            chosen[i] >= 0 && Has(before, list[i].id, found[chosen[i]])
    decreases i
  {
    hide Choice, Assigned, Has, SamePath, DistinctPaths;
    var chosen := Assigned(list, found, ignoresCase);
    var k := FileOf(found, before, list[i].id);
    forall j | 0 <= j < |list| && j != i
      ensures !SamePath(list[j].filePath, list[i].filePath, ignoresCase)
    {
      assert list[j].id != list[i].id by {
        assert if j < i then list[j].id != list[i].id else list[i].id != list[j].id;
      }
      assert before[list[j].id] == list[j] && before[list[i].id] == list[i];
    }
    HasPath(before, list[i].id, found[k]);
    SamePathItself(found[k].filePath, list[i].filePath, ignoresCase);
    forall j: nat | j < i
      ensures chosen[j] != k
    {
      EveryOneKeepsItsFile(list, found, ignoresCase, before, j);
      HasPath(before, list[j].id, found[chosen[j]]);
      SamePathItself(found[chosen[j]].filePath, list[j].filePath, ignoresCase);
      SamePathItself(list[j].filePath, list[i].filePath, ignoresCase);
    }
    OwnFileUnlessTaken(list, found, ignoresCase, i, k);
  }

  lemma FileOf(found: seq<Found>, records: map<string, Record>, id: string) returns (k: nat)
    requires id in records && IsOneOf(records, id, found)
    ensures k < |found| && Has(records, id, found[k])
  {
    var j :| 0 <= j < |found| && Has(records, id, found[j]);
    k := j;
  }

  /** A record can lose its file to another one that comes first and has lost its own: the
      file of the second mod is on disk, its record is deleted, and the record of the first,
      whose file is gone, now stands for it. */
  lemma LostFileExample()
    ensures var gone := Record("1", "A", "1", "x.zip", "ModsDisabled/x.zip", false, true, "moddb:1:1", 1);
            var there := Record("2", "B", "2", "x.zip", "Mods/x.zip", true, true, "moddb:2:2", 2);
            var file := Found("B", "2", "x.zip", "Mods/x.zip", true, 2);
            && Assigned([gone, there], [file], false) == [0, -1]
            && Assigned([there, gone], [file], false) == [0, -1]
  {
    var gone := Record("1", "A", "1", "x.zip", "ModsDisabled/x.zip", false, true, "moddb:1:1", 1);
    var there := Record("2", "B", "2", "x.zip", "Mods/x.zip", true, true, "moddb:2:2", 2);
    var file := Found("B", "2", "x.zip", "Mods/x.zip", true, 2);
    assert gone.filePath[4] != file.filePath[4];
    assert [gone, there][..1] == [gone] && [there, gone][..1] == [there] && [gone][..0] == [] && [there][..0] == [];
    assert ByName([file], {}, gone, 0) && !ByPath([file], {}, gone, false, 0);
    assert ByPath([file], {}, there, false, 0);
    assert Assigned([gone], [file], false) == [0];
    assert Assigned([there], [file], false) == [0];
    OneMoreTaken([], 0);
    assert [] + [0] == [0] && Taken([0]) == {0};
  }
}
