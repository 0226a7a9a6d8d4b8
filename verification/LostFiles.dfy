/** When a mod record loses the file at its path to an earlier record. */
module LostFiles {
  import opened Prelude
  import opened Text
  import opened ModReconciliation

  /** The file name of a record and of a file is the last part of its path. */
  ghost predicate NamesFitPaths(list: seq<Record>, found: seq<Found>, ignoresCase: bool) {
    forall r, k :: r in list && 0 <= k < |found| && SamePath(found[k].filePath, r.filePath, ignoresCase) ==>
      EqualFold(found[k].fileName, r.fileName)
  }

  // ---- What the lists say, before anything is matched

  /** The files that no record of the list has as its path. */
  function Free(list: seq<Record>, found: seq<Found>, ignoresCase: bool): set<int> {
    set k | 0 <= k < |found| && forall r :: r in list ==> !SamePath(found[k].filePath, r.filePath, ignoresCase)
  }

  /** No file is at the path of the record, unless an earlier record has the same path. */
  predicate Stray(earlier: seq<Record>, found: seq<Found>, ignoresCase: bool, r: Record) {
    forall k :: k in Free(earlier, found, ignoresCase) ==> !SamePath(found[k].filePath, r.filePath, ignoresCase)
  }

  /** How many records with that file name are strays. */
  function Strays(list: seq<Record>, found: seq<Found>, ignoresCase: bool, name: string): nat {
    if list == [] then 0
    else
      var last := |list| - 1;
      Strays(list[..last], found, ignoresCase, name)
        + if Lower(list[last].fileName) == name && Stray(list[..last], found, ignoresCase, list[last]) then 1 else 0
  }

  /** How many of the first m files have that name and are free. */
  function Rank(found: seq<Found>, free: set<int>, name: string, m: nat): nat
    requires m <= |found|
  {
    if m == 0 then 0
    else Rank(found, free, name, m - 1) + if Named(found, m - 1, name) && m - 1 in free then 1 else 0
  }

  predicate Named(found: seq<Found>, k: int, name: string) {
    0 <= k < |found| && Lower(found[k].fileName) == name
  }

  lemma {:induction false} RankGrows(found: seq<Found>, free: set<int>, name: string, a: nat, b: nat)
    requires a < b <= |found|
    ensures Rank(found, free, name, a) + (if Named(found, a, name) && a in free then 1 else 0) <= Rank(found, free, name, b)
    decreases b
  {
    if a + 1 < b { RankGrows(found, free, name, a, b - 1); }
  }

  /** The free file just before the rank that m has. */
  lemma {:induction false} RankBelow(found: seq<Found>, free: set<int>, name: string, m: nat) returns (k: nat)
    requires m <= |found| && Rank(found, free, name, m) > 0
    ensures k < m && Named(found, k, name) && k in free
    ensures Rank(found, free, name, k) + 1 == Rank(found, free, name, m)
    decreases m
  {
    if Named(found, m - 1, name) && m - 1 in free {
      k := m - 1;
    } else {
      k := RankBelow(found, free, name, m - 1);
    }
  }

  lemma {:induction false} RankWithout(found: seq<Found>, free: set<int>, name: string, k: nat, m: nat)
    requires k in free && k < |found| && m <= |found|
    ensures Rank(found, free, name, m)
            == Rank(found, free - {k}, name, m) + if Named(found, k, name) && k < m then 1 else 0
  {
    if m > 0 { RankWithout(found, free, name, k, m - 1); }
  }

  // ---- One record at a time

  /** Of the files with that name, those with a record at their path are taken, and the
      first free ones, one for each stray. */
  ghost predicate TakenInOrder(found: seq<Found>, taken: set<int>, free: set<int>, name: string, strays: nat) {
    forall k: nat :: Named(found, k, name) ==> (k in taken <==> k !in free || Rank(found, free, name, k) < strays)
  }

  /** The first file with that name that is not taken, or -1. */
  ghost predicate FirstLeft(found: seq<Found>, taken: set<int>, name: string, c: int) {
    && (c == -1 || (c >= 0 && Named(found, c, name) && c !in taken))
    && forall j: nat :: j < (if c == -1 then |found| else c) && Named(found, j, name) ==> j in taken
  }

  function With(taken: set<int>, c: int): set<int> {
    if c >= 0 then taken + {c} else taken
  }

  lemma FirstLeftIsNext(found: seq<Found>, taken: set<int>, free: set<int>, name: string, strays: nat, c: int)
    requires TakenInOrder(found, taken, free, name, strays) && FirstLeft(found, taken, name, c) && c >= 0
    ensures c in free && Rank(found, free, name, c) == strays
  {
    if Rank(found, free, name, c) > strays {
      var k := RankBelow(found, free, name, c);
    }
  }

  lemma StrayTakesNext(found: seq<Found>, taken: set<int>, free: set<int>, name: string, strays: nat, c: int)
    requires TakenInOrder(found, taken, free, name, strays) && FirstLeft(found, taken, name, c)
    ensures TakenInOrder(found, With(taken, c), free, name, strays + 1)
  {
    if c >= 0 { FirstLeftIsNext(found, taken, free, name, strays, c); }
    forall k: nat | Named(found, k, name)
      ensures k in With(taken, c) <==> k !in free || Rank(found, free, name, k) < strays + 1
    {
      if c >= 0 && k < c { RankGrows(found, free, name, k, c); }
      if c >= 0 && c < k { RankGrows(found, free, name, c, k); }
    }
  }

  /** k is the file at the record's path, and the first record to have that path is this one. */
  lemma OwnerTakes(found: seq<Found>, taken: set<int>, free: set<int>, name: string, strays: nat, k: nat, c: int)
    requires TakenInOrder(found, taken, free, name, strays) && k in free && Named(found, k, name)
    requires if k in taken then FirstLeft(found, taken, name, c) else c == k
    ensures TakenInOrder(found, With(taken, c), free - {k}, name, strays)
  {
    if k in taken && c >= 0 { FirstLeftIsNext(found, taken, free, name, strays, c); }
    forall m: nat | Named(found, m, name)
      ensures m in With(taken, c) <==> m !in free - {k} || Rank(found, free - {k}, name, m) < strays
    {
      RankWithout(found, free, name, k, m);
      if m < k { RankGrows(found, free, name, m, k); }
      if k < m { RankGrows(found, free, name, k, m); }
      if c >= 0 && m < c { RankGrows(found, free, name, m, c); }
      if c >= 0 && c < m { RankGrows(found, free, name, c, m); }
    }
  }

  /** A record with another file name changes nothing. */
  lemma OthersStay(found: seq<Found>, taken: set<int>, free: set<int>, free': set<int>, name: string, strays: nat, c: int)
    requires TakenInOrder(found, taken, free, name, strays) && !Named(found, c, name)
    requires free' == free || exists k: nat :: k in free && k < |found| && !Named(found, k, name) && free' == free - {k}
    ensures TakenInOrder(found, With(taken, c), free', name, strays)
  {
    forall m: nat | Named(found, m, name)
      ensures m in free' <==> m in free
      ensures Rank(found, free', name, m) == Rank(found, free, name, m)
    {
      if free' != free {
        var k: nat :| k in free && k < |found| && !Named(found, k, name) && free' == free - {k};
        RankWithout(found, free, name, k, m);
      }
    }
  }

  // ---- The whole list

  /** Where the file at the record's path is, if it is free. */
  ghost predicate Owns(list: seq<Record>, found: seq<Found>, ignoresCase: bool, r: Record, k: int) {
    k in Free(list, found, ignoresCase) && SamePath(found[k].filePath, r.filePath, ignoresCase)
  }

  lemma FreeAfterStray(list: seq<Record>, found: seq<Found>, ignoresCase: bool, r: Record)
    requires Stray(list, found, ignoresCase, r)
    ensures Free(list + [r], found, ignoresCase) == Free(list, found, ignoresCase)
  {
    hide SamePath;
    assert forall x :: x in list + [r] <==> x in list || x == r;
  }

  lemma FreeAfterOwner(list: seq<Record>, found: seq<Found>, ignoresCase: bool, r: Record, k: int)
    requires DistinctPaths(found, ignoresCase) && Owns(list, found, ignoresCase, r, k)
    ensures Free(list + [r], found, ignoresCase) == Free(list, found, ignoresCase) - {k}
  {
    hide SamePath, DistinctPaths;
    assert forall x :: x in list + [r] <==> x in list || x == r;
    forall j | 0 <= j < |found| && SamePath(found[j].filePath, r.filePath, ignoresCase)
      ensures j == k
    {
      OnePath(found, ignoresCase, r, j, k);
    }
  }

  lemma OnePath(found: seq<Found>, ignoresCase: bool, r: Record, j: int, k: int)
    requires DistinctPaths(found, ignoresCase) && 0 <= j < |found| && 0 <= k < |found|
    requires SamePath(found[j].filePath, r.filePath, ignoresCase) && SamePath(found[k].filePath, r.filePath, ignoresCase)
    ensures j == k
  {
    hide PathKey;
    OneFileEach(found, ignoresCase, j, k);
  }

  lemma ChoiceByName(found: seq<Found>, matched: set<int>, r: Record, ignoresCase: bool)
    requires forall j :: !ByPath(found, matched, r, ignoresCase, j)
    ensures FirstLeft(found, matched, Lower(r.fileName), Choice(found, matched, r, ignoresCase))
  {
    hide SamePath, Lower;
    var c := FirstByName(found, matched, r, 0);
    assert Choice(found, matched, r, ignoresCase) == c;
    forall j: nat | j < (if c == -1 then |found| else c) && Named(found, j, Lower(r.fileName))
      ensures j in matched
    {
      assert !ByName(found, matched, r, j);
    }
    assert c != -1 ==> ByName(found, matched, r, c);
  }

  lemma ChoiceByPath(found: seq<Found>, matched: set<int>, r: Record, ignoresCase: bool, k: int)
    requires DistinctPaths(found, ignoresCase) && ByPath(found, matched, r, ignoresCase, k)
    ensures Choice(found, matched, r, ignoresCase) == k
  {
    hide SamePath, DistinctPaths;
    OnePath(found, ignoresCase, r, Choice(found, matched, r, ignoresCase), k);
  }

  /** Which files are taken, told from the lists alone. */
  lemma {:induction false} WhoIsTaken(list: seq<Record>, found: seq<Found>, ignoresCase: bool)
    requires DistinctPaths(found, ignoresCase) && NamesFitPaths(list, found, ignoresCase)
    ensures forall name :: TakenInOrder(found, Taken(Assigned(list, found, ignoresCase)), Free(list, found, ignoresCase), name,
                                        Strays(list, found, ignoresCase, name))
    decreases |list|
  {
    hide TakenInOrder, Taken, Choice, SamePath, EqualFold, DistinctPaths, Free, Stray;
    if list == [] {
      NoRecords(found, ignoresCase);
    } else {
      var last := |list| - 1;
      var before, r := list[..last], list[last];
      assert list == before + [r];
      WhoIsTaken(before, found, ignoresCase);
      var taken := Taken(Assigned(before, found, ignoresCase));
      var c := Choice(found, taken, r, ignoresCase);
      OneMoreTaken(Assigned(before, found, ignoresCase), c);
      assert Taken(Assigned(list, found, ignoresCase)) == With(taken, c);
      forall name
        ensures TakenInOrder(found, With(taken, c), Free(list, found, ignoresCase), name, Strays(list, found, ignoresCase, name))
      {
        assert TakenInOrder(found, taken, Free(before, found, ignoresCase), name, Strays(before, found, ignoresCase, name));
        OneMoreTakes(before, r, found, ignoresCase, taken, name);
      }
    }
  }

  lemma NoRecords(found: seq<Found>, ignoresCase: bool)
    ensures forall name :: TakenInOrder(found, Taken(Assigned([], found, ignoresCase)), Free([], found, ignoresCase), name,
                                        Strays([], found, ignoresCase, name))
  {}

  lemma OneMoreTakes(before: seq<Record>, r: Record, found: seq<Found>, ignoresCase: bool, taken: set<int>, name: string)
    requires DistinctPaths(found, ignoresCase) && NamesFitPaths(before + [r], found, ignoresCase)
    requires var strays := Strays(before, found, ignoresCase, Lower(r.fileName));
             TakenInOrder(found, taken, Free(before, found, ignoresCase), Lower(r.fileName), strays)
    requires TakenInOrder(found, taken, Free(before, found, ignoresCase), name, Strays(before, found, ignoresCase, name))
    ensures TakenInOrder(found, With(taken, Choice(found, taken, r, ignoresCase)), Free(before + [r], found, ignoresCase), name,
                         Strays(before + [r], found, ignoresCase, name))
  {
    hide TakenInOrder, Taken, Choice, SamePath, DistinctPaths, Free, Lower, FirstLeft, NamesFitPaths;
    var free := Free(before, found, ignoresCase);
    var c := Choice(found, taken, r, ignoresCase);
    assert (before + [r])[..|before|] == before;
    NameFits(before + [r], r, found, ignoresCase);
    ChoiceIsNamed(before + [r], found, taken, r, ignoresCase);
    if Stray(before, found, ignoresCase, r) {
      FreeAfterStray(before, found, ignoresCase, r);
      StraysGoByName(before, r, found, ignoresCase, taken);
      if name == Lower(r.fileName) {
        StrayTakesNext(found, taken, free, name, Strays(before, found, ignoresCase, name), c);
      } else {
        OthersStay(found, taken, free, free, name, Strays(before, found, ignoresCase, name), c);
      }
    } else {
      forall k | k in free
        ensures 0 <= k < |found|
      {
        FreeIsFound(before, found, ignoresCase, k);
      }
      var k :| k in free && SamePath(found[k].filePath, r.filePath, ignoresCase);
      FreeAfterOwner(before, found, ignoresCase, r, k);
      OwnersGoByPath(found, ignoresCase, r, taken, k);
      if name == Lower(r.fileName) {
        OwnerTakes(found, taken, free, name, Strays(before, found, ignoresCase, name), k, c);
      } else {
        OthersStay(found, taken, free, free - {k}, name, Strays(before, found, ignoresCase, name), c);
      }
    }
  }

  lemma FreeIsFound(list: seq<Record>, found: seq<Found>, ignoresCase: bool, k: int)
    requires k in Free(list, found, ignoresCase)
    ensures 0 <= k < |found|
  {}

  lemma NameFits(list: seq<Record>, r: Record, found: seq<Found>, ignoresCase: bool)
    requires NamesFitPaths(list, found, ignoresCase) && r in list
    ensures forall k :: 0 <= k < |found| && SamePath(found[k].filePath, r.filePath, ignoresCase) ==> Named(found, k, Lower(r.fileName))
  {}

  lemma ChoiceIsNamed(list: seq<Record>, found: seq<Found>, matched: set<int>, r: Record, ignoresCase: bool)
    requires NamesFitPaths(list, found, ignoresCase) && r in list
    ensures var c := Choice(found, matched, r, ignoresCase); c >= 0 ==> Named(found, c, Lower(r.fileName))
  {
    hide SamePath;
  }

  lemma StraysGoByName(before: seq<Record>, r: Record, found: seq<Found>, ignoresCase: bool, taken: set<int>)
    requires Stray(before, found, ignoresCase, r) && NamesFitPaths(before + [r], found, ignoresCase)
    requires TakenInOrder(found, taken, Free(before, found, ignoresCase), Lower(r.fileName),
                          Strays(before, found, ignoresCase, Lower(r.fileName)))
    ensures FirstLeft(found, taken, Lower(r.fileName), Choice(found, taken, r, ignoresCase))
  {
    hide SamePath, Lower, Free, NamesFitPaths;
    assert (before + [r])[|before|] == r;
    NameFits(before + [r], r, found, ignoresCase);
    forall j
      ensures !ByPath(found, taken, r, ignoresCase, j)
    {
      assert ByPath(found, taken, r, ignoresCase, j) ==> Named(found, j, Lower(r.fileName));
    }
    ChoiceByName(found, taken, r, ignoresCase);
  }

  lemma OwnersGoByPath(found: seq<Found>, ignoresCase: bool, r: Record, taken: set<int>, k: int)
    requires DistinctPaths(found, ignoresCase) && 0 <= k < |found| && SamePath(found[k].filePath, r.filePath, ignoresCase)
    ensures if k in taken then FirstLeft(found, taken, Lower(r.fileName), Choice(found, taken, r, ignoresCase))
            else Choice(found, taken, r, ignoresCase) == k
  {
    hide SamePath, DistinctPaths, Lower, FirstLeft, Choice;
    if k in taken {
      forall j
        ensures !ByPath(found, taken, r, ignoresCase, j)
      {
        if ByPath(found, taken, r, ignoresCase, j) { OnePath(found, ignoresCase, r, j, k); }
      }
      ChoiceByName(found, taken, r, ignoresCase);
    } else {
      ChoiceByPath(found, taken, r, ignoresCase, k);
    }
  }

  // ---- Main results

  /** A record whose file is still at its path keeps it exactly when the earlier records of
      that name without a file of their own are no more than the files of that name that come
      first and belong to none of the earlier records. */
  lemma OwnFileIsKeptIff(list: seq<Record>, found: seq<Found>, ignoresCase: bool, i: nat, k: nat)
    requires DistinctPaths(found, ignoresCase) && NamesFitPaths(list, found, ignoresCase)
    requires i < |list| && k in Free(list[..i], found, ignoresCase)
    requires SamePath(found[k].filePath, list[i].filePath, ignoresCase)
    ensures var name := Lower(list[i].fileName);
            Assigned(list, found, ignoresCase)[i] == k <==>
            Strays(list[..i], found, ignoresCase, name) <= Rank(found, Free(list[..i], found, ignoresCase), name, k)
  {
    hide Taken, Choice, SamePath, DistinctPaths, Lower, Free, Strays, Rank;
    var name := Lower(list[i].fileName);
    var taken := Taken(Assigned(list[..i], found, ignoresCase));
    assert list[i] in list && forall r :: r in list[..i] ==> r in list;
    assert NamesFitPaths(list[..i], found, ignoresCase);
    WhoIsTaken(list[..i], found, ignoresCase);
    assert TakenInOrder(found, taken, Free(list[..i], found, ignoresCase), name, Strays(list[..i], found, ignoresCase, name));
    NameFits(list, list[i], found, ignoresCase);
    AssignedStep(list, found, ignoresCase, i);
    AssignedPrefix(list, found, ignoresCase, i + 1);
    FreeIsFound(list[..i], found, ignoresCase, k);
    GetsOwnFileIff(found, taken, list[i], ignoresCase, k);
  }

  /** No earlier record of that file name is without a file of its own. */
  ghost predicate NoStrayBefore(list: seq<Record>, found: seq<Found>, ignoresCase: bool, i: nat)
    requires i < |list|
  {
    forall j :: 0 <= j < i && EqualFold(list[j].fileName, list[i].fileName) ==> !Stray(list[..j], found, ignoresCase, list[j])
  }

  lemma {:induction false} NoStraysIff(list: seq<Record>, found: seq<Found>, ignoresCase: bool, name: string, i: nat)
    requires i <= |list|
    ensures Strays(list[..i], found, ignoresCase, name) == 0 <==>
            forall j :: 0 <= j < i && Lower(list[j].fileName) == name ==> !Stray(list[..j], found, ignoresCase, list[j])
  {
    hide Stray, Lower;
    if i > 0 {
      assert list[..i][..i - 1] == list[..i - 1];
      NoStraysIff(list, found, ignoresCase, name, i - 1);
    }
  }

  predicate DistinctNames(found: seq<Found>) {
    forall j, k :: 0 <= j < k < |found| ==> !EqualFold(found[j].fileName, found[k].fileName)
  }

  lemma {:induction false} NoneFirst(found: seq<Found>, free: set<int>, name: string, m: nat)
    requires m <= |found| && forall j :: 0 <= j < m ==> !Named(found, j, name)
    ensures Rank(found, free, name, m) == 0
  {
    if m > 0 { NoneFirst(found, free, name, m - 1); }
  }

  /** A record keeps the file at its path if no earlier record of the same file name lacks
      one, and only then if no two files on disk share a name. */
  lemma OwnFileIsKept(list: seq<Record>, found: seq<Found>, ignoresCase: bool, i: nat, k: nat)
    requires DistinctPaths(found, ignoresCase) && NamesFitPaths(list, found, ignoresCase)
    requires i < |list| && k in Free(list[..i], found, ignoresCase)
    requires SamePath(found[k].filePath, list[i].filePath, ignoresCase)
    ensures NoStrayBefore(list, found, ignoresCase, i) ==> Assigned(list, found, ignoresCase)[i] == k
    ensures DistinctNames(found) ==> (Assigned(list, found, ignoresCase)[i] == k <==> NoStrayBefore(list, found, ignoresCase, i))
  {
    hide Stray, SamePath, DistinctPaths, Lower, Free, Strays, Rank, NamesFitPaths, Assigned;
    var name := Lower(list[i].fileName);
    OwnFileIsKeptIff(list, found, ignoresCase, i, k);
    NoStraysIff(list, found, ignoresCase, name, i);
    FreeIsFound(list[..i], found, ignoresCase, k);
    NameFits(list, list[i], found, ignoresCase);
    if DistinctNames(found) {
      forall j | 0 <= j < k
        ensures !Named(found, j, name)
      {}
      NoneFirst(found, Free(list[..i], found, ignoresCase), name, k);
    }
  }
}
