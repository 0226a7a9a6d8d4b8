/** The mod entries of a snapshot manifest: their source markers, identities and the
    comparison of two lists. */
module SnapshotMods {
  import opened Prelude
  import opened Text

  // ---- Source markers

  datatype ReleaseRef = ReleaseRef(modId: string, releaseId: string)

  function ParseModDbSource(source: string): Option<ReleaseRef> {
    var parts := Split(source, ':');
    if |parts| != 3 || parts[0] != "moddb" || parts[1] == "" || parts[2] == "" then None
    else Some(ReleaseRef(parts[1], parts[2]))
  }

  function ModDbSource(release: ReleaseRef): string {
    "moddb:" + release.modId + ":" + release.releaseId
  }

  /** Identifiers that a source marker can carry. */
  predicate Printable(release: ReleaseRef) {
    release.modId != "" && release.releaseId != "" && ':' !in release.modId && ':' !in release.releaseId
  }

  /** A marker is read back as what was written exactly when both identifiers are there
      and neither contains the separator. */
  lemma MarkerRoundTripIff(release: ReleaseRef)
    ensures ParseModDbSource(ModDbSource(release)) == Some(release) <==> Printable(release)
  {
    var source := ModDbSource(release);
    assert source == "moddb" + [':'] + (release.modId + [':'] + release.releaseId);
    SplitFirst("moddb", release.modId + [':'] + release.releaseId, ':');
    var tail := Split(release.modId + [':'] + release.releaseId, ':');
    assert Split(source, ':')[1..] == tail;
    if ':' !in release.modId {
      SplitFirst(release.modId, release.releaseId, ':');
      if ':' !in release.releaseId {
        SplitNothing(release.releaseId, ':');
      }
    }
    SplitIsInverse(source, ':');
  }

  /** And whatever is read is written back unchanged. */
  lemma ParsedMarkerIsWhole(source: string)
    requires ParseModDbSource(source).Some?
    ensures ModDbSource(ParseModDbSource(source).value) == source
    ensures Printable(ParseModDbSource(source).value)
  {
    var parts := Split(source, ':');
    SplitIsInverse(source, ':');
    assert parts == ["moddb", parts[1], parts[2]];
    assert parts[1..][1..] == [parts[2]];
    assert Joined(parts[1..], ':') == parts[1] + [':'] + parts[2];
    assert Joined(parts, ':') == parts[0] + [':'] + (parts[1] + [':'] + parts[2]);
  }

  lemma SeparatorIsNotPrinted(release: ReleaseRef)
    requires ':' in release.modId || ':' in release.releaseId
    ensures ParseModDbSource(ModDbSource(release)) == None
  {
    var source := ModDbSource(release);
    if ParseModDbSource(source).Some? {
      var read := ParseModDbSource(source).value;
      ParsedMarkerIsWhole(source);
      assert source[6..] == release.modId + ":" + release.releaseId;
      assert ModDbSource(read)[6..] == read.modId + ":" + read.releaseId;
      OneSeparator(read.modId, read.releaseId, release.modId, release.releaseId);
    }
  }

  /** A text with one separator has only one pair of sides. */
  lemma OneSeparator(a: string, b: string, c: string, d: string)
    requires a + ":" + b == c + ":" + d && ':' !in a && ':' !in b
    ensures a == c && b == d
  {
    var s := a + ":" + b;
    assert s[|a|] == ':' && s[|c|] == ':';
    assert forall i :: 0 <= i < |s| && i != |a| ==> s[i] != ':' by {
      forall i | 0 <= i < |s| && i != |a|
        ensures s[i] != ':'
      {
        assert if i < |a| then s[i] in a else s[i] in b;
      }
    }
    assert s[..|a|] == a && s[|a| + 1..] == b && s[..|c|] == c && s[|c| + 1..] == d;
  }

  // ---- Entries

  datatype Source = ModDb | Unknown | Other(name: string)

  datatype Mod = Mod(source: Source, modId: string, releaseId: string, identifier: string,
                     version: string, fileName: string, sha256: string, enabled: bool)

  function ModKey(mod: Mod): string {
    if mod.source.ModDb? then "moddb:" + Trim(mod.modId)
    else
      var name := Trim(mod.identifier);
      "local:" + if name == "" then Trim(mod.fileName) else name
  }

  function ModDisplayName(mod: Mod): string {
    if Trim(mod.identifier) != "" then mod.identifier
    else if Trim(mod.modId) != "" then mod.modId
    else mod.fileName
  }

  /** Two entries are one mod if both are of the catalog and have its identifier, or neither is
      and they have the same name, or file name if they have none. */
  lemma SameKeyIff(a: Mod, b: Mod)
    ensures a.source.ModDb? && b.source.ModDb? ==> (ModKey(a) == ModKey(b) <==> Trim(a.modId) == Trim(b.modId))
    ensures a.source.ModDb? != b.source.ModDb? ==> ModKey(a) != ModKey(b)
    ensures !a.source.ModDb? && !b.source.ModDb? ==>
              var x := if Trim(a.identifier) == "" then Trim(a.fileName) else Trim(a.identifier);
              var y := if Trim(b.identifier) == "" then Trim(b.fileName) else Trim(b.identifier);
              ModKey(a) == ModKey(b) <==> x == y
  {
    hide Trim;
    assert ModKey(a)[0] == (if a.source.ModDb? then 'm' else 'l') && ModKey(b)[0] == (if b.source.ModDb? then 'm' else 'l');
    SamePrefix("moddb:", Trim(a.modId), Trim(b.modId));
    SamePrefix("local:", if Trim(a.identifier) == "" then Trim(a.fileName) else Trim(a.identifier),
               if Trim(b.identifier) == "" then Trim(b.fileName) else Trim(b.identifier));
  }

  /** An entry is shown by the first of its three names that is not blank. */
  lemma DisplayNameMeaning(mod: Mod)
    ensures ModDisplayName(mod) in {mod.identifier, mod.modId, mod.fileName}
    ensures Trim(ModDisplayName(mod)) == "" <==> Trim(mod.identifier) == "" && Trim(mod.modId) == "" && Trim(mod.fileName) == ""
    ensures Trim(mod.identifier) != "" ==> ModDisplayName(mod) == mod.identifier
    ensures Trim(mod.identifier) == "" && Trim(mod.modId) != "" ==> ModDisplayName(mod) == mod.modId
  {
    hide Trim;
  }

  predicate Recoverable(mod: Mod) {
    mod.source.ModDb? && Trim(mod.modId) != "" && Trim(mod.releaseId) != ""
  }

  method ValidateMods(mods: seq<Mod>) returns (ok: bool)
    ensures ok <==> forall i :: 0 <= i < |mods| ==> Recoverable(mods[i])
    ensures ok <==> forall i :: 0 <= i < |mods| ==>
                      mods[i].source.ModDb? && Trim(mods[i].modId) != "" && Trim(mods[i].releaseId) != ""
  {
    hide Trim;
    for i := 0 to |mods|
      invariant forall j :: 0 <= j < i ==> Recoverable(mods[j])
    {
      match mods[i].source
      case ModDb =>
        if Trim(mods[i].modId) == "" || Trim(mods[i].releaseId) == "" {
          return false;
        }
      case Unknown => return false;
      case Other(_) => return false;
    }
    return true;
  }

  // ---- Comparing two lists

  predicate Lists(mods: seq<Mod>, key: string, version: string) {
    exists i :: 0 <= i < |mods| && ModKey(mods[i]) == key && mods[i].version == version
  }

  predicate DistinctKeys(mods: seq<Mod>) {
    forall i, j :: 0 <= i < j < |mods| ==> ModKey(mods[i]) != ModKey(mods[j])
  }

  /** The version recorded last for each identity. */
  function ByKey(mods: seq<Mod>): map<string, string> {
    if mods == [] then map[]
    else ByKey(mods[..|mods| - 1])[ModKey(mods[|mods| - 1]) := mods[|mods| - 1].version]
  }

  predicate SameMods(left: seq<Mod>, right: seq<Mod>) {
    |left| == |right| && forall i :: 0 <= i < |right| ==> Get(ByKey(left), ModKey(right[i])) == Some(right[i].version)
  }

  method SameModSet(left: seq<Mod>, right: seq<Mod>) returns (same: bool)
    ensures same <==> SameMods(left, right)
  {
    hide ModKey;
    if |left| != |right| {
      return false;
    }
    var byKey := map[];
    for i := 0 to |left|
      invariant byKey == ByKey(left[..i])
    {
      byKey := byKey[ModKey(left[i]) := left[i].version];
      assert left[..i + 1][..i] == left[..i];
    }
    assert left[..|left|] == left;
    for i := 0 to |right|
      invariant forall j :: 0 <= j < i ==> Get(byKey, ModKey(right[j])) == Some(right[j].version)
    {
      if ModKey(right[i]) !in byKey || byKey[ModKey(right[i])] != right[i].version {
        return false;
      }
    }
    return true;
  }

  lemma {:induction false} ByKeyLists(mods: seq<Mod>, key: string)
    ensures key in ByKey(mods) <==> exists i :: 0 <= i < |mods| && ModKey(mods[i]) == key
    ensures key in ByKey(mods) ==> Lists(mods, key, ByKey(mods)[key])
    ensures DistinctKeys(mods) ==> forall v :: Lists(mods, key, v) ==> Get(ByKey(mods), key) == Some(v)
  {
    hide ModKey;
    if mods != [] {
      var last := |mods| - 1;
      ByKeyLists(mods[..last], key);
      assert forall i :: 0 <= i < last ==> mods[..last][i] == mods[i];
      forall v
        ensures Lists(mods, key, v) <==> Lists(mods[..last], key, v) || (ModKey(mods[last]) == key && mods[last].version == v)
      {
        OneMoreListed(mods[..last], mods[last], mods, key, v);
      }
    }
  }

  lemma OneMoreListed(before: seq<Mod>, mod: Mod, after: seq<Mod>, key: string, version: string)
    requires after == before + [mod]
    ensures Lists(after, key, version) <==> Lists(before, key, version) || (ModKey(mod) == key && mod.version == version)
  {
    hide ModKey;
    if Lists(before, key, version) {
      var i :| 0 <= i < |before| && ModKey(before[i]) == key && before[i].version == version;
      assert after[i] == before[i];
    }
    assert after[|before|] == mod;
  }

  lemma {:induction false} ByKeyCount(mods: seq<Mod>)
    requires DistinctKeys(mods)
    ensures |ByKey(mods)| == |mods|
  {
    hide ModKey;
    if mods != [] {
      var last := |mods| - 1;
      ByKeyCount(mods[..last]);
      ByKeyLists(mods[..last], ModKey(mods[last]));
      assert forall i :: 0 <= i < last ==> mods[..last][i] == mods[i];
    }
  }

  lemma {:induction false} SubmapOfSameSize(a: map<string, string>, b: map<string, string>)
    requires forall k :: k in a ==> Get(b, k) == Some(a[k])
    requires |a| == |b|
    ensures a == b
  {
    assert a.Keys <= b.Keys && |a.Keys| == |a| && |b.Keys| == |b|;
    SubsetOfSameSize(a.Keys, b.Keys);
    assert forall k :: k in a <==> k in b;
  }

  lemma {:induction false} SubsetOfSameSize(a: set<string>, b: set<string>)
    requires a <= b && |a| == |b|
    ensures a == b
  {
    if a != {} {
      var x :| x in a;
      SubsetOfSameSize(a - {x}, b - {x});
    }
  }

  /** With distinct identities the comparison is equality of what the lists record, so it
      is an equivalence and the order of entries does not matter. */
  lemma SameModsMeansSameMap(left: seq<Mod>, right: seq<Mod>)
    requires DistinctKeys(left) && DistinctKeys(right)
    ensures SameMods(left, right) <==> ByKey(left) == ByKey(right)
  {
    hide ModKey;
    ByKeyCount(left);
    ByKeyCount(right);
    forall i | 0 <= i < |right|
      ensures Get(ByKey(right), ModKey(right[i])) == Some(right[i].version)
    {
      ByKeyLists(right, ModKey(right[i]));
      assert Lists(right, ModKey(right[i]), right[i].version);
    }
    if SameMods(left, right) {
      forall k | k in ByKey(right)
        ensures Get(ByKey(left), k) == Some(ByKey(right)[k])
      {
        ByKeyLists(right, k);
      }
      SubmapOfSameSize(ByKey(right), ByKey(left));
    }
  }

  /** Without that it is not even reflexive: a list is the same as itself exactly when
      entries with one identity agree on the version. */
  lemma SameAsItselfIff(mods: seq<Mod>)
    ensures SameMods(mods, mods) <==>
            forall i, j :: 0 <= i < |mods| && 0 <= j < |mods| && ModKey(mods[i]) == ModKey(mods[j]) ==> mods[i].version == mods[j].version
  {
    hide ModKey;
    forall i | 0 <= i < |mods|
      ensures ModKey(mods[i]) in ByKey(mods) && Lists(mods, ModKey(mods[i]), ByKey(mods)[ModKey(mods[i])])
    {
      ByKeyLists(mods, ModKey(mods[i]));
    }
  }

  lemma OrderOnTheRightIsFree(left: seq<Mod>, a: seq<Mod>, b: seq<Mod>)
    requires multiset(a) == multiset(b)
    ensures SameMods(left, a) <==> SameMods(left, b)
  {
    hide ModKey;
    if SameMods(left, a) {
      OrderOneWay(left, a, b);
    }
    if SameMods(left, b) {
      OrderOneWay(left, b, a);
    }
  }

  lemma OrderOneWay(left: seq<Mod>, a: seq<Mod>, b: seq<Mod>)
    requires multiset(a) == multiset(b) && SameMods(left, a)
    ensures SameMods(left, b)
  {
    hide ModKey;
    assert |a| == |multiset(a)| == |b|;
    forall i | 0 <= i < |b|
      ensures Get(ByKey(left), ModKey(b[i])) == Some(b[i].version)
    {
      assert b[i] in multiset(b);
      assert b[i] in a;
    }
  }

  // ---- The manifest of installed mods

  datatype InstalledMod = InstalledMod(id: string, instanceId: string, name: string, version: string, fileName: string,
                                       filePath: string, enabled: bool, managed: bool, source: string)

  datatype Cached = Cached(slug: string, version: string, fileName: string, checksum: string)

  function Preferred(cached: string, own: string): string {
    if Trim(cached) != "" then cached else own
  }

  function ManifestEntry(cache: map<ReleaseRef, Cached>, mod: InstalledMod): Mod {
    var release := ParseModDbSource(mod.source);
    if release.None? then Mod(Unknown, "", "", mod.name, mod.version, mod.fileName, "", mod.enabled)
    else
      var ref := release.value;
      if ref !in cache then
        Mod(ModDb, ref.modId, ref.releaseId, mod.name, mod.version, mod.fileName, "", mod.enabled)
      else
        var c := cache[ref];
        Mod(ModDb, ref.modId, ref.releaseId, Preferred(c.slug, mod.name), Preferred(c.version, mod.version),
            Preferred(c.fileName, mod.fileName), c.checksum, mod.enabled)
  }

  function Manifest(cache: map<ReleaseRef, Cached>, installed: seq<InstalledMod>): (mods: seq<Mod>)
    ensures |mods| == |installed|
    ensures forall i :: 0 <= i < |installed| ==> mods[i] == ManifestEntry(cache, installed[i])
  {
    seq(|installed|, i requires 0 <= i < |installed| => ManifestEntry(cache, installed[i]))
  }

  method ModManifest(cache: map<ReleaseRef, Cached>, installed: seq<InstalledMod>) returns (mods: seq<Mod>)
    ensures mods == Manifest(cache, installed)
    ensures |mods| == |installed|
    ensures forall i :: 0 <= i < |mods| ==>
              var release := ParseModDbSource(installed[i].source);
              && mods[i].enabled == installed[i].enabled
              && (mods[i].source.ModDb? <==> release.Some?)
              && (release.Some? ==> mods[i].modId == release.value.modId && mods[i].releaseId == release.value.releaseId)
              && (if release.Some? && release.value in cache
                  then
                    var c := cache[release.value];
                    && mods[i].sha256 == c.checksum
                    && mods[i].identifier == (if Trim(c.slug) == "" then installed[i].name else c.slug)
                    && mods[i].version == (if Trim(c.version) == "" then installed[i].version else c.version)
                    && mods[i].fileName == (if Trim(c.fileName) == "" then installed[i].fileName else c.fileName)
                  else
                    && mods[i].sha256 == "" && mods[i].identifier == installed[i].name
                    && mods[i].version == installed[i].version && mods[i].fileName == installed[i].fileName)
  {
    hide ParseModDbSource, Trim;
    mods := [];
    for i := 0 to |installed|
      invariant |mods| == i && forall j :: 0 <= j < i ==> mods[j] == ManifestEntry(cache, installed[j])
    {
      var release := ParseModDbSource(installed[i].source);
      var mod := installed[i];
      if release.Some? {
        var entry := Mod(ModDb, release.value.modId, release.value.releaseId, mod.name, mod.version, mod.fileName, "", mod.enabled);
        if release.value in cache {
          var cached := cache[release.value];
          if Trim(cached.slug) != "" {
            entry := entry.(identifier := cached.slug);
          }
          if Trim(cached.version) != "" {
            entry := entry.(version := cached.version);
          }
          if Trim(cached.fileName) != "" {
            entry := entry.(fileName := cached.fileName);
          }
          entry := entry.(sha256 := cached.checksum);
        }
        mods := mods + [entry];
      } else {
        mods := mods + [Mod(Unknown, "", "", mod.name, mod.version, mod.fileName, "", mod.enabled)];
      }
    }
  }

  function InstalledModKey(mod: InstalledMod): string {
    var release := ParseModDbSource(mod.source);
    if release.Some? then "moddb:" + release.value.modId
    else
      var name := Trim(mod.name);
      "local:" + if name == "" then Trim(mod.fileName) else name
  }

  /** The key of an installed record is the key of its manifest entry exactly when a
      catalog identifier in its source has no white space around it. */
  lemma InstalledKeyMatchesIff(cache: map<ReleaseRef, Cached>, mod: InstalledMod)
    ensures InstalledModKey(mod) == ModKey(ManifestEntry(cache, mod)) <==>
            (ParseModDbSource(mod.source).Some? ==>
               Trim(ParseModDbSource(mod.source).value.modId) == ParseModDbSource(mod.source).value.modId)
  {
    hide ParseModDbSource, Trim;
    var release := ParseModDbSource(mod.source);
    if release.Some? {
      SamePrefix("moddb:", release.value.modId, Trim(release.value.modId));
    }
  }

  lemma SamePrefix(prefix: string, a: string, b: string)
    ensures prefix + a == prefix + b <==> a == b
  {
    assert (prefix + a)[|prefix|..] == a && (prefix + b)[|prefix|..] == b;
  }
}
