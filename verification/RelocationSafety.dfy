/** What the calls around finishPending do to a safe disk: cleaning up, preparing a
    target, copying, removing an old root, and the application's own writes. */
module RelocationSafety {
  import opened Prelude
  import opened FileTree
  import opened Relocation

  /** The disk of a launcher that has started: no half-finished move is in its way. */
  ghost predicate Running(d: Disk, truth: Tree, home: Path) {
    && Safe(d, truth, home)
    && (d.pending.Some? ==> Current(d, home) == d.pending.value.from)
  }

  /** A copy that a Finalize marker still points at. */
  function Leftover(d: Disk): set<Path> {
    if d.pending.Some? && d.pending.value.phase.Finalize? then
      var m := d.pending.value;
      if m.copyTarget in d.fs then {m.copyTarget} else if Owned(d.fs, m) then {m.to} else {}
    else {}
  }

  lemma RunningIsComplete(d: Disk, truth: Tree, home: Path)
    requires Running(d, truth, home)
    ensures Holds(d.fs, Current(d, home), truth)
  {}

  /** A tree change that is invisible under the current root and under a leftover copy. */
  ghost predicate Elsewhere(d: Disk, fs': Tree, home: Path) {
    && (forall rel: Path :: At(fs', Current(d, home), rel) == At(d.fs, Current(d, home), rel))
    && (forall root, rel: Path | root in Leftover(d) :: At(fs', root, rel) == At(d.fs, root, rel))
    && (d.pending.Some? && !Owned(d.fs, d.pending.value) ==> !Owned(fs', d.pending.value))
  }

  lemma ElsewhereIsSafe(d: Disk, fs': Tree, truth: Tree, home: Path)
    requires Running(d, truth, home)
    requires Elsewhere(d, fs', home)
    requires d.pending.Some? && d.pending.value.phase.Finalize? && d.pending.value.copyTarget !in d.fs ==>
               d.pending.value.copyTarget !in fs'
    ensures Running(d.(fs := fs'), truth, home)
  {
    var root := Current(d, home);
    assert forall rel | Tracked(rel) :: At(d.fs, root, rel) == At(fs', root, rel);
    assert Holds(d.fs, root, truth);
    if d.pending.Some? && d.pending.value.phase.Finalize? {
      var m := d.pending.value;
      var leftover := if m.copyTarget in d.fs then m.copyTarget else m.to;
      if leftover in Leftover(d) {
        assert HoldsData(d.fs, leftover, truth);
        assert forall rel | Tracked(rel) && !IsDatabase(rel) :: At(d.fs, leftover, rel) == At(fs', leftover, rel);
        forall name | name in DATABASE_FILES && leftover + [name] in fs'
          ensures m.from + [name] in fs'
        {
          assert At(fs', leftover, [name]) == At(d.fs, leftover, [name]);
          assert At(fs', m.from, [name]) == At(d.fs, m.from, [name]);
        }
        assert At(fs', leftover, [m.owner]) == At(d.fs, leftover, [m.owner]);
        assert leftover + [] == leftover;
        assert At(fs', leftover, []) == At(d.fs, leftover, []);
      }
    }
  }

  /** cleanRelocationTarget, and then clearPending. */
  lemma CleanedUp(d: Disk, m: Marker, truth: Tree, home: Path)
    requires Safe(d, truth, home) && d.pending.Some?
    requires m.from == d.pending.value.from && m.to == d.pending.value.to && m.copyTarget == d.pending.value.copyTarget
    ensures Safe(d.(fs := RemoveTree(d.fs, m.copyTarget)), truth, home)
    ensures Current(d, home) == m.from ==>
              && Running(d.(fs := RemoveTree(d.fs, m.copyTarget)), truth, home)
              && Running(d.(fs := RemoveTree(d.fs, m.copyTarget), pending := None), truth, home)
  {
    hide Faithful;
    var fs' := RemoveTree(d.fs, m.copyTarget);
    var p := d.pending.value;
    forall rel: Path
      ensures At(fs', m.from, rel) == At(d.fs, m.from, rel)
    {
      RemoveTreeAt(d.fs, m.copyTarget, m.from, rel);
    }
    assert forall rel | Tracked(rel) :: At(d.fs, m.from, rel) == At(fs', m.from, rel);
    if p.phase.Finalize? {
      CleanedUpFaithfully(d, p, truth, home);
    }
  }

  lemma CleanedUpFaithfully(d: Disk, p: Marker, truth: Tree, home: Path)
    requires Geometry(p, home) && Faithful(d, p, truth, home)
    ensures Faithful(d.(fs := RemoveTree(d.fs, p.copyTarget)), p, truth, home)
    ensures Holds(RemoveTree(d.fs, p.copyTarget), p.from, truth)
  {
    var fs' := RemoveTree(d.fs, p.copyTarget);
    forall rel: Path
      ensures At(fs', p.from, rel) == At(d.fs, p.from, rel)
      ensures At(fs', p.to, rel) == At(d.fs, p.to, rel)
    {
      RemoveTreeAt(d.fs, p.copyTarget, p.from, rel);
      RemoveTreeAt(d.fs, p.copyTarget, p.to, rel);
    }
    assert At(fs', p.to, [p.owner]) == At(d.fs, p.to, [p.owner]);
    assert forall rel | Tracked(rel) :: At(d.fs, p.from, rel) == At(fs', p.from, rel);
    if p.copyTarget !in d.fs && (Owned(d.fs, p) || Current(d, home) == p.to) {
      assert HoldsData(d.fs, p.to, truth);
      assert forall rel | Tracked(rel) && !IsDatabase(rel) :: At(d.fs, p.to, rel) == At(fs', p.to, rel);
      forall name | name in DATABASE_FILES && p.to + [name] in fs'
        ensures p.from + [name] in fs'
      {
        assert At(fs', p.to, [name]) == At(d.fs, p.to, [name]);
        assert At(fs', p.from, [name]) == At(d.fs, p.from, [name]);
      }
    }
  }

  /** A path that meets neither a leftover copy nor the place it was moved to. */
  predicate ClearOfLeftover(d: Disk, p: Path) {
    d.pending.Some? && d.pending.value.phase.Finalize? ==>
      var m := d.pending.value;
      && !(p <= m.copyTarget) && !(m.copyTarget <= p)
      && (Owned(d.fs, m) ==> !(p <= m.to) && !(m.to <= p))
  }

  /** Creating, probing or dropping something under a root that is neither current nor leftover. */
  lemma ScratchWrite(d: Disk, root: Path, x: Path, content: Node, truth: Tree, home: Path)
    requires Running(d, truth, home)
    requires Apart(root, Current(d, home)) && ClearOfLeftover(d, root)
    requires !content.OwnerNote?
    ensures Running(d.(fs := d.fs[root + x := content]), truth, home)
    ensures Running(d.(fs := d.fs - {root + x}), truth, home)
    ensures ClearOfLeftover(d.(fs := d.fs[root + x := content]), root)
    ensures ClearOfLeftover(d.(fs := d.fs - {root + x}), root)
  {
    forall other: Path, rel: Path | Apart(root, other)
      ensures At(d.fs[root + x := content], other, rel) == At(d.fs, other, rel)
      ensures At(d.fs - {root + x}, other, rel) == At(d.fs, other, rel)
    {
      WriteAt(d.fs, root, x, content, other, rel);
    }
    if d.pending.Some? && d.pending.value.phase.Finalize? {
      ApartJoins(root, d.pending.value.copyTarget, x, []);
      assert d.pending.value.copyTarget + [] == d.pending.value.copyTarget;
    }
    ElsewhereIsSafe(d, d.fs[root + x := content], truth, home);
    ElsewhereIsSafe(d, d.fs - {root + x}, truth, home);
  }

  /** os.RemoveAll of a tree clear of the current root that does not cut into a leftover copy. */
  lemma RemovedApart(d: Disk, p: Path, truth: Tree, home: Path)
    requires Running(d, truth, home)
    requires Apart(p, Current(d, home)) && (forall r | r in Leftover(d) :: !(r < p))
    ensures Running(d.(fs := RemoveTree(d.fs, p)), truth, home)
  {
    var fs' := RemoveTree(d.fs, p);
    forall root, rel: Path | Apart(p, root)
      ensures At(fs', root, rel) == At(d.fs, root, rel)
    {
      RemoveTreeAt(d.fs, p, root, rel);
    }
    if forall r | r in Leftover(d) :: Apart(p, r) {
      ElsewhereIsSafe(d, fs', truth, home);
    } else {
      var m := d.pending.value;
      var r :| r in Leftover(d) && !Apart(p, r);
      assert p <= r;
      assert p <= m.to + [m.owner] || r == m.copyTarget;
      assert forall rel | Tracked(rel) :: At(d.fs, m.from, rel) == At(fs', m.from, rel);
    }
  }

  // ---- Removing an old root

  /** A root that can be removed: clear of the current one, and not inside a leftover copy. */
  ghost predicate RemovableRoot(d: Disk, previous: Path, truth: Tree, home: Path) {
    && Running(d, truth, home)
    && Apart(previous, Current(d, home))
    && forall r | r in Leftover(d) :: !(r < previous)
  }

  ghost predicate Removable(d: Disk, truth: Tree, home: Path) {
    && Running(d, truth, home)
    && (d.previous.Some? ==> forall r | r in Leftover(d) :: !(r < d.previous.value))
  }

  predicate Rewrites(d: Disk, home: Path) {
    d.previous.Some? && d.previous.value != Current(d, home)
  }

  function Rewritten(fs: Tree, root: Path, rewrite: Option<Node> -> Node): Tree {
    fs[root + [DATABASE] := rewrite(At(fs, root, [DATABASE]))]
  }

  function RewrittenTruth(truth: Tree, rewrite: Option<Node> -> Node): Tree {
    truth[[DATABASE] := rewrite(Get(truth, [DATABASE]))]
  }

  function WithoutNames(fs: Tree, root: Path, names: seq<string>): Tree {
    if names == [] then fs
    else RemoveTree(WithoutNames(fs, root, names[..|names| - 1]), root + [names[|names| - 1]])
  }

  function WithoutOldRoot(fs: Tree, previous: Path, home: Path): Tree {
    if previous == home then WithoutNames(fs, home, HOME_DATA + DATABASE_FILES) else RemoveTree(fs, previous)
  }

  /** The outcome of a FinalizePrevious without faults. */
  function Tidied(d: Disk, rewrite: Option<Node> -> Node, home: Path): Disk {
    if d.previous.None? then d
    else
      var fs := if Rewrites(d, home)
                then WithoutOldRoot(Rewritten(d.fs, Current(d, home), rewrite), d.previous.value, home)
                else d.fs;
      d.(fs := fs, previous := None, error := false)
  }

  lemma {:induction false} WithoutNamesGet(fs: Tree, root: Path, names: seq<string>, q: Path)
    ensures Get(WithoutNames(fs, root, names), q)
            == if root < q && q[|root|] in names then None else Get(fs, q)
    decreases |names|
  {
    if names != [] {
      var n := |names| - 1;
      WithoutNamesGet(fs, root, names[..n], q);
      assert names == names[..n] + [names[n]];
      assert root + [names[n]] <= q <==> root < q && q[|root|] == names[n];
    }
  }

  /** What a cleanup after a move leaves: the previous root is gone, or of the home what it had
      of the old data, the database of the current root is rewritten, and nothing is
      recorded any more. */
  lemma TidiedMeaning(d: Disk, rewrite: Option<Node> -> Node, home: Path, q: Path)
    ensures d.previous.None? ==> Tidied(d, rewrite, home) == d
    ensures d.previous.Some? ==>
              var t := Tidied(d, rewrite, home);
              var previous, current := d.previous.value, Current(d, home);
              && t.previous == None && !t.error && t.pointer == d.pointer && t.pending == d.pending
              && (previous == current ==> t.fs == d.fs)
              && (previous != current ==>
                    Get(t.fs, q) ==
                    if (previous != home && previous <= q)
                       || (previous == home && home < q
                           && q[|home|] in ["versions", "instances", "downloads", "cache", "security", "updates", "logs", "backups",
                                            "waxlight.db", "waxlight.db-wal", "waxlight.db-shm"])
                    then None
                    else if q == current + ["waxlight.db"] then Some(rewrite(Get(d.fs, current + ["waxlight.db"])))
                    else Get(d.fs, q))
  {
    if Rewrites(d, home) {
      WithoutNamesGet(Rewritten(d.fs, Current(d, home), rewrite), home, HOME_DATA + DATABASE_FILES, q);
      assert HOME_DATA + DATABASE_FILES == ["versions", "instances", "downloads", "cache", "security", "updates", "logs", "backups",
                                            "waxlight.db", "waxlight.db-wal", "waxlight.db-shm"];
    }
  }

  // ---- The application's writes

  /** The current root with its tracked content replaced. */
  function Overwrite(fs: Tree, root: Path, content: Tree): Tree {
    var written := set rel | rel in content :: root + rel;
    map q | q in fs.Keys + written &&
            (if root <= q && Tracked(q[|root|..]) then q[|root|..] in content else q in fs)
      :: if root <= q && Tracked(q[|root|..]) then content[q[|root|..]] else fs[q]
  }

  lemma OverwriteGet(fs: Tree, root: Path, content: Tree, q: Path)
    ensures Get(Overwrite(fs, root, content), q) ==
            if root <= q && Tracked(q[|root|..]) then Get(content, q[|root|..]) else Get(fs, q)
  {
    if root <= q && q[|root|..] in content {
      assert q == root + q[|root|..];
      assert q in set rel | rel in content :: root + rel;
    }
  }

  lemma Overwritten(d: Disk, content: Tree, truth: Tree, home: Path)
    requires Running(d, truth, home)
    requires d.pending.Some? ==> !d.pending.value.phase.Finalize?
    ensures Running(d.(fs := Overwrite(d.fs, Current(d, home), content)), content, home)
  {
    var root := Current(d, home);
    var fs' := Overwrite(d.fs, root, content);
    forall rel | Tracked(rel)
      ensures At(fs', root, rel) == Get(content, rel)
    {
      OverwriteGet(d.fs, root, content, root + rel);
      assert (root + rel)[|root|..] == rel;
    }
  }

  /** The file at p is written, or goes away. */
  function Put(fs: Tree, p: Path, change: Option<Node>): Tree {
    match change
    case Some(content) => fs[p := content]
    case None => fs - {p}
  }

  /** Nothing but the database files of root differs. */
  ghost predicate OnlyDatabaseDiffers(fs: Tree, fs': Tree, root: Path) {
    forall q | !IsDatabaseOf(root, q) :: Get(fs', q) == Get(fs, q)
  }

  predicate IsDatabaseOf(root: Path, q: Path) {
    root <= q && IsDatabase(q[|root|..])
  }

  lemma NotUnderAnotherRoot(fs: Tree, fs': Tree, root: Path, other: Path)
    requires OnlyDatabaseDiffers(fs, fs', root) && Apart(root, other)
    ensures forall rel :: At(fs', other, rel) == At(fs, other, rel)
    ensures OccupiedDirectory(fs', other) ==> OccupiedDirectory(fs, other)
  {
    forall q: Path | other <= q
      ensures Get(fs', q) == Get(fs, q)
    {
      if root <= q { PrefixesOfOne(root, other, q); }
    }
    forall rel: Path
      ensures At(fs', other, rel) == At(fs, other, rel)
    {
      assert other <= other + rel;
    }
    if OccupiedDirectory(fs', other) {
      var q :| q in fs' && other < q;
      assert Get(fs', q) == Get(fs, q);
    }
  }

  /** A database file changes. That is harmless even while a copy is waiting to be finalized,
      except that a file the copy already has must not go away. */
  lemma DatabaseChanged(d: Disk, name: string, change: Option<Node>, truth: Tree, home: Path)
    requires Running(d, truth, home)
    requires name in DATABASE_FILES
    requires change.None? ==> forall r | r in Leftover(d) :: r + [name] !in d.fs
    ensures Running(d.(fs := Put(d.fs, Current(d, home) + [name], change)), Put(truth, [name], change), home)
  {
    var root := Current(d, home);
    var fs' := Put(d.fs, root + [name], change);
    var truth' := Put(truth, [name], change);
    assert Holds(d.fs, root, truth);
    forall other: Path, rel: Path | Apart(root, other) || root == other
      ensures At(fs', other, rel) == if root == other && rel == [name] then change else At(d.fs, other, rel)
    {
      WriteAt(d.fs, root, [name], if change.Some? then change.value else Dir, other, rel);
    }
    assert Holds(fs', root, truth');
    if d.pending.Some? && d.pending.value.phase.Finalize? {
      var m := d.pending.value;
      assert m.copyTarget + [] == m.copyTarget;
      assert At(fs', m.copyTarget, []) == At(d.fs, m.copyTarget, []);
      assert At(fs', m.copyTarget, [m.owner]) == At(d.fs, m.copyTarget, [m.owner]);
      assert At(fs', m.to, [m.owner]) == At(d.fs, m.to, [m.owner]);
      forall r | r in Leftover(d)
        ensures HoldsData(fs', r, truth') && NoStaleDatabase(fs', r, m.from)
      {
        assert HoldsData(d.fs, r, truth);
        forall rel | Tracked(rel) && !IsDatabase(rel)
          ensures At(fs', r, rel) == Get(truth', rel)
        {
          assert At(d.fs, r, rel) == Get(truth, rel);
        }
        forall n | n in DATABASE_FILES && r + [n] in fs'
          ensures m.from + [n] in fs'
        {
          assert At(fs', r, [n]) == At(d.fs, r, [n]);
          assert At(fs', m.from, [n]) == if n == name then change else At(d.fs, m.from, [n]);
        }
      }
    }
  }

  // ---- Choosing a target

  datatype TargetCheck = Usable | SameAsCurrent | InsideCurrent | HoldsCurrent | NotADirectory | NotEmpty

  /** ValidateTarget. The launcher home always has something in it. */
  function ValidateTarget(d: Disk, home: Path, target: Path): TargetCheck {
    var current := Current(d, home);
    if target == current then SameAsCurrent
    else if IsSubpath(target, current) then InsideCurrent
    else if IsSubpath(current, target) then HoldsCurrent
    else if target in d.fs && d.fs[target] != Dir then NotADirectory
    else if OccupiedDirectory(d.fs, target) || target <= home then NotEmpty
    else Usable
  }

  /** A target is accepted exactly when it nests with the current root in neither
      direction and is a missing or empty directory. */
  lemma UsableTarget(d: Disk, home: Path, target: Path)
    requires Cleaned(target) && Cleaned(Current(d, home))
    ensures ValidateTarget(d, home, target) == Usable <==>
            && Apart(target, Current(d, home))
            && !OccupiedDirectory(d.fs, target) && !(target <= home)
            && (target in d.fs ==> d.fs[target] == Dir)
  {
    SubpathIsPrefix(target, Current(d, home));
    SubpathIsPrefix(Current(d, home), target);
  }

  /** What os.MkdirTemp guarantees of the name it picks: nothing is there, and no recorded path is. */
  predicate Fresh(d: Disk, home: Path, p: Path) {
    && (forall q | q in d.fs :: !(p <= q))
    && !(p <= home) && !(p <= Current(d, home))
    && (d.pending.Some? ==> !(p <= d.pending.value.copyTarget) && !(p <= d.pending.value.to))
    && (d.previous.Some? ==> !(p <= d.previous.value))
  }

  /** The staged directory is made beside the target. */
  function Beside(target: Path, name: string): Path
    requires target != []
  {
    target[..|target| - 1] + [name]
  }

  lemma StagedBeside(d: Disk, home: Path, target: Path, name: string)
    requires target != [] && Beside(target, name) != target && Fresh(d, home, Beside(target, name))
    requires Apart(target, Current(d, home)) && ClearOfLeftover(d, target)
    ensures Apart(Beside(target, name), target)
    ensures Apart(Beside(target, name), Current(d, home))
    ensures ClearOfLeftover(d, Beside(target, name))
  {
    AboveBeside(target, name, target);
    AboveBeside(target, name, Current(d, home));
    if d.pending.Some? {
      AboveBeside(target, name, d.pending.value.copyTarget);
      AboveBeside(target, name, d.pending.value.to);
    }
  }

  lemma AboveBeside(target: Path, name: string, p: Path)
    requires target != []
    ensures p <= Beside(target, name) ==> p <= target || p == Beside(target, name)
  {
    if p <= Beside(target, name) && p != Beside(target, name) {
      assert p == Beside(target, name)[..|p|] == target[..|p|];
    }
  }

  lemma NewMarker(d: Disk, m: Marker, truth: Tree, home: Path)
    requires Running(d, truth, home)
    requires m.phase.Copy? && m.from == Current(d, home) && Geometry(m, home)
    ensures Running(d.(pending := Some(m)), truth, home)
  {}

  // ---- Copying

  /** A staged copy that only lacks the database. */
  ghost predicate StagedCopy(fs: Tree, m: Marker, truth: Tree) {
    && HoldsData(fs, m.copyTarget, truth)
    && (forall name | name in DATABASE_FILES :: m.copyTarget + [name] !in fs)
  }

  lemma DatabaseChangedBesideCopy(fs: Tree, m: Marker, name: string, change: Option<Node>, truth: Tree)
    requires Apart(m.from, m.copyTarget) && name in DATABASE_FILES && StagedCopy(fs, m, truth)
    ensures StagedCopy(Put(fs, m.from + [name], change), m, Put(truth, [name], change))
  {
    var fs' := Put(fs, m.from + [name], change);
    forall rel: Path
      ensures At(fs', m.copyTarget, rel) == At(fs, m.copyTarget, rel)
    {
      WriteAt(fs, m.from, [name], if change.Some? then change.value else Dir, m.copyTarget, rel);
    }
    forall rel | Tracked(rel) && !IsDatabase(rel)
      ensures At(fs', m.copyTarget, rel) == Get(Put(truth, [name], change), rel)
    {
      assert At(fs, m.copyTarget, rel) == Get(truth, rel);
    }
    forall n | n in DATABASE_FILES
      ensures m.copyTarget + [n] !in fs'
    {
      assert At(fs', m.copyTarget, [n]) == At(fs, m.copyTarget, [n]);
    }
  }

  /** A copy cut short: anything may be in the staged directory, and nothing else changed. */
  function Scribble(fs: Tree, p: Path, junk: Tree): Tree {
    RemoveTree(fs, p) + map q | q in junk && p <= q :: junk[q]
  }

  lemma ScribbledApart(d: Disk, m: Marker, junk: Tree, truth: Tree, home: Path)
    requires Running(d, truth, home) && d.pending == Some(m) && m.phase.Copy?
    ensures Running(d.(fs := Scribble(d.fs, m.copyTarget, junk)), truth, home)
  {
    var fs' := Scribble(d.fs, m.copyTarget, junk);
    forall rel: Path
      ensures At(fs', m.from, rel) == At(d.fs, m.from, rel)
    {
      if m.copyTarget <= m.from + rel { PrefixOfJoin(m.copyTarget, m.from, rel); }
    }
    assert forall rel | Tracked(rel) :: At(d.fs, m.from, rel) == At(fs', m.from, rel);
  }

  lemma CopyIsRunning(d: Disk, m: Marker, truth: Tree, home: Path)
    requires Running(d, truth, home) && d.pending == Some(m) && m.phase.Copy?
    requires !OccupiedDirectory(d.fs, m.copyTarget)
    ensures var fs' := CopyTree(d.fs, m.from, m.copyTarget);
            Running(d.(fs := fs'), truth, home) && StagedCopy(fs', m, truth)
  {
    Copied(d.fs, m, truth);
    var fs' := CopyTree(d.fs, m.from, m.copyTarget);
    assert forall rel | Tracked(rel) :: At(d.fs, m.from, rel) == At(fs', m.from, rel);
  }

  /** CopyDataContext went through: the fresh staged directory holds the data. */
  lemma Copied(fs: Tree, m: Marker, truth: Tree)
    requires Apart(m.from, m.copyTarget) && Apart(m.to, m.copyTarget)
    requires Holds(fs, m.from, truth) && !OccupiedDirectory(fs, m.copyTarget)
    ensures var fs' := CopyTree(fs, m.from, m.copyTarget);
            && StagedCopy(fs', m, truth)
            && (forall root, rel: Path | Apart(root, m.copyTarget) :: At(fs', root, rel) == At(fs, root, rel))
  {
    var fs' := CopyTree(fs, m.from, m.copyTarget);
    var ct := m.copyTarget;
    forall rel: Path | rel != []
      ensures At(fs', ct, rel) == if Reserved(rel) then None else At(fs, m.from, rel)
    {
      CopyTreeGet(fs, m.from, ct, ct + rel);
      assert (ct + rel)[|ct|..] == rel;
      assert ct < ct + rel;
    }
    forall rel | Tracked(rel) && !IsDatabase(rel)
      ensures At(fs', ct, rel) == Get(truth, rel)
    {
      assert At(fs, m.from, rel) == Get(truth, rel);
    }
    forall name | name in DATABASE_FILES
      ensures ct + [name] !in fs'
    {
      assert At(fs', ct, [name]) == None;
    }
    forall root, rel: Path | Apart(root, ct)
      ensures At(fs', root, rel) == At(fs, root, rel)
    {
      CopyTreeGet(fs, m.from, ct, root + rel);
      if ct <= root + rel { PrefixOfJoin(ct, root, rel); }
    }
  }

  lemma OwnerNoted(d: Disk, m: Marker, truth: Tree, home: Path)
    requires Running(d, truth, home) && d.pending == Some(m) && m.phase.Copy?
    ensures var fs' := d.fs[m.copyTarget + [m.owner] := OwnerNote(m.copyTarget)];
            && Running(d.(fs := fs'), truth, home)
            && (!OccupiedDirectory(d.fs, m.to) ==> !OccupiedDirectory(fs', m.to))
            && (StagedCopy(d.fs, m, truth) ==> StagedCopy(fs', m, truth))
  {
    var fs' := d.fs[m.copyTarget + [m.owner] := OwnerNote(m.copyTarget)];
    forall rel: Path
      ensures At(fs', m.from, rel) == At(d.fs, m.from, rel)
      ensures rel != [m.owner] ==> At(fs', m.copyTarget, rel) == At(d.fs, m.copyTarget, rel)
    {
      WriteAt(d.fs, m.copyTarget, [m.owner], OwnerNote(m.copyTarget), m.from, rel);
      WriteAt(d.fs, m.copyTarget, [m.owner], OwnerNote(m.copyTarget), m.copyTarget, rel);
    }
    assert forall rel | Tracked(rel) :: At(d.fs, m.from, rel) == At(fs', m.from, rel);
    if m.to < m.copyTarget + [m.owner] { PrefixOfJoin(m.to, m.copyTarget, [m.owner]); }
    if StagedCopy(d.fs, m, truth) {
      forall name | name in DATABASE_FILES
        ensures m.copyTarget + [name] !in fs'
      {
        assert At(fs', m.copyTarget, [name]) == At(d.fs, m.copyTarget, [name]);
      }
      forall rel | Tracked(rel) && !IsDatabase(rel)
        ensures At(fs', m.copyTarget, rel) == Get(truth, rel)
      {
        assert At(d.fs, m.copyTarget, rel) == Get(truth, rel);
      }
    }
  }

  /** The marker turns to Finalize. */
  lemma ReadyToFinalize(d: Disk, m: Marker, truth: Tree, home: Path)
    requires Running(d, truth, home) && d.pending == Some(m) && m.phase.Copy?
    requires StagedCopy(d.fs, m, truth)
    requires Get(d.fs, m.copyTarget + [m.owner]) == Some(OwnerNote(m.copyTarget))
    requires !OccupiedDirectory(d.fs, m.to)
    ensures Running(d.(pending := Some(m.(phase := Finalize))), truth, home)
  {
    assert m.to < m.to + [m.owner];
  }
}
