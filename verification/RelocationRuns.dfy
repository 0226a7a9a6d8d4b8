/** Whole histories of moves, crashes and restarts, and what can still go wrong. */
module RelocationRuns {
  import opened Prelude
  import opened FileTree
  import opened Relocation
  import opened RelocationSteps
  import opened RelocationSafety
  import opened RelocationManager

  /** Any number of starts, stores, database changes, moves and cleanups, each cut off
      anywhere: a complete copy exists, and every root a start returned was complete, up to
      the first start that gives up in limbo and does not come back whole; after that one
      the old root still holds everything. */
  method AnyHistory(home: Path, start: Disk, content: Tree, steps: nat)
    returns (machine: Manager, limbo: bool, from: Path, ghost everyRootComplete: bool)
    requires Safe(start, content, home)
    ensures machine.home == home
    ensures !limbo ==> CompleteCopyExists(machine.disk, machine.truth, home) && Safe(machine.disk, machine.truth, home)
    ensures limbo ==> Holds(machine.disk.fs, from, machine.truth) && !ComesBackWhole(machine.disk, machine.truth, home)
    ensures everyRootComplete
  {
    hide Safe, Running, Faithful, Holds, CompleteCopyExists, ComesBackWhole;
    machine := new Manager(home, Faulty, start, content);
    limbo, from, everyRootComplete := false, home, true;
    var up := false;
    for i := 0 to steps
      invariant fresh(machine) && machine.home == home
      invariant Safe(machine.disk, machine.truth, home) && everyRootComplete
      invariant up ==> Running(machine.disk, machine.truth, home)
    {
      var choice: int := *;
      if !up {
        var before := machine.disk;
        var o, root, early := machine.PrepareStartup();
        up := o.Done?;
        if early && Limbo(before, home) {
          from := before.pending.value.from;
          OldRootIsThere(before, machine.disk, machine.truth, home);
          if ComesBackWhole(machine.disk, machine.truth, home) {
            ResumesWhole(before, machine.disk, machine.truth, home);
          } else if up || machine.disk.pending.None? {
            limbo := true;
            return;
          }
        }
        everyRootComplete := everyRootComplete && (up ==> Holds(machine.disk.fs, root, machine.truth));
      } else if choice == 0 {
        up := false;
      } else if choice == 1 {
        var stored: Tree := *;
        if machine.disk.pending.None? || !machine.disk.pending.value.phase.Finalize? {
          machine.Store(stored);
        }
      } else if choice == 2 {
        machine.DatabaseActivity();
      } else if choice == 3 {
        up := CleanUp(machine);
      } else {
        up := Move(machine);
      }
      if up { StartedIsSafe(machine.disk, machine.truth, home); }
    }
    SafeKeepsACompleteCopy(machine.disk, machine.truth, home);
  }

  /** A current root whose database is intact, with no marker behind it and no previous
      root that removing would cut into it. */
  predicate ComesBackWhole(d: Disk, truth: Tree, home: Path) {
    && d.pending.None? && PreviousClear(d, home)
    && forall name | name in DATABASE_FILES :: Get(d.fs, Current(d, home) + [name]) == Get(truth, [name])
  }

  lemma OldRootIsThere(d: Disk, d': Disk, truth: Tree, home: Path)
    requires d.pending.Some? && LeftInLimbo(d, d', truth, home)
    ensures Holds(d'.fs, d.pending.value.from, truth)
    ensures d'.pending.Some? ==> Safe(d', truth, home)
  {}

  lemma ResumesWhole(d: Disk, d': Disk, truth: Tree, home: Path)
    requires Safe(d, truth, home) && Limbo(d, home) && LeftInLimbo(d, d', truth, home)
    requires ComesBackWhole(d', truth, home)
    ensures Running(d', truth, home) && Safe(d', truth, home) && Holds(d'.fs, d.pending.value.to, truth)
  {
    var m := d.pending.value;
    forall name | name in DATABASE_FILES
      ensures Get(d.fs, m.to + [name]) == Get(truth, [name])
    {
      RemoveTreeAt(d.fs, m.copyTarget, m.to, [name]);
      assert At(d'.fs, m.to, [name]) == At(d.fs, m.to, [name]);
    }
    LimboStartIsCompleteIff(d, d'.fs, m, truth, home);
  }

  lemma StartedIsSafe(d: Disk, truth: Tree, home: Path)
    requires Running(d, truth, home)
    ensures Safe(d, truth, home)
  {}

  /** FinalizePrevious, unless the previous root lies inside a leftover copy. */
  method CleanUp(machine: Manager) returns (up: bool)
    requires Running(machine.disk, machine.truth, machine.home)
    modifies machine
    ensures Safe(machine.disk, machine.truth, machine.home) && (up ==> Running(machine.disk, machine.truth, machine.home))
  {
    up := true;
    if machine.disk.previous.Some? && exists r :: r in Leftover(machine.disk) && r < machine.disk.previous.value {
      return;
    }
    var rewritten: Node := *;
    var o := machine.FinalizePrevious(_ => rewritten);
    up := !o.Crashed?;
  }

  /** A move to any folder that is clear of a leftover copy. */
  method Move(machine: Manager) returns (up: bool)
    requires Running(machine.disk, machine.truth, machine.home)
    modifies machine
    ensures Safe(machine.disk, machine.truth, machine.home) && (up ==> Running(machine.disk, machine.truth, machine.home))
  {
    up := true;
    var target: Path := *;
    var name: string := *;
    if target == [] || !Cleaned(target) || !Cleaned(Current(machine.disk, machine.home)) || !ClearOfLeftover(machine.disk, target) {
      return;
    }
    var o, m := machine.PrepareRelocation(target, name);
    if o.Done? {
      o := machine.Run(m.value);
    }
    up := o.Failed?;
  }

  /** A disk from which a move to target can be made: a usable target, a free name for the
      staged directory and for the note in it, and a current root that exists. */
  predicate CanMove(d: Disk, home: Path, target: Path, name: string) {
    && target != [] && Cleaned(target) && Cleaned(Current(d, home)) && ClearOfLeftover(d, target)
    && ValidateTarget(d, home, target) == Usable && Mkdirs(d, home, target, name)
    && Current(d, home) in d.fs && Current(d, home) + [OWNER_PREFIX + name] !in d.fs
  }

  /** A move without faults, from choosing the target to the next start: that start comes up
      on the target, which holds everything, if there was a database to hand over, and on the
      old root otherwise. */
  method WholeMove(home: Path, start: Disk, content: Tree, target: Path, name: string) returns (machine: Manager, root: Path)
    requires Running(start, content, home) && CanMove(start, home, target, name)
    ensures Holds(machine.disk.fs, root, machine.truth) && machine.disk.pending == None
    ensures root == (if [DATABASE] in machine.truth then target else Current(start, home)) == Current(machine.disk, home)
    ensures root == target ==> machine.disk.previous == Some(Current(start, home))
  {
    hide Safe, Running, Faithful, Holds, Finishable, Claimable, ClearOfLeftover, ValidateTarget, Fresh, OnlyDatabaseDiffers;
    var first := new Manager(home, Steady, start, content);
    var o, prepared := first.PrepareRelocation(target, name);
    var m := prepared.value;
    StagedIsClaimable(start, home, target, name, content);
    o := first.Run(m);
    var handed := first.disk;
    m := m.(phase := Finalize);
    HandedOver(start, handed, home, target, name, content, first.truth);
    machine := new Manager(home, Steady, handed, first.truth);
    var early;
    o, root, early := machine.PrepareStartup();
  }

  lemma StagedIsClaimable(d: Disk, home: Path, target: Path, name: string, truth: Tree)
    requires Running(d, truth, home) && CanMove(d, home, target, name)
    ensures var m := Prepared(d, home, target, name).pending.value;
            Claimable(CopyTree(Prepared(d, home, target, name).fs, m.from, m.copyTarget), m)
  {
    var p := Prepared(d, home, target, name);
    var m := p.pending.value;
    UsableTarget(d, home, target);
    StagedBeside(d, home, target, name);
    CopyIsBeside(p.fs, m);
    CopyTreeGet(p.fs, m.from, m.copyTarget, m.copyTarget + [m.owner]);
    assert (m.copyTarget + [m.owner])[|m.copyTarget|..] == [m.owner];
    assert m.copyTarget <= m.copyTarget + [m.owner];
    assert m.from + [m.owner] != m.copyTarget by {
      ApartJoins(m.from, m.copyTarget, [m.owner], []);
      assert m.copyTarget + [] == m.copyTarget;
    }
  }

  /** What the next start finds. */
  lemma HandedOver(d: Disk, d': Disk, home: Path, target: Path, name: string, truth: Tree, truth': Tree)
    requires Running(d, truth, home) && CanMove(d, home, target, name)
    requires var p := Prepared(d, home, target, name);
             var m := p.pending.value;
             && d' == p.(fs := d'.fs, pending := Some(m.(phase := Finalize)))
             && OnlyDatabaseDiffers(Claimed(p.fs, m), d'.fs, m.from)
    requires Running(d', truth', home)
    ensures var m := d'.pending.value;
            && (Finishable(d', m, home) <==> [DATABASE] in truth')
            && !KnownCommitted(d', m, home)
            && Current(d', home) == Current(d, home) == m.from && m.to == target
            && PointerIsThere(Abandoned(d', m))
            && Safe(d', truth', home) && !Limbo(d', home)
  {
    hide Safe, Faithful, Holds, CopyTree, OccupiedDirectory, OnlyDatabaseDiffers, RemoveTree, ClearOfLeftover, ValidateTarget,
         Fresh, Owned, Running;
    var p := Prepared(d, home, target, name);
    var m := p.pending.value;
    var claimed := Claimed(p.fs, m);
    TheRootsOfAMove(d, home, target, name, truth);
    ClaimIsComplete(d, home, target, name, truth);
    ClaimStays(claimed, d'.fs, m);
    RootsStay(claimed, d'.fs, m.from, m.copyTarget);
    RunningIsComplete(d', truth', home);
    DatabaseIsKnown(d'.fs, m.from, truth');
    RemovedBeside(d'.fs, m.copyTarget, m.from);
    StartedIsSafe(d', truth', home);
    assert m.from != m.to;
  }

  lemma TheRootsOfAMove(d: Disk, home: Path, target: Path, name: string, truth: Tree)
    requires Running(d, truth, home) && CanMove(d, home, target, name)
    ensures var m := Prepared(d, home, target, name).pending.value;
            Apart(m.from, m.to) && Apart(m.from, m.copyTarget) && Apart(m.to, m.copyTarget) && !OccupiedDirectory(d.fs, m.to)
  {
    UsableTarget(d, home, target);
    StagedBeside(d, home, target, name);
  }

  lemma ClaimIsComplete(d: Disk, home: Path, target: Path, name: string, truth: Tree)
    requires Running(d, truth, home) && CanMove(d, home, target, name)
    ensures var p := Prepared(d, home, target, name);
            var m := p.pending.value;
            var claimed := Claimed(p.fs, m);
            && m.from in claimed && m.copyTarget in claimed && !OccupiedDirectory(claimed, m.to)
            && Get(claimed, m.copyTarget + [m.owner]) == Some(OwnerNote(m.copyTarget))
  {
    hide Safe, Faithful, Holds;
    var p := Prepared(d, home, target, name);
    var m := p.pending.value;
    var claimed := Claimed(p.fs, m);
    TheRootsOfAMove(d, home, target, name, truth);
    StagedIsClaimable(d, home, target, name, truth);
    CopyTreeGet(p.fs, m.from, m.copyTarget, m.copyTarget);
    CopyTreeGet(p.fs, m.from, m.copyTarget, m.from);
    if m.to < m.copyTarget + [m.owner] { PrefixOfJoin(m.to, m.copyTarget, [m.owner]); }
    WriteBeside(CopyTree(p.fs, m.from, m.copyTarget), m.copyTarget + [m.owner], OwnerNote(m.copyTarget), m.to);
  }

  lemma WriteBeside(fs: Tree, p: Path, content: Node, root: Path)
    requires !(root < p)
    ensures OccupiedDirectory(fs[p := content], root) ==> OccupiedDirectory(fs, root)
  {
    if OccupiedDirectory(fs[p := content], root) {
      var q :| q in fs[p := content] && root < q;
      assert q in fs;
    }
  }

  lemma RootsStay(fs: Tree, fs': Tree, root: Path, other: Path)
    requires OnlyDatabaseDiffers(fs, fs', root) && Apart(root, other)
    ensures root in fs' <==> root in fs
    ensures other in fs' <==> other in fs
  {
    NotUnderAnotherRoot(fs, fs', root, other);
    assert other + [] == other;
    assert At(fs', other, []) == At(fs, other, []);
    assert !IsDatabaseOf(root, root);
    assert Get(fs', root) == Get(fs, root);
  }

  lemma DatabaseIsKnown(fs: Tree, root: Path, truth: Tree)
    requires Holds(fs, root, truth)
    ensures root + [DATABASE] in fs <==> [DATABASE] in truth
  {
    assert At(fs, root, [DATABASE]) == Get(truth, [DATABASE]);
  }

  lemma RemovedBeside(fs: Tree, p: Path, root: Path)
    requires Apart(p, root)
    ensures root in RemoveTree(fs, p) <==> root in fs
  {
    RemoveTreeAt(fs, p, root, []);
    assert root + [] == root;
  }

  /** finishPending is restartable: whatever prefix of it ran, however often, a run
      without faults ends where an uninterrupted one would have ended. */
  method CrashThenRestart(home: Path, start: Disk, m: Marker, content: Tree, crashes: nat) returns (end: Disk)
    requires Safe(start, content, home) && start.pending == Some(m) && m.phase.Finalize?
    requires Finishable(start, m, home)
    ensures end.pointer == Some(m.to) && end.previous == Some(m.from) && end.pending == None
    ensures end.(fs := end.fs - {m.to + [m.owner]}) == Finished(start, m)
    ensures Holds(end.fs, m.to, content)
  {
    hide Safe, Faithful, Holds, Finishable, FinishedTree;
    end := start;
    var now := m;
    for i := 0 to crashes
      invariant Safe(end, content, home) && end.pending == Some(now)
      invariant now == m || now == m.(committed := true)
      invariant Finished(end, m) == Finished(start, m) && Finishable(end, m, home)
    {
      var flaky := new Manager(home, Faulty, end, content);
      SameMarkerLooks(end, m, home);
      var o, after := flaky.FinishPending(now);
      SameMarkerLooks(flaky.disk, m, home);
      FinishedIgnoresCommitted(start, m, true);
      FinishedIgnoresCommitted(end, m, true);
      FinishedIgnoresCommitted(flaky.disk, m, true);
      end := flaky.disk;
      if o.Done? { return; }
      now := end.pending.value;
    }
    var steady := new Manager(home, Steady, end, content);
    SameMarkerLooks(end, m, home);
    FinishedIgnoresCommitted(end, m, true);
    var o, after := steady.FinishPending(now);
    end := steady.disk;
  }

  lemma SameMarkerLooks(d: Disk, m: Marker, home: Path)
    ensures Finishable(d, m.(committed := true), home) <==> Finishable(d, m, home)
  {}

  // ---- Where a complete root is not guaranteed

  /** Finalizing reproduces the old root exactly when the staged copy still holds the
      same data and no database file the old root has lost since. So a store behind a
      waiting finalize marker, or a half-removed staged copy, is a loss. */
  lemma FinalizeReproducesIff(d: Disk, m: Marker, home: Path)
    requires Geometry(m, home) && m.copyTarget in d.fs
    ensures (forall rel | Tracked(rel) :: At(Finished(d, m).fs, m.to, rel) == At(d.fs, m.from, rel)) <==>
            (forall rel | Tracked(rel) && !IsDatabase(rel) :: At(d.fs, m.copyTarget, rel) == At(d.fs, m.from, rel)) &&
            NoStaleDatabase(d.fs, m.copyTarget, m.from)
  {
    forall rel | Tracked(rel)
      ensures At(Finished(d, m).fs, m.to, rel) ==
              if IsDatabase(rel) && m.from + rel in d.fs then At(d.fs, m.from, rel) else At(d.fs, m.copyTarget, rel)
    {
      FinishedTreeGet(d.fs, m, m.to + rel, home);
      assert (m.to + rel)[|m.to|..] == rel && (m.to + [m.owner])[|m.to|..] == [m.owner];
      var p := m.copyTarget + rel;
      if |rel| == 1 {
        assert rel == [rel[0]];
      }
    }
    forall name | name in DATABASE_FILES
      ensures Tracked([name]) && IsDatabase([name])
      ensures At(d.fs, m.from, [name]) == Get(d.fs, m.from + [name])
    {}
    if forall rel | Tracked(rel) :: At(Finished(d, m).fs, m.to, rel) == At(d.fs, m.from, rel) {
      forall name | name in DATABASE_FILES && m.copyTarget + [name] in d.fs
        ensures m.from + [name] in d.fs
      {
        assert At(Finished(d, m).fs, m.to, [name]) == At(d.fs, m.from, [name]);
      }
      forall rel | Tracked(rel) && !IsDatabase(rel)
        ensures At(d.fs, m.copyTarget, rel) == At(d.fs, m.from, rel)
      {
        assert At(Finished(d, m).fs, m.to, rel) == At(d.fs, m.from, rel);
      }
    } else {
      var rel :| Tracked(rel) && At(Finished(d, m).fs, m.to, rel) != At(d.fs, m.from, rel);
      if |rel| == 1 {
        assert rel == [rel[0]];
      }
    }
  }

  /** A start that gives up in limbo returns the new root: complete exactly when no
      rerun had begun to rewrite its database. */
  lemma LimboStartIsCompleteIff(d: Disk, fs': Tree, m: Marker, truth: Tree, home: Path)
    requires Safe(d, truth, home) && d.pending == Some(m) && Limbo(d, home)
    requires fs' == d.fs || fs' == RemoveTree(d.fs, m.copyTarget)
    ensures Holds(fs', m.to, truth) <==>
            forall name | name in DATABASE_FILES :: Get(d.fs, m.to + [name]) == Get(truth, [name])
  {
    forall rel: Path
      ensures At(fs', m.to, rel) == At(d.fs, m.to, rel)
    {
      RemoveTreeAt(d.fs, m.copyTarget, m.to, rel);
    }
    assert HoldsData(d.fs, m.to, truth);
    if Holds(fs', m.to, truth) {
      forall name | name in DATABASE_FILES
        ensures Get(d.fs, m.to + [name]) == Get(truth, [name])
      {
        assert At(fs', m.to, [name]) == Get(truth, [name]);
      }
    } else {
      var rel :| Tracked(rel) && At(fs', m.to, rel) != Get(truth, rel);
      assert At(d.fs, m.to, rel) != Get(truth, rel);
      assert IsDatabase(rel);
      assert rel == [rel[0]];
      assert Get(d.fs, m.to + [rel[0]]) != Get(truth, [rel[0]]);
    }
  }

  /** A move that crashed after the rename, again after the new root and perhaps the old
      one were recorded, and a third time while the rerun rewrote the database. */
  function TornInLimbo(d: Disk, m: Marker, torn: Node, recorded: bool): Disk {
    Disk(MoveTree(d.fs, m.copyTarget, m.to)[m.to + [DATABASE] := torn], Some(m.to), d.pending,
         if recorded then Some(m.from) else d.previous, d.error)
  }

  /** Three crashes lead there from any staged move. The disk is still safe then, thanks
      to the old root; the new one is torn. */
  lemma LimboIsReachable(d: Disk, m: Marker, torn: Node, recorded: bool, truth: Tree, home: Path)
    requires Safe(d, truth, home) && d.pending == Some(m) && m.phase.Finalize? && !m.committed
    requires m.copyTarget in d.fs && Finishable(d, m, home)
    requires DatabaseCopied(d.fs, m.from, m.copyTarget, Names(DATABASE_FILES))
    requires Some(torn) != Get(truth, [DATABASE])
    ensures var renamed := d.(fs := MoveTree(d.fs, m.copyTarget, m.to));
            var pointed := renamed.(pointer := Some(m.to));
            var written := if recorded then pointed.(previous := Some(m.from)) else pointed;
            var rewriting := TornInLimbo(d, m, torn, recorded);
            && Continues(d, renamed, m, truth, home)
            && Continues(renamed, pointed, m, truth, home)
            && Continues(pointed, written, m, truth, home)
            && rewriting == written.(fs := written.fs[m.to + [DATABASE] := torn])
            && Continues(written, rewriting, m, truth, home)
            && Safe(rewriting, truth, home) && Limbo(rewriting, home) && AbandonsMove(rewriting)
            && !Holds(rewriting.fs, m.to, truth) && !Holds(RemoveTree(rewriting.fs, m.copyTarget), m.to, truth)
  {
    hide Safe, Faithful, Finishable, Holds, Finished, MoveTree, RemoveTree;
    SafeFacts(d, m, truth, home);
    var renamed := d.(fs := MoveTree(d.fs, m.copyTarget, m.to));
    MoveIntoPlace(d, m, truth, home);
    SafeWhileFinishing(d, renamed, m, truth, home);
    ContinuesFinishable(d, renamed, m, truth, home);
    var pointed := renamed.(pointer := Some(m.to));
    AfterTheMove(renamed, m, pointed, truth, home);
    SafeWhileFinishing(renamed, pointed, m, truth, home);
    ContinuesFinishable(renamed, pointed, m, truth, home);
    var written := if recorded then pointed.(previous := Some(m.from)) else pointed;
    AfterTheMove(pointed, m, written, truth, home);
    SafeWhileFinishing(pointed, written, m, truth, home);
    ContinuesFinishable(pointed, written, m, truth, home);
    FinishableHasDatabase(written, m, home);
    assert DATABASE in DATABASE_FILES;
    WriteDatabaseFile(written, m, DATABASE, torn, truth, home);
    SafeWhileFinishing(written, TornInLimbo(d, m, torn, recorded), m, truth, home);
    TornRootIsThere(d, m, torn, recorded, truth, home);
  }

  lemma FinishableHasDatabase(d: Disk, m: Marker, home: Path)
    requires Finishable(d, m, home)
    ensures m.from + [DATABASE] in d.fs
  {}

  lemma TornRootIsThere(d: Disk, m: Marker, torn: Node, recorded: bool, truth: Tree, home: Path)
    requires var rewriting := TornInLimbo(d, m, torn, recorded); Safe(rewriting, truth, home) && rewriting.pending == Some(m)
    requires m.phase.Finalize? && !m.committed && m.copyTarget in d.fs
    requires Some(torn) != Get(truth, [DATABASE])
    ensures var rewriting := TornInLimbo(d, m, torn, recorded);
            && Limbo(rewriting, home) && AbandonsMove(rewriting)
            && !Holds(rewriting.fs, m.to, truth) && !Holds(RemoveTree(rewriting.fs, m.copyTarget), m.to, truth)
  {
    hide Safe, Faithful, Holds, MoveTree;
    var rewriting := TornInLimbo(d, m, torn, recorded);
    SafeFacts(rewriting, m, truth, home);
    assert DATABASE in DATABASE_FILES;
    LimboStartIsCompleteIff(rewriting, rewriting.fs, m, truth, home);
    LimboStartIsCompleteIff(rewriting, RemoveTree(rewriting.fs, m.copyTarget), m, truth, home);
    MoveTreeGet(d.fs, m.copyTarget, m.to, m.to);
    assert m.copyTarget + m.to[|m.to|..] == m.copyTarget;
  }

  // ---- Cleaning up behind a start that gave up in limbo

  lemma {:induction false} WithoutNamesAt(fs: Tree, home: Path, names: seq<string>, root: Path, rel: Path)
    requires Apart(home, root)
    ensures At(WithoutNames(fs, home, names), root, rel) == At(fs, root, rel)
    decreases |names|
  {
    if names != [] {
      var n := |names| - 1;
      WithoutNamesAt(fs, home, names[..n], root, rel);
      if root <= home + [names[n]] { PrefixOfJoin(root, home, [names[n]]); }
      RemoveTreeAt(WithoutNames(fs, home, names[..n]), home + [names[n]], root, rel);
    }
  }

  lemma WithoutOldRootAt(fs: Tree, previous: Path, home: Path, root: Path, rel: Path)
    requires Apart(previous, root)
    ensures At(WithoutOldRoot(fs, previous, home), root, rel) == At(fs, root, rel)
  {
    if previous == home {
      WithoutNamesAt(fs, home, HOME_DATA + DATABASE_FILES, root, rel);
    } else {
      RemoveTreeAt(fs, previous, root, rel);
    }
  }

  lemma {:induction false} WithoutNamesGone(fs: Tree, root: Path, names: seq<string>, i: nat)
    requires i < |names|
    ensures root + [names[i]] !in WithoutNames(fs, root, names)
    decreases |names|
  {
    var n := |names| - 1;
    if i < n { WithoutNamesGone(fs, root, names[..n], i); }
  }

  lemma OldDatabaseGone(fs: Tree, previous: Path, home: Path)
    ensures At(WithoutOldRoot(fs, previous, home), previous, [DATABASE]) == None
  {
    if previous == home {
      assert (HOME_DATA + DATABASE_FILES)[|HOME_DATA|] == DATABASE;
      WithoutNamesGone(fs, home, HOME_DATA + DATABASE_FILES, |HOME_DATA|);
    }
  }

  /** What the application stored, after the cleanup rewrote the paths in its database. */
  function TidiedTruth(d: Disk, truth: Tree, rewrite: Option<Node> -> Node, home: Path): Tree {
    if Rewrites(d, home) then RewrittenTruth(truth, rewrite) else truth
  }

  /** Cleaning up behind a start that gave up in limbo keeps a complete copy exactly when
      the database files of the new root are intact or the old root is not the one to be
      removed. Rewriting the paths must not make a torn database whole. */
  lemma CleanupAfterLimboIff(d: Disk, m: Marker, rewrite: Option<Node> -> Node, truth: Tree, home: Path)
    requires Safe(d, truth, home) && d.pending == Some(m) && Limbo(d, home)
    requires [DATABASE] in truth
    requires rewrite(At(d.fs, m.to, [DATABASE])) == rewrite(Get(truth, [DATABASE])) ==>
               At(d.fs, m.to, [DATABASE]) == Get(truth, [DATABASE])
    ensures var end := Tidied(Abandoned(d, m), rewrite, home);
            Holds(end.fs, m.to, TidiedTruth(d, truth, rewrite, home)) || Holds(end.fs, m.from, truth) <==>
            (forall name | name in DATABASE_FILES :: Get(d.fs, m.to + [name]) == Get(truth, [name])) || d.previous != Some(m.from)
  {
    var fs := RemoveTree(d.fs, m.copyTarget);
    var end := Tidied(Abandoned(d, m), rewrite, home);
    forall rel: Path
      ensures At(fs, m.from, rel) == At(d.fs, m.from, rel) && At(fs, m.to, rel) == At(d.fs, m.to, rel)
    {
      RemoveTreeAt(d.fs, m.copyTarget, m.from, rel);
      RemoveTreeAt(d.fs, m.copyTarget, m.to, rel);
    }
    if d.previous == Some(m.from) {
      OldRootCleaned(d, m, fs, rewrite, truth, home);
    } else {
      forall rel | Tracked(rel)
        ensures At(end.fs, m.from, rel) == Get(truth, rel)
      {
        WriteAt(fs, m.to, [DATABASE], rewrite(At(fs, m.to, [DATABASE])), m.from, rel);
        if Rewrites(d, home) {
          WithoutOldRootAt(Rewritten(fs, m.to, rewrite), d.previous.value, home, m.from, rel);
        }
      }
    }
  }

  lemma OldRootCleaned(d: Disk, m: Marker, fs: Tree, rewrite: Option<Node> -> Node, truth: Tree, home: Path)
    requires Apart(m.from, m.to) && d.previous == Some(m.from) && Current(d, home) == m.to
    requires HoldsData(d.fs, m.to, truth) && [DATABASE] in truth
    requires forall rel: Path :: At(fs, m.to, rel) == At(d.fs, m.to, rel)
    requires rewrite(At(d.fs, m.to, [DATABASE])) == rewrite(Get(truth, [DATABASE])) ==>
               At(d.fs, m.to, [DATABASE]) == Get(truth, [DATABASE])
    ensures var end := WithoutOldRoot(Rewritten(fs, m.to, rewrite), m.from, home);
            && !Holds(end, m.from, truth) && !Holds(end, m.from, RewrittenTruth(truth, rewrite))
            && (Holds(end, m.to, RewrittenTruth(truth, rewrite)) <==>
                forall name | name in DATABASE_FILES :: Get(d.fs, m.to + [name]) == Get(truth, [name]))
  {
    var end := WithoutOldRoot(Rewritten(fs, m.to, rewrite), m.from, home);
    OldDatabaseGone(Rewritten(fs, m.to, rewrite), m.from, home);
    assert Tracked([DATABASE]) && IsDatabase([DATABASE]);
    assert At(end, m.from, [DATABASE]) == None;
    forall rel: Path
      ensures At(end, m.to, rel) == if rel == [DATABASE] then Some(rewrite(At(d.fs, m.to, [DATABASE]))) else At(d.fs, m.to, rel)
    {
      WithoutOldRootAt(Rewritten(fs, m.to, rewrite), m.from, home, m.to, rel);
      WriteAt(fs, m.to, [DATABASE], rewrite(At(fs, m.to, [DATABASE])), m.to, rel);
    }
    var truth' := RewrittenTruth(truth, rewrite);
    forall name | name in DATABASE_FILES
      ensures Tracked([name]) && IsDatabase([name])
      ensures At(end, m.to, [name]) == Get(truth', [name]) <==> Get(d.fs, m.to + [name]) == Get(truth, [name])
    {
      assert [name] == [DATABASE] <==> name == DATABASE;
    }
    if forall name | name in DATABASE_FILES :: Get(d.fs, m.to + [name]) == Get(truth, [name]) {
      forall rel | Tracked(rel)
        ensures At(end, m.to, rel) == Get(truth', rel)
      {
        if IsDatabase(rel) {
          assert rel == [rel[0]];
        } else {
          assert At(d.fs, m.to, rel) == Get(truth, rel);
        }
      }
    } else {
      var name :| name in DATABASE_FILES && Get(d.fs, m.to + [name]) != Get(truth, [name]);
      assert At(end, m.to, [name]) != Get(truth', [name]);
    }
  }

  /** The losing run: once the third crash came after the old root was recorded, a start
      that does not see the old root returns the torn one, and the cleanup behind it
      removes the old one. No complete copy is left. */
  method LimboLosesTheData(home: Path, d: Disk, m: Marker, torn: Node, rewrite: Option<Node> -> Node, truth: Tree)
    returns (machine: Manager, root: Path)
    requires Safe(d, truth, home) && d.pending == Some(m) && m.phase.Finalize? && !m.committed
    requires m.copyTarget in d.fs && Finishable(d, m, home)
    requires DatabaseCopied(d.fs, m.from, m.copyTarget, Names(DATABASE_FILES))
    requires Some(torn) != Get(truth, [DATABASE]) && rewrite(Some(torn)) != rewrite(Get(truth, [DATABASE]))
    ensures root == m.to && machine.truth == RewrittenTruth(truth, rewrite)
    ensures machine.disk == Tidied(Abandoned(TornInLimbo(d, m, torn, true), m), rewrite, home)
    ensures !CompleteCopyExists(machine.disk, machine.truth, home)
    ensures !Holds(machine.disk.fs, m.from, machine.truth) && !Holds(machine.disk.fs, m.from, truth)
  {
    hide Safe, Faithful, Holds, Finishable, Continues, DatabaseCopied, RemoveTree, MoveTree, WithoutOldRoot, AbandonsMove;
    var rewriting := TornInLimbo(d, m, torn, true);
    LimboIsReachable(d, m, torn, true, truth, home);
    DatabaseIsStored(d, m, truth, home);
    machine := new Manager(home, OldRootAway, rewriting, truth);
    var o, early;
    o, root, early := machine.PrepareStartup();
    o := machine.FinalizePrevious(rewrite);
    TornIsLost(rewriting, m, torn, rewrite, truth, home);
  }

  lemma DatabaseIsStored(d: Disk, m: Marker, truth: Tree, home: Path)
    requires Safe(d, truth, home) && d.pending == Some(m) && m.phase.Finalize? && Finishable(d, m, home)
    ensures [DATABASE] in truth
  {
    assert At(d.fs, m.from, [DATABASE]) == Get(truth, [DATABASE]);
  }

  lemma TornIsLost(d: Disk, m: Marker, torn: Node, rewrite: Option<Node> -> Node, truth: Tree, home: Path)
    requires Safe(d, truth, home) && d.pending == Some(m) && Limbo(d, home) && d.previous == Some(m.from)
    requires [DATABASE] in truth && At(d.fs, m.to, [DATABASE]) == Some(torn)
    requires rewrite(Some(torn)) != rewrite(Get(truth, [DATABASE]))
    ensures var end := Tidied(Abandoned(d, m), rewrite, home);
            && !CompleteCopyExists(end, RewrittenTruth(truth, rewrite), home)
            && !Holds(end.fs, m.from, RewrittenTruth(truth, rewrite)) && !Holds(end.fs, m.from, truth)
  {
    var fs := RemoveTree(d.fs, m.copyTarget);
    forall rel: Path
      ensures At(fs, m.to, rel) == At(d.fs, m.to, rel)
    {
      RemoveTreeAt(d.fs, m.copyTarget, m.to, rel);
    }
    assert DATABASE in DATABASE_FILES;
    OldRootCleaned(d, m, fs, rewrite, truth, home);
  }

  const STALE_MOVE := Marker(["old"], ["new"], [".new-copy"], Finalize, true, false, OWNER_PREFIX + ".new-copy")

  const STALE_DISK := Disk(
    map[["old"] := Dir, ["old", DATABASE] := File("db"), ["old", "mods", "a"] := File("new"),
        [".new-copy"] := Dir, [".new-copy", "mods", "a"] := File("old"),
        [".new-copy", STALE_MOVE.owner] := OwnerNote([".new-copy"])],
    Some(["old"]), Some(STALE_MOVE), None, true)

  /** A store that a failed cleanup let happen behind a finalize marker: the next start
      brings the older file back, and the newer one is gone with the old root. */
  lemma StaleCopyExample()
    ensures Geometry(STALE_MOVE, ["home"]) && STALE_MOVE.copyTarget in STALE_DISK.fs
    ensures At(STALE_DISK.fs, STALE_MOVE.from, ["mods", "a"]) == Some(File("new"))
    ensures At(Finished(STALE_DISK, STALE_MOVE).fs, STALE_MOVE.to, ["mods", "a"]) == Some(File("old"))
  {
    var d, m := STALE_DISK, STALE_MOVE;
    var rel := ["mods", "a"];
    assert "old"[0] != "new"[0] && "old"[0] != ".new-copy"[0] && "new"[0] != ".new-copy"[0] && "home"[0] != "new"[0];
    assert m.from[0] != m.to[0] && m.from[0] != m.copyTarget[0] && m.to[0] != m.copyTarget[0];
    assert m.to[0] != "home" && m.copyTarget[0] != "home";
    FinishedTreeGet(d.fs, m, m.to + rel, ["home"]);
    assert (m.to + rel)[|m.to|..] == rel;
    assert m.copyTarget + rel == [".new-copy", "mods", "a"];
    assert m.from + rel == ["old", "mods", "a"];
    assert |m.to + [m.owner]| != |m.to + rel|;
  }
}
