/** The data-root mover itself. Every call on the disk is one step that may work,
    fail, or be the last one before the process dies. */
module RelocationManager {
  import opened Prelude
  import opened FileTree
  import opened Relocation
  import opened RelocationSafety
  import opened RelocationSteps

  datatype Outcome = Done | Failed | Crashed

  const PROBE := ".waxlight-write-probe"

  /** Any step may fail or be cut off; none does; or only the first look at the old root fails. */
  datatype Health = Faulty | Steady | OldRootAway

  /** A marker that a crash kept from being recorded as committed, although the
      pointer already names the new root. */
  predicate Limbo(d: Disk, home: Path) {
    && d.pending.Some? && d.pending.value.phase.Finalize? && !d.pending.value.committed
    && Current(d, home) == d.pending.value.to
  }

  /** What a start leaves that refuses to come up: everything but the staged copy, and an error note. */
  predicate Refused(d: Disk, d': Disk)
    requires d.pending.Some?
  {
    var copy := d.pending.value.copyTarget;
    d' == d.(fs := d'.fs, error := true) && RemoveTree(d'.fs, copy) == RemoveTree(d.fs, copy)
  }

  /** The copy of the old root with the note that claims it. */
  function Claimed(fs: Tree, m: Marker): Tree {
    Noted(CopyTree(fs, m.from, m.copyTarget), m)
  }

  function Noted(fs: Tree, m: Marker): Tree {
    fs[m.copyTarget + [m.owner] := OwnerNote(m.copyTarget)]
  }

  /** Nothing came into the target since it was chosen, and the name of the note is free. */
  predicate Claimable(fs: Tree, m: Marker) {
    !OccupiedDirectory(fs, m.to) && (m.to in fs || m.targetCreated) && m.copyTarget + [m.owner] !in fs
  }

  /** os.MkdirTemp can make the staged directory. */
  predicate Mkdirs(d: Disk, home: Path, target: Path, name: string)
    requires target != []
  {
    Beside(target, name) != target && Fresh(d, home, Beside(target, name))
  }

  /** A staged directory and the marker of a copy. */
  function CopyRecorded(d: Disk, home: Path, target: Path, name: string, created: bool): Disk
    requires target != []
  {
    var staged := Beside(target, name);
    d.(fs := d.fs[staged := Dir],
       pending := Some(Marker(Current(d, home), target, staged, Copy, created, false, OWNER_PREFIX + name)))
  }

  /** The outcome of a PrepareRelocation to a usable target: the target itself is as before. */
  function Prepared(d: Disk, home: Path, target: Path, name: string): Disk
    requires target != []
  {
    CopyRecorded(d, home, target, name, target !in d.fs)
  }

  lemma WriteUnder(fs: Tree, root: Path, x: Path, content: Node, p: Path)
    ensures RemoveTree(fs[root + x := content], root) == RemoveTree(fs, root)
    ensures OccupiedDirectory(fs, p) ==> OccupiedDirectory(fs[root + x := content], p)
  {
    assert root <= root + x;
    if OccupiedDirectory(fs, p) {
      var q :| q in fs && p < q;
      assert q in fs[root + x := content];
    }
  }

  /** finishPending gets to know that the copy was moved, if it was not recorded. */
  predicate KnownCommitted(d: Disk, m: Marker, home: Path) {
    m.committed || (m.from in d.fs && m.copyTarget !in d.fs && (Owned(d.fs, m) || Current(d, home) == m.to))
  }

  /** A relocated root exists; the home always does. */
  predicate PointerIsThere(d: Disk) {
    d.pointer.Some? ==> d.pointer.value in d.fs
  }

  /** What an interrupted copy comes to: the staged copy is thrown away. */
  function Discarded(d: Disk, m: Marker): Disk {
    d.(fs := RemoveTree(d.fs, m.copyTarget), pending := None)
  }

  /** A finalize marker that was not recorded as committed, and a pointer to a root that exists. */
  predicate AbandonsMove(d: Disk) {
    && d.pending.Some? && d.pending.value.phase.Finalize? && !d.pending.value.committed
    && PointerIsThere(Discarded(d, d.pending.value))
  }

  /** The outcome of a finalize that fails at its first look at the old root, all else working. */
  function Abandoned(d: Disk, m: Marker): Disk {
    Discarded(d, m).(error := true)
  }

  /** Exactly the staged copy and the marker are gone, and the error is noted. */
  lemma AbandonedMeaning(d: Disk, m: Marker, q: Path)
    ensures Get(Abandoned(d, m).fs, q) == if m.copyTarget <= q then None else Get(d.fs, q)
    ensures Abandoned(d, m).pending == None && Abandoned(d, m).error
    ensures Abandoned(d, m).pointer == d.pointer && Abandoned(d, m).previous == d.previous
    ensures Get(Discarded(d, m).fs, q) == if m.copyTarget <= q then None else Get(d.fs, q)
    ensures Discarded(d, m).pending == None && Discarded(d, m) == d.(fs := Discarded(d, m).fs, pending := None)
  {
  }

  /** What a start that gives up in limbo leaves: the old root as it was, nothing moved, and
      a safe disk as long as the marker is there. */
  ghost predicate LeftInLimbo(d: Disk, d': Disk, truth: Tree, home: Path)
    requires d.pending.Some?
  {
    var m := d.pending.value;
    && d' == d.(fs := d'.fs, pending := d'.pending, error := d'.error)
    && (d'.fs == d.fs || d'.fs == RemoveTree(d.fs, m.copyTarget))
    && (d'.pending == d.pending || d'.pending == None)
    && Holds(d'.fs, m.from, truth)
    && (d'.pending.Some? ==> Safe(d', truth, home))
  }

  lemma StaysInLimbo(d: Disk, m: Marker, truth: Tree, home: Path)
    requires Safe(d, truth, home) && d.pending == Some(m) && Limbo(d, home)
    ensures forall error: bool :: LeftInLimbo(d, d.(error := error), truth, home)
    ensures forall error: bool :: LeftInLimbo(d, d.(fs := RemoveTree(d.fs, m.copyTarget), error := error), truth, home)
    ensures forall error: bool :: LeftInLimbo(d, d.(fs := RemoveTree(d.fs, m.copyTarget), pending := None, error := error), truth, home)
  {
    CleanedUp(d, m, truth, home);
    forall rel: Path
      ensures At(RemoveTree(d.fs, m.copyTarget), m.from, rel) == At(d.fs, m.from, rel)
    {
      RemoveTreeAt(d.fs, m.copyTarget, m.from, rel);
    }
  }

  lemma SafeWhileFinishing(d: Disk, d': Disk, m: Marker, truth: Tree, home: Path)
    requires Safe(d, truth, home) && d.pending == Some(m) && m.phase.Finalize?
    requires Continues(d, d', m, truth, home)
    requires d'.pending == Some(m) || d'.pending == Some(m.(committed := true))
    requires d'.pointer == Some(m.to) || d'.pointer == d.pointer
    requires d'.previous == Some(m.from) || d'.previous == d.previous
    ensures Safe(d', truth, home)
  {
    assert Faithful(d', m, truth, home);
    assert Faithful(d', m.(committed := true), truth, home);
    assert m.from != m.to;
  }

  lemma SafeFacts(d: Disk, m: Marker, truth: Tree, home: Path)
    requires Safe(d, truth, home) && (d.pending == Some(m) || d.pending == Some(m.(committed := true)))
    ensures Geometry(m, home)
    ensures m.phase.Finalize? ==> Faithful(d, m, truth, home)
  {}

  lemma FinishableFacts(d: Disk, m: Marker, home: Path)
    requires m.from in d.fs && m.from + [DATABASE] in d.fs
    requires m.copyTarget in d.fs || Owned(d.fs, m) || Current(d, home) == m.to
    ensures m.copyTarget !in d.fs ==> Finishable(d, m, home)
  {}

  lemma Recommitted(d: Disk, d': Disk, m: Marker, truth: Tree, home: Path)
    requires Continues(d, d', m, truth, home)
    ensures Continues(d, d'.(pending := Some(m.(committed := true))), m, truth, home)
  {}

  lemma NothingToCopy(fs: Tree, from: Path, dst: Path, name: string, names: set<string>)
    requires DatabaseCopied(fs, from, dst, names) && from + [name] !in fs
    ensures DatabaseCopied(fs, from, dst, names + {name})
  {}

  lemma ReadyToMove(d: Disk, m: Marker, truth: Tree, home: Path)
    requires Safe(d, truth, home) && d.pending == Some(m) && m.phase.Finalize?
    requires m.copyTarget in d.fs && m.from in d.fs && m.from + [DATABASE] in d.fs && !OccupiedDirectory(d.fs, m.to)
    ensures Finishable(d, m, home)
  {}

  lemma StillFinishable(d: Disk, d': Disk, m: Marker, home: Path)
    requires d'.fs == d.fs && d'.pointer == d.pointer
    ensures Finishable(d, m, home) ==> Finishable(d', m, home)
  {}

  lemma ContinuesItself(d: Disk, m: Marker, truth: Tree, home: Path)
    ensures Continues(d, d, m, truth, home)
  {}

  lemma ContinuesOn(a: Disk, b: Disk, c: Disk, m: Marker, truth: Tree, home: Path)
    requires Continues(a, b, m, truth, home) && Continues(b, c, m, truth, home)
    ensures Continues(a, c, m, truth, home)
  {}

  lemma ContinuesFinishable(d: Disk, d': Disk, m: Marker, truth: Tree, home: Path)
    requires Continues(d, d', m, truth, home)
    ensures Finishable(d, m, home) ==> Finishable(d', m, home)
  {}

  lemma NothingCopied(fs: Tree, from: Path, dst: Path)
    ensures DatabaseCopied(fs, from, dst, {})
  {}

  class Manager {
    const home: Path
    const health: Health
    var disk: Disk
    var truth: Tree         // what the application last stored in its data root

    constructor (home: Path, health: Health, disk: Disk, truth: Tree)
      ensures this.home == home && this.health == health && this.disk == disk && this.truth == truth
    {
      this.home, this.health, this.disk, this.truth := home, health, disk, truth;
    }

    /** Whether the next call on the disk takes effect. */
    method Attempt() returns (o: Outcome)
      ensures !health.Faulty? ==> o == Done
    {
      if health.Faulty? { o := *; } else { o := Done; }
    }

    /** os.Stat of the old root, say on a drive that is not there yet. */
    method StatOldRoot() returns (o: Outcome)
      ensures health.Steady? ==> o == Done
      ensures health.OldRootAway? ==> o == Failed
    {
      if health.OldRootAway? { o := Failed; } else { o := Attempt(); }
    }

    /** A file copy that does not get through may leave a torn file behind. */
    method CopyFile(source: Path, destination: Path) returns (o: Outcome)
      requires source in disk.fs
      modifies this`disk
      ensures !health.Faulty? ==> o == Done
      ensures o.Done? ==> disk == old(disk).(fs := old(disk).fs[destination := old(disk).fs[source]])
      ensures !o.Done? ==> disk == old(disk) ||
                           (destination in disk.fs && disk == old(disk).(fs := old(disk).fs[destination := disk.fs[destination]]))
    {
      o := Attempt();
      if o.Done? {
        disk := disk.(fs := disk.fs[destination := disk.fs[source]]);
      } else {
        var torn: bool := *;
        if torn {
          var junk: Node := *;
          disk := disk.(fs := disk.fs[destination := junk]);
        }
      }
    }

    /** finishPending: hand the database over, move the copy into place, repoint. */
    method FinishPending(pending: Marker) returns (o: Outcome, m: Marker)
      requires Safe(disk, truth, home) && disk.pending == Some(pending) && pending.phase.Finalize?
      modifies this`disk
      ensures m == pending || m == pending.(committed := true)
      ensures o.Done? ==>
                && disk.(fs := disk.fs - {pending.to + [pending.owner]}) == Finished(old(disk), pending)
                && Safe(disk, truth, home) && Holds(disk.fs, pending.to, truth)
      ensures !o.Done? ==>
                && Continues(old(disk), disk, pending, truth, home)
                && Safe(disk, truth, home)
                && (disk.pending == Some(pending) || disk.pending == Some(pending.(committed := true)))
      ensures o.Failed? && !m.committed ==> disk.pending == Some(pending) && disk.pointer == old(disk).pointer
      ensures o.Failed? && !m.committed && pending.copyTarget !in old(disk).fs ==> disk == old(disk)
      ensures health.Steady? && old(Finishable(disk, pending, home)) ==>
                o.Done? && disk == Finished(old(disk), pending)
      ensures health.OldRootAway? ==> o.Failed? && m == pending && disk == old(disk)
      ensures health.Steady? && !old(Finishable(disk, pending, home)) ==>
                && o.Failed? && (m.committed <==> old(KnownCommitted(disk, pending, home)))
                && disk == old(disk).(fs := disk.fs)
                && RemoveTree(disk.fs, pending.copyTarget) == RemoveTree(old(disk).fs, pending.copyTarget)
    {
      hide Finished, FinishedTree, MovedTree, Faithful, Holds, HoldsData, Safe, DatabaseCopied;
      m := pending;
      ghost var start := disk;
      SafeFacts(disk, pending, truth, home);
      o := StatOldRoot();
      if !o.Done? { return; }
      if m.from !in disk.fs { return Failed, m; }
      o := Attempt();                                   // stat the staged copy
      if !o.Done? { return; }
      var staged := m.copyTarget;
      if m.copyTarget !in disk.fs {
        o := Attempt();                                 // read the owner note and the pointer
        if !o.Done? { return; }
        if !Owned(disk.fs, m) && Current(disk, home) != m.to { return Failed, m; }
        staged := m.to;
        m := m.(committed := true);
      }
      o := Attempt();                                   // stat the database
      if o.Crashed? { return; }
      if m.from + [DATABASE] !in disk.fs { return Failed, m; }
      ghost var ready := disk;
      o := CopyDatabase(pending, m, staged);
      if !o.Done? { return; }
      if staged != m.to {
        if !OccupiedDirectory(ready.fs, pending.to) { ReadyToMove(start, pending, truth, home); }
        o, m := Swap(pending, start);
        if !o.Done? { return; }
      }
      o := Repoint(pending, start);
    }

    /** The loop over the database files. */
    method CopyDatabase(pending: Marker, m: Marker, staged: Path) returns (o: Outcome)
      requires Safe(disk, truth, home) && disk.pending == Some(pending) && pending.phase.Finalize?
      requires m == pending || m == pending.(committed := true)
      requires staged == Staged(disk, pending)
      requires pending.copyTarget in disk.fs || Owned(disk.fs, pending) || Current(disk, home) == pending.to
      requires pending.from in disk.fs && pending.from + [DATABASE] in disk.fs
      modifies this`disk
      ensures Continues(old(disk), disk, pending, truth, home) && Safe(disk, truth, home)
      ensures disk == old(disk).(fs := disk.fs) && (pending.copyTarget in disk.fs <==> pending.copyTarget in old(disk).fs)
      ensures pending.copyTarget !in disk.fs ==> Finishable(disk, pending, home)
      ensures OccupiedDirectory(disk.fs, pending.to) && pending.copyTarget in disk.fs ==> OccupiedDirectory(old(disk).fs, pending.to)
      ensures o.Done? ==> DatabaseCopied(disk.fs, pending.from, staged, Names(DATABASE_FILES))
      ensures pending.from in disk.fs && pending.from + [DATABASE] in disk.fs
      ensures RemoveTree(disk.fs, staged) == RemoveTree(old(disk).fs, staged)
      ensures OccupiedDirectory(old(disk).fs, pending.to) ==> OccupiedDirectory(disk.fs, pending.to)
      ensures !health.Faulty? ==> o == Done
    {
      hide Finished, FinishedTree, MovedTree, Faithful, Holds, HoldsData, Safe, DatabaseCopied, Finishable, Continues;
      ghost var start := disk;
      ContinuesItself(disk, pending, truth, home);
      FinishableFacts(disk, pending, home);
      NothingCopied(disk.fs, pending.from, staged);
      var i := 0;
      assert Names(DATABASE_FILES[..i]) == {};
      while i < |DATABASE_FILES|
        invariant 0 <= i <= |DATABASE_FILES|
        invariant disk == start.(fs := disk.fs) && (pending.copyTarget in disk.fs <==> pending.copyTarget in start.fs)
        invariant Continues(start, disk, pending, truth, home) && Safe(disk, truth, home)
        invariant pending.copyTarget !in disk.fs ==> Finishable(disk, pending, home)
        invariant OccupiedDirectory(disk.fs, pending.to) && pending.copyTarget in disk.fs ==> OccupiedDirectory(start.fs, pending.to)
        invariant RemoveTree(disk.fs, staged) == RemoveTree(start.fs, staged)
        invariant OccupiedDirectory(start.fs, pending.to) ==> OccupiedDirectory(disk.fs, pending.to)
        invariant DatabaseCopied(disk.fs, pending.from, staged, Names(DATABASE_FILES[..i]))
        invariant pending.from in disk.fs && pending.from + [DATABASE] in disk.fs
      {
        var name := DATABASE_FILES[i];
        ghost var copied := Names(DATABASE_FILES[..i]);
        assert DATABASE_FILES[..i + 1] == DATABASE_FILES[..i] + [name];
        assert Names(DATABASE_FILES[..i + 1]) == copied + {name};
        ghost var before := disk;
        o := CopyDatabaseFile(pending, staged, name, copied);
        ContinuesOn(start, before, disk, pending, truth, home);
        if !o.Done? { return; }
        i := i + 1;
      }
      assert DATABASE_FILES[..i] == DATABASE_FILES;
      o := Done;
    }

    /** One database file, if the old root has it. */
    method CopyDatabaseFile(pending: Marker, staged: Path, name: string, ghost copied: set<string>) returns (o: Outcome)
      requires Safe(disk, truth, home) && disk.pending == Some(pending) && pending.phase.Finalize?
      requires staged == Staged(disk, pending) && name in DATABASE_FILES && name !in copied
      requires pending.copyTarget !in disk.fs ==> Finishable(disk, pending, home)
      requires pending.from in disk.fs && pending.from + [DATABASE] in disk.fs
      requires DatabaseCopied(disk.fs, pending.from, staged, copied)
      modifies this`disk
      ensures Continues(old(disk), disk, pending, truth, home) && Safe(disk, truth, home)
      ensures disk == old(disk).(fs := disk.fs) && (pending.copyTarget in disk.fs <==> pending.copyTarget in old(disk).fs)
      ensures pending.copyTarget !in disk.fs ==> Finishable(disk, pending, home)
      ensures OccupiedDirectory(disk.fs, pending.to) && pending.copyTarget in disk.fs ==> OccupiedDirectory(old(disk).fs, pending.to)
      ensures o.Done? ==> DatabaseCopied(disk.fs, pending.from, staged, copied + {name})
      ensures pending.from in disk.fs && pending.from + [DATABASE] in disk.fs
      ensures RemoveTree(disk.fs, staged) == RemoveTree(old(disk).fs, staged)
      ensures OccupiedDirectory(old(disk).fs, pending.to) ==> OccupiedDirectory(disk.fs, pending.to)
      ensures !health.Faulty? ==> o == Done
    {
      hide Finished, FinishedTree, MovedTree, Faithful, Holds, HoldsData, Safe, DatabaseCopied, Finishable, Continues;
      SafeFacts(disk, pending, truth, home);
      ContinuesItself(disk, pending, truth, home);
      var source, target := pending.from + [name], staged + [name];
      if source !in disk.fs { NothingToCopy(disk.fs, pending.from, staged, name, copied); }
      o := Attempt();                                   // stat the database file
      if !o.Done? { return; }
      if source in disk.fs {
        ghost var before := disk;
        o := CopyFile(source, target);
        if o.Done? || disk != before {
          ghost var content := disk.fs[target];
          WriteDatabaseFile(before, pending, name, content, truth, home);
          WriteKeepsRoots(before.fs, pending, staged, name, content);
          WriteUnder(before.fs, staged, [name], content, pending.to);
          SafeWhileFinishing(before, disk, pending, truth, home);
          ContinuesFinishable(before, disk, pending, truth, home);
          NamesStayCopied(before.fs, pending, staged, name, content, copied);
          assert At(disk.fs, pending.from, [name]) == At(before.fs, pending.from, [name]);
          if staged == pending.copyTarget && pending.to < target {
            PrefixOfJoin(pending.to, pending.copyTarget, [name]);
          }
        }
      }
    }

    /** Replace the empty target by the staged copy and record that it happened. */
    method Swap(pending: Marker, ghost start: Disk) returns (o: Outcome, m: Marker)
      requires Safe(disk, truth, home) && disk.pending == Some(pending) && pending.phase.Finalize?
      requires pending.copyTarget in disk.fs && pending.from in disk.fs && pending.from + [DATABASE] in disk.fs
      requires DatabaseCopied(disk.fs, pending.from, pending.copyTarget, Names(DATABASE_FILES))
      requires Safe(start, truth, home) && start.pending == Some(pending)
      requires Continues(start, disk, pending, truth, home) && disk.pointer == start.pointer && disk.previous == start.previous
      modifies this`disk
      ensures m == pending || m == pending.(committed := true)
      ensures Continues(start, disk, pending, truth, home) && Safe(disk, truth, home)
      ensures disk.pending == Some(pending) || disk.pending == Some(pending.(committed := true))
      ensures !m.committed ==> disk.pending == Some(pending)
      ensures disk == old(disk).(fs := disk.fs, pending := disk.pending)
      ensures o.Done? ==> pending.copyTarget !in disk.fs && Finishable(disk, pending, home) && m.committed
      ensures o.Done? ==> disk.pending == Some(pending.(committed := true))
      ensures o.Done? ==> DatabaseCopied(disk.fs, pending.from, pending.to, Names(DATABASE_FILES))
      ensures !health.Faulty? ==> o == if OccupiedDirectory(old(disk).fs, pending.to) then Failed else Done
      ensures OccupiedDirectory(old(disk).fs, pending.to) ==> disk == old(disk) && m == pending
    {
      hide Finished, FinishedTree, MovedTree, Faithful, Holds, HoldsData, Safe, DatabaseCopied, Continues, Finishable, MoveTree;
      SafeFacts(disk, pending, truth, home);
      m := pending;
      o := Attempt();                                   // remove the target
      if !o.Done? { return; }
      if OccupiedDirectory(disk.fs, m.to) { return Failed, m; }
      ghost var before := disk;
      disk := disk.(fs := disk.fs - {m.to});
      ReplaceTarget(before, m, false, truth, home);
      SafeWhileFinishing(before, disk, m, truth, home);
      ContinuesOn(start, before, disk, m, truth, home);
      RemovedTargetFacts(before.fs, m);
      o := Attempt();                                   // rename the staged copy
      if !o.Done? {
        if o.Failed? && !m.targetCreated {
          var made := Attempt();
          if made.Done? {
            before := disk;
            disk := disk.(fs := disk.fs[m.to := Dir]);
            ReplaceTarget(before, m, true, truth, home);
            SafeWhileFinishing(before, disk, m, truth, home);
            ContinuesOn(start, before, disk, m, truth, home);
          } else if made.Crashed? {
            o := Crashed;
          }
        }
        return;
      }
      before := disk;
      ReadyToMove(disk, m, truth, home);
      disk := disk.(fs := MoveTree(disk.fs, m.copyTarget, m.to));
      MoveIntoPlace(before, m, truth, home);
      SafeWhileFinishing(before, disk, m, truth, home);
      ContinuesOn(start, before, disk, m, truth, home);
      ContinuesFinishable(before, disk, m, truth, home);
      m := m.(committed := true);
      o := Attempt();                                   // record the commit
      if !o.Done? { return; }
      Recommitted(start, disk, pending, truth, home);
      before := disk;
      disk := disk.(pending := Some(m));
      StillFinishable(before, disk, pending, home);
      SafeWhileFinishing(start, disk, pending, truth, home);
    }

    /** Pointer, previous root, owner file, marker: in this order. */
    method Repoint(pending: Marker, ghost start: Disk) returns (o: Outcome)
      requires pending.phase.Finalize? && start.pending == Some(pending) && Safe(start, truth, home)
      requires Safe(disk, truth, home)
      requires disk.pending == Some(pending) || disk.pending == Some(pending.(committed := true))
      requires Continues(start, disk, pending, truth, home)
      requires disk.pointer == start.pointer && disk.previous == start.previous
      requires pending.copyTarget !in disk.fs && Finishable(disk, pending, home)
      requires DatabaseCopied(disk.fs, pending.from, pending.to, Names(DATABASE_FILES))
      modifies this`disk
      ensures o.Done? ==>
                && disk.(fs := disk.fs - {pending.to + [pending.owner]}) == Finished(start, pending)
                && Safe(disk, truth, home) && Holds(disk.fs, pending.to, truth)
      ensures !o.Done? ==>
                && Continues(start, disk, pending, truth, home) && Safe(disk, truth, home)
                && disk.pending == old(disk).pending
      ensures !health.Faulty? ==> o == Done && disk == Finished(start, pending)
    {
      hide Finished, FinishedTree, MovedTree, Faithful, Holds, HoldsData, Safe, DatabaseCopied, Continues, Finishable, Geometry;
      ghost var moved := disk;
      o := Attempt();
      if !o.Done? { return; }
      disk := disk.(pointer := Some(pending.to));
      StillSafeAfterMove(start, moved, disk, pending, truth, home);
      o := Attempt();
      if !o.Done? { return; }
      disk := disk.(previous := Some(pending.from));
      StillSafeAfterMove(start, moved, disk, pending, truth, home);
      ghost var whole := disk;
      o := Attempt();                                   // the owner file is removed at best effort
      if o.Crashed? { return; }
      if o.Done? {
        disk := disk.(fs := disk.fs - {pending.to + [pending.owner]});
        StillSafeAfterMove(start, moved, disk, pending, truth, home);
      }
      o := Attempt();
      if !o.Done? { return; }
      ClearAfterMove(start, whole, disk, pending, truth, home);
      disk := disk.(pending := None);
    }

    // ---- Startup

    /** PrepareStartup. early reports a finishPending that failed before it knew that
        the staged copy had already been moved. */
    method PrepareStartup() returns (o: Outcome, root: Path, early: bool)
      requires Safe(disk, truth, home)
      modifies this`disk
      ensures early ==> old(disk).pending.Some? && old(disk).pending.value.phase.Finalize? && !old(disk).pending.value.committed
      ensures !(early && Limbo(old(disk), home)) ==> Safe(disk, truth, home)
      ensures !(early && Limbo(old(disk), home)) && o.Done? ==>
                Running(disk, truth, home) && root == Current(disk, home) && Holds(disk.fs, root, truth)
      ensures early && Limbo(old(disk), home) ==>
                && LeftInLimbo(old(disk), disk, truth, home)
                && (o.Done? ==> root == old(disk).pending.value.to)
      ensures health.OldRootAway? && AbandonsMove(old(disk)) ==>
                early && o.Done? && root == Current(old(disk), home) && disk == Abandoned(old(disk), old(disk).pending.value)
      ensures !health.Faulty? && old(disk).pending.None? ==>
                && disk == old(disk) && !early && o == (if PointerIsThere(disk) then Done else Failed)
                && (o.Done? ==> root == Current(disk, home))
      ensures !health.Faulty? && old(disk).pending.Some? && old(disk).pending.value.phase.Copy? ==>
                && disk == Discarded(old(disk), old(disk).pending.value) && !early && o == (if PointerIsThere(disk) then Done else Failed)
                && (o.Done? ==> root == Current(disk, home))
      ensures !health.Faulty? && old(disk).pending.Some? && old(disk).pending.value.phase.Unknown? ==>
                && disk == old(disk).(pending := None) && !early && o == (if PointerIsThere(disk) then Done else Failed)
                && (o.Done? ==> root == Current(disk, home))
      ensures health.Steady? && old(disk.pending.Some? && disk.pending.value.phase.Finalize? && Finishable(disk, disk.pending.value, home)) ==>
                o.Done? && root == old(disk).pending.value.to && disk == Finished(old(disk), old(disk).pending.value)
      ensures health.Steady? && old(disk.pending.Some? && disk.pending.value.phase.Finalize? && !Finishable(disk, disk.pending.value, home)) ==>
                var m := old(disk).pending.value;
                if m.committed || (m.from in old(disk).fs && m.copyTarget !in old(disk).fs
                                   && (Owned(old(disk).fs, m) || Current(old(disk), home) == m.to)) then o.Failed? && !early && Refused(old(disk), disk)
                else early && disk == Abandoned(old(disk), m) && o == (if PointerIsThere(disk) then Done else Failed)
                     && (o.Done? ==> root == Current(disk, home))
    {
      hide Finished, FinishedTree, MovedTree, Faithful, Holds, HoldsData, DatabaseCopied, Continues, Finishable, Geometry, Owned, Safe;
      early, root := false, home;
      o := Attempt();                                   // create the home, read the marker and the pointer
      if !o.Done? { return; }
      if disk.pending.None? {
        NoMove(disk, truth, home);
        o, root := ValidatePointer(Current(disk, home));
        return;
      }
      Position(disk, disk.pending.value, truth, home);
      match disk.pending.value.phase {
        case Finalize =>
          o, root, early := FinalizeAtStartup(disk.pending.value);
        case Copy =>
          o, root := DiscardCopy(disk.pending.value);
        case Unknown =>
          o := Attempt();
          if o.Crashed? { return; }
          if o.Done? { disk := disk.(pending := None); }
          o, root := ValidatePointer(Current(disk, home));
          RunningIsComplete(disk, truth, home);
      }
    }

    /** PhaseFinalize. */
    method FinalizeAtStartup(pending: Marker) returns (o: Outcome, root: Path, early: bool)
      requires Safe(disk, truth, home) && disk.pending == Some(pending) && pending.phase.Finalize?
      modifies this`disk
      ensures early ==> !pending.committed
      ensures !(early && Limbo(old(disk), home)) ==> Safe(disk, truth, home)
      ensures !(early && Limbo(old(disk), home)) && o.Done? ==>
                Running(disk, truth, home) && root == Current(disk, home) && Holds(disk.fs, root, truth)
      ensures early && Limbo(old(disk), home) ==>
                && LeftInLimbo(old(disk), disk, truth, home)
                && (o.Done? ==> root == old(disk).pending.value.to)
      ensures health.OldRootAway? && AbandonsMove(old(disk)) ==>
                early && o.Done? && root == Current(old(disk), home) && disk == Abandoned(old(disk), pending)
      ensures health.Steady? && old(Finishable(disk, pending, home)) ==>
                o.Done? && root == pending.to && disk == Finished(old(disk), pending)
      ensures health.Steady? && !old(Finishable(disk, pending, home)) ==>
                if old(KnownCommitted(disk, pending, home)) then o.Failed? && !early && Refused(old(disk), disk)
                else early && disk == Abandoned(old(disk), pending) && o == (if PointerIsThere(disk) then Done else Failed)
                     && (o.Done? ==> root == Current(disk, home))
    {
      hide Finished, FinishedTree, MovedTree, Faithful, Holds, HoldsData, DatabaseCopied, Continues, Finishable, Geometry, Owned, Safe,
           KnownCommitted;
      early, root := false, pending.to;
      Position(disk, pending, truth, home);
      var m;
      o, m := FinishPending(pending);
      if o.Done? {
        MovedMarkerGone(old(disk), disk, pending);
        return;
      }
      if o.Crashed? { return; }
      if m.committed {
        var noted := NoteError();
        if noted.Crashed? { o := Crashed; }
        return;
      }
      early := true;
      Position(disk, pending, truth, home);
      o, root := AbandonMove(pending);
    }

    /** A finalize that failed before the copy was moved: keep the old root. */
    method AbandonMove(m: Marker) returns (o: Outcome, root: Path)
      requires Safe(disk, truth, home) && disk.pending == Some(m)
      modifies this`disk
      ensures Current(old(disk), home) == m.from ==> Running(disk, truth, home)
      ensures Current(old(disk), home) == m.from && o.Done? ==> Holds(disk.fs, root, truth)
      ensures o.Done? ==> root == Current(disk, home) == Current(old(disk), home)
      ensures Limbo(old(disk), home) ==> LeftInLimbo(old(disk), disk, truth, home)
      ensures !health.Faulty? ==> disk == Abandoned(old(disk), m) && o == if PointerIsThere(disk) then Done else Failed
    {
      hide Faithful, Holds, HoldsData, Geometry, Owned, Safe, Running, RemoveTree, LeftInLimbo;
      root := home;
      Position(disk, m, truth, home);
      CleanedUp(disk, m, truth, home);
      if Limbo(disk, home) { StaysInLimbo(disk, m, truth, home); }
      var cleaned := Attempt();
      if cleaned.Crashed? { o := Crashed; return; }
      if cleaned.Done? {
        disk := disk.(fs := RemoveTree(disk.fs, m.copyTarget));
        var cleared := Attempt();
        if cleared.Crashed? { o := Crashed; return; }
        if cleared.Done? { disk := disk.(pending := None); }
      }
      o := NoteError();
      if o.Crashed? { return; }
      o, root := ValidatePointer(Current(disk, home));
      if Current(old(disk), home) == m.from {
        RunningIsComplete(disk, truth, home);
      }
    }

    /** PhaseCopy: the copy was interrupted and is thrown away. */
    method DiscardCopy(m: Marker) returns (o: Outcome, root: Path)
      requires Safe(disk, truth, home) && disk.pending == Some(m) && m.phase.Copy?
      modifies this`disk
      ensures Running(disk, truth, home)
      ensures o.Done? ==> root == Current(disk, home) && Holds(disk.fs, root, truth) && disk.pending == None
      ensures !health.Faulty? ==> disk == Discarded(old(disk), m) && o == if PointerIsThere(disk) then Done else Failed
    {
      hide Faithful, Holds, HoldsData, Geometry, Owned, Safe, Running, RemoveTree;
      root := home;
      Position(disk, m, truth, home);
      CleanedUp(disk, m, truth, home);
      o := Attempt();
      if !o.Done? { return; }
      disk := disk.(fs := RemoveTree(disk.fs, m.copyTarget));
      o := Attempt();
      if !o.Done? { return; }
      disk := disk.(pending := None);
      o, root := ValidatePointer(Current(disk, home));
      RunningIsComplete(disk, truth, home);
    }

    // ---- Moving

    /** PrepareRelocation: probe the target, make the staged directory, record the copy. */
    method PrepareRelocation(target: Path, name: string) returns (o: Outcome, m: Option<Marker>)
      requires Running(disk, truth, home)
      requires Cleaned(target) && Cleaned(Current(disk, home))
      requires target != [] && ClearOfLeftover(disk, target)
      modifies this`disk
      ensures Running(disk, truth, home) && Current(disk, home) == Current(old(disk), home)
      ensures o.Done? ==> m.Some? && disk.pending == m && m.value.phase.Copy?
      ensures o.Done? ==> m.value.from == Current(disk, home) && m.value.to == target
      ensures o.Done? ==> !OccupiedDirectory(disk.fs, m.value.copyTarget)
      ensures o.Done? ==> ValidateTarget(old(disk), home, target) == Usable
      ensures !health.Faulty? ==>
                if ValidateTarget(old(disk), home, target) == Usable && Mkdirs(old(disk), home, target, name)
                then o.Done? && disk == Prepared(old(disk), home, target, name) else o.Failed? && disk == old(disk)
    {
      hide Safe, Running, Faithful, Holds, ClearOfLeftover, Owned, ValidateTarget, Cleaned;
      m := None;
      UsableTarget(disk, home, target);
      o := Attempt();
      if !o.Done? { return; }
      if ValidateTarget(disk, home, target) != Usable { return Failed, None; }
      var created;
      ghost var fs := disk.fs;
      o, created := EnsureTargetWritable(target);
      if !o.Done? { return; }
      if !health.Faulty? { ProbeIsGone(fs, target); }
      if created {
        o := Attempt();
        if !o.Done? { return; }
        if OccupiedDirectory(disk.fs, target) { return Failed, None; }
        ScratchWrite(disk, target, [], Dir, truth, home);
        assert target + [] == target;
        disk := disk.(fs := disk.fs - {target});
      }
      o, m := RecordCopy(target, name, created);
    }

    /** The staged directory and the marker that names it. */
    method RecordCopy(target: Path, name: string, created: bool) returns (o: Outcome, m: Option<Marker>)
      requires Running(disk, truth, home)
      requires target != [] && Apart(target, Current(disk, home)) && !(target <= home) && ClearOfLeftover(disk, target)
      modifies this`disk
      ensures Running(disk, truth, home) && Current(disk, home) == Current(old(disk), home)
      ensures o.Done? ==> m.Some? && disk.pending == m && m.value.phase.Copy?
      ensures o.Done? ==> m.value.from == Current(disk, home) && m.value.to == target
      ensures o.Done? ==> !OccupiedDirectory(disk.fs, m.value.copyTarget)
      ensures !health.Faulty? ==>
                if Mkdirs(old(disk), home, target, name)
                then o.Done? && disk == CopyRecorded(old(disk), home, target, name, created) else o.Failed? && disk == old(disk)
    {
      hide Safe, Running, Faithful, Holds, ClearOfLeftover, Fresh, Owned;
      m := None;
      var staged := Beside(target, name);
      if staged == target || !Fresh(disk, home, staged) { return Failed, None; }
      StagedBeside(disk, home, target, name);
      o := Attempt();
      if !o.Done? { return; }
      FreshIsEmpty(disk, home, staged);
      ScratchWrite(disk, staged, [], Dir, truth, home);
      assert staged + [] == staged;
      disk := disk.(fs := disk.fs[staged := Dir]);
      var marker := Marker(Current(disk, home), target, staged, Copy, created, false, OWNER_PREFIX + name);
      o := Attempt();
      if !o.Done? {
        if o.Failed? {
          var removed := Attempt();
          if removed.Done? {
            LeftoverOutside(disk, staged);
            RemovedApart(disk, staged, truth, home);
            disk := disk.(fs := RemoveTree(disk.fs, staged));
          } else if removed.Crashed? {
            o := Crashed;
          }
        }
        return;
      }
      NewMarker(disk, marker, truth, home);
      disk := disk.(pending := Some(marker));
      m := Some(marker);
    }

    /** ensureTargetWritable: create the directory when missing and write a probe into it. */
    method EnsureTargetWritable(target: Path) returns (o: Outcome, created: bool)
      requires Running(disk, truth, home)
      requires Apart(target, Current(disk, home)) && ClearOfLeftover(disk, target)
      modifies this`disk
      ensures Running(disk, truth, home) && ClearOfLeftover(disk, target)
      ensures disk == old(disk).(fs := disk.fs)
      ensures forall q | !(target <= q) :: Get(disk.fs, q) == Get(old(disk).fs, q)
      ensures !health.Faulty? ==>
                && o.Done? && (created <==> target !in old(disk).fs)
                && disk.fs == (if created then old(disk).fs[target := Dir] else old(disk).fs) - {target + [PROBE]}
    {
      hide Safe, Running, Faithful, Holds, ClearOfLeftover, Owned;
      created := false;
      o := Attempt();
      if !o.Done? { return; }
      assert target + [] == target;
      if target !in disk.fs {
        o := Attempt();
        if !o.Done? { return; }
        ScratchWrite(disk, target, [], Dir, truth, home);
        disk := disk.(fs := disk.fs[target := Dir]);
        created := true;
      }
      var probe := target + [PROBE];
      o := Attempt();
      if !o.Done? {
        if o.Failed? && created {
          var removed := Attempt();
          if removed.Done? {
            LeftoverOutside(disk, target);
            RemovedApart(disk, target, truth, home);
            RemovedStaysClear(disk, target);
            disk := disk.(fs := RemoveTree(disk.fs, target));
          } else if removed.Crashed? {
            o := Crashed;
          }
        }
        return;
      }
      ScratchWrite(disk, target, [PROBE], File(""), truth, home);
      disk := disk.(fs := disk.fs[probe := File("")]);
      var swept := Attempt();
      if swept.Crashed? { o := Crashed; return; }
      if swept.Done? {
        ScratchWrite(disk, target, [PROBE], File(""), truth, home);
        disk := disk.(fs := disk.fs - {probe});
      }
    }

    /** Relocation.Run: copy, claim the copy, turn the marker to Finalize, relaunch. */
    method Run(m: Marker) returns (o: Outcome)
      requires Running(disk, truth, home) && disk.pending == Some(m) && m.phase.Copy?
      requires !OccupiedDirectory(disk.fs, m.copyTarget)
      modifies this`disk, this`truth
      ensures Running(disk, truth, home) && Current(disk, home) == m.from
      ensures o.Done? ==> disk.pending == Some(m.(phase := Finalize)) && m.copyTarget + [m.owner] in disk.fs
      ensures !health.Faulty? ==>
                if old(Claimable(CopyTree(disk.fs, m.from, m.copyTarget), m))
                then && o.Done? && disk == old(disk).(fs := disk.fs, pending := Some(m.(phase := Finalize)))
                     && OnlyDatabaseDiffers(Claimed(old(disk).fs, m), disk.fs, m.from)
                else && o.Failed? && disk == Abandoned(old(disk), m).(fs := disk.fs)
                     && OnlyDatabaseDiffers(RemoveTree(old(disk).fs, m.copyTarget), disk.fs, m.from)
    {
      hide Safe, Running, Faithful, Holds, StagedCopy, Owned, CopyTree, OnlyDatabaseDiffers, OccupiedDirectory;
      Settled(disk, m, truth, home);
      SafeFacts(disk, m, truth, home);
      o := Attempt();                                   // copy the data
      if !o.Done? {
        var junk: Tree := *;
        ScribbledApart(disk, m, junk, truth, home);
        disk := disk.(fs := Scribble(disk.fs, m.copyTarget, junk));
        if o.Failed? { o := CleanupFailedRelocation(m); }
        return;
      }
      CopyIsRunning(disk, m, truth, home);
      CopyIsBeside(disk.fs, m);
      ghost var copied := CopyTree(disk.fs, m.from, m.copyTarget);
      disk := disk.(fs := CopyTree(disk.fs, m.from, m.copyTarget));
      DatabaseActivity();                               // the application is still open
      ClaimStays(copied, disk.fs, m);
      DiffersBeside(copied, disk.fs, m.from, m.copyTarget);
      DiffersAfterWrite(copied, disk.fs, m.from, m.copyTarget + [m.owner], OwnerNote(m.copyTarget));
      ghost var ready := disk.fs;
      o := HandOver(m);
      if !health.Faulty? {
        if o.Done? { DiffersOn(Claimed(old(disk).fs, m), Noted(ready, m), disk.fs, m.from); }
      }
    }

    /** The rest of Run, once everything is copied: claim the copy, turn the marker, relaunch. */
    method HandOver(m: Marker) returns (o: Outcome)
      requires Running(disk, truth, home) && disk.pending == Some(m) && m.phase.Copy?
      requires StagedCopy(disk.fs, m, truth)
      modifies this`disk, this`truth
      ensures Running(disk, truth, home) && Current(disk, home) == m.from
      ensures o.Done? ==> disk.pending == Some(m.(phase := Finalize)) && m.copyTarget + [m.owner] in disk.fs
      ensures !health.Faulty? ==>
                if old(Claimable(disk.fs, m))
                then && o.Done? && disk == old(disk).(fs := disk.fs, pending := Some(m.(phase := Finalize)))
                     && OnlyDatabaseDiffers(Noted(old(disk).fs, m), disk.fs, m.from)
                else o.Failed? && disk == Abandoned(old(disk), m)
    {
      hide Safe, Running, Faithful, Holds, StagedCopy, Owned, OnlyDatabaseDiffers, OccupiedDirectory;
      Settled(disk, m, truth, home);
      SafeFacts(disk, m, truth, home);
      o := Attempt();                                   // cancelled, or the target cannot be listed
      if !o.Done? || OccupiedDirectory(disk.fs, m.to) || (m.to !in disk.fs && !m.targetCreated)
         || m.copyTarget + [m.owner] in disk.fs {
        if !o.Crashed? { o := CleanupFailedRelocation(m); }
        return;
      }
      o := Attempt();                                   // write the owner file
      if !o.Done? {
        if o.Failed? { o := CleanupFailedRelocation(m); }
        return;
      }
      OwnerNoted(disk, m, truth, home);
      disk := disk.(fs := disk.fs[m.copyTarget + [m.owner] := OwnerNote(m.copyTarget)]);
      ghost var note := disk.fs;
      DatabaseActivity();
      assert Current(disk, home) == m.from;
      ClaimStays(note, disk.fs, m);
      o := Attempt();                                   // record the finalize phase
      if !o.Done? {
        if o.Failed? { o := CleanupFailedRelocation(m); }
        return;
      }
      ReadyToFinalize(disk, m, truth, home);
      disk := disk.(pending := Some(m.(phase := Finalize)));
      ghost var before := disk.fs;
      DatabaseActivity();
      DiffersOn(note, before, disk.fs, m.from);
      o := Attempt();                                   // cancelled, or the relaunch does not start
      if o.Failed? { o := CleanupFailedRelocation(m.(phase := Finalize)); }
      if o.Done? {
        before := disk.fs;
        DatabaseActivity();                             // until the process is gone
        DiffersOn(note, before, disk.fs, m.from);
        ClaimStays(note, disk.fs, m);
      }
    }

    /** The open database changes, at any time until the process is gone: its files are
        written, and go away unless a leftover copy has one of that name. */
    method DatabaseActivity()
      requires Running(disk, truth, home)
      modifies this`disk, this`truth
      ensures Running(disk, truth, home) && disk == old(disk).(fs := disk.fs)
      ensures OnlyDatabaseDiffers(old(disk).fs, disk.fs, Current(disk, home))
      ensures disk.pending.Some? && StagedCopy(old(disk).fs, disk.pending.value, old(truth)) ==>
                StagedCopy(disk.fs, disk.pending.value, truth)
    {
      hide StagedCopy, Running;
      ghost var staged := disk.pending.Some? && StagedCopy(disk.fs, disk.pending.value, truth);
      var changes: seq<(string, Option<Node>)> := *;
      var root := Current(disk, home);
      for i := 0 to |changes|
        invariant Running(disk, truth, home) && disk == old(disk).(fs := disk.fs)
        invariant OnlyDatabaseDiffers(old(disk).fs, disk.fs, root)
        invariant staged ==> StagedCopy(disk.fs, disk.pending.value, truth)
      {
        var (name, change) := changes[i];
        if name in DATABASE_FILES && (change.Some? || forall r | r in Leftover(disk) :: r + [name] !in disk.fs) {
          DatabaseChanged(disk, name, change, truth, home);
          if staged {
            Settled(disk, disk.pending.value, truth, home);
            SafeFacts(disk, disk.pending.value, truth, home);
            DatabaseChangedBesideCopy(disk.fs, disk.pending.value, name, change, truth);
          }
          assert (root + [name])[|root|..] == [name];
          disk := disk.(fs := Put(disk.fs, root + [name], change));
          truth := Put(truth, [name], change);
        }
      }
    }

    /** cleanupFailedRelocation; always reports a failure, or a crash. */
    method CleanupFailedRelocation(m: Marker) returns (o: Outcome)
      requires Running(disk, truth, home) && disk.pending == Some(m)
      modifies this`disk
      ensures Running(disk, truth, home) && !o.Done? && disk.pointer == old(disk).pointer
      ensures !health.Faulty? ==> o.Failed? && disk == Abandoned(old(disk), m)
    {
      hide Faithful, Holds, Geometry, Owned, Safe, Running, RemoveTree;
      o := Failed;
      Settled(disk, m, truth, home);
      Position(disk, m, truth, home);
      CleanedUp(disk, m, truth, home);
      var cleaned := Attempt();
      if cleaned.Crashed? { return Crashed; }
      if cleaned.Done? {
        disk := disk.(fs := RemoveTree(disk.fs, m.copyTarget));
        var cleared := Attempt();
        if cleared.Crashed? { return Crashed; }
        if cleared.Done? { disk := disk.(pending := None); }
      }
      var noted := NoteError();
      if noted.Crashed? { o := Crashed; }
    }

    // ---- Cleaning up after a move

    /** FinalizePrevious: rewrite the stored paths, then remove the old root. rewrite is
        what rewriting makes of a database file. */
    method FinalizePrevious(rewrite: Option<Node> -> Node) returns (o: Outcome)
      modifies this`disk, this`truth
      ensures old(Removable(disk, truth, home)) ==>
                Running(disk, truth, home) && disk.pointer == old(disk).pointer && disk.pending == old(disk).pending
      ensures !health.Faulty? ==>
                && o.Done? && disk == Tidied(old(disk), rewrite, home)
                && truth == (if Rewrites(old(disk), home) then RewrittenTruth(old(truth), rewrite) else old(truth))
    {
      hide Safe, Running, Faithful, Holds, WithoutOldRoot;
      ghost var start := disk;
      ghost var fine := Removable(disk, truth, home);
      o := Attempt();
      if !o.Done? || disk.previous.None? { return; }
      var previous, current := disk.previous.value, Current(disk, home);
      if previous != current {
        o := Attempt();                                 // rewrite the stored paths
        if !o.Done? {
          if o.Failed? { var noted := NoteError(); if noted.Crashed? { o := Crashed; } }
          return;
        }
        if fine { PathsRewritten(disk, rewrite, truth, home); }
        disk := disk.(fs := Rewritten(disk.fs, current, rewrite));
        truth := RewrittenTruth(truth, rewrite);
        o := RemoveOldRoot(previous);
        if !o.Done? {
          if o.Failed? { var noted := NoteError(); if noted.Crashed? { o := Crashed; } }
          return;
        }
      }
      var cleared := Attempt();                         // both at best effort
      if cleared.Crashed? { return Crashed; }
      if cleared.Done? {
        if fine { PreviousDropped(disk, truth, home); }
        disk := disk.(previous := None);
      }
      cleared := Attempt();
      if cleared.Crashed? { return Crashed; }
      if cleared.Done? {
        if fine { ErrorDropped(disk, truth, home); }
        disk := disk.(error := false);
      }
    }

    /** removeOldRoot: the home is never removed, only what it holds of the old data. */
    method RemoveOldRoot(previous: Path) returns (o: Outcome)
      modifies this`disk
      ensures disk == old(disk).(fs := disk.fs)
      ensures old(RemovableRoot(disk, previous, truth, home)) ==>
                && Running(disk, truth, home)
                && forall rel :: At(disk.fs, Current(disk, home), rel) == At(old(disk).fs, Current(old(disk), home), rel)
      ensures !health.Faulty? ==> o.Done? && disk.fs == WithoutOldRoot(old(disk).fs, previous, home)
    {
      hide Safe, Running, Faithful, Holds, Leftover, Owned, RemoveTree, At;
      ghost var fine := RemovableRoot(disk, previous, truth, home);
      if previous != home {
        o := Attempt();
        if !o.Done? { return; }
        if fine {
          RemovedApart(disk, previous, truth, home);
          RemovalInvisible(disk.fs, previous, Current(disk, home));
        }
        disk := disk.(fs := RemoveTree(disk.fs, previous));
        return;
      }
      var names := HOME_DATA + DATABASE_FILES;
      o := Done;
      var i := 0;
      assert names[..0] == [];
      while i < |names|
        invariant 0 <= i <= |names|
        invariant disk == old(disk).(fs := disk.fs)
        invariant !health.Faulty? ==> disk.fs == WithoutNames(old(disk).fs, home, names[..i])
        invariant fine ==> RemovableRoot(disk, home, truth, home)
        invariant fine ==> forall rel :: At(disk.fs, Current(disk, home), rel) == At(old(disk).fs, Current(disk, home), rel)
      {
        o := Attempt();
        if !o.Done? { return; }
        var p := home + [names[i]];
        if fine {
          InsideHome(disk, p, home, truth);
          RemovedApart(disk, p, truth, home);
          RemovalInvisible(disk.fs, p, Current(disk, home));
          LeftoverShrinks(disk, p, home, truth);
        }
        assert names[..i + 1][..i] == names[..i];
        disk := disk.(fs := RemoveTree(disk.fs, p));
        i := i + 1;
      }
      assert names[..i] == names;
      o := Done;
    }

    /** The application stores new content; guarded by the absence of a finalize marker. */
    method Store(content: Tree)
      requires Running(disk, truth, home)
      requires disk.pending.Some? ==> !disk.pending.value.phase.Finalize?
      modifies this`disk, this`truth
      ensures Running(disk, truth, home) && truth == content && disk == old(disk).(fs := disk.fs)
    {
      Overwritten(disk, content, truth, home);
      disk := disk.(fs := Overwrite(disk.fs, Current(disk, home), content));
      truth := content;
    }

    method NoteError() returns (o: Outcome)
      modifies this`disk
      ensures disk == old(disk).(error := disk.error)
      ensures !health.Faulty? ==> o.Done? && disk.error
      ensures Safe(old(disk), truth, home) ==> Safe(disk, truth, home)
      ensures Running(old(disk), truth, home) ==> Running(disk, truth, home)
    {
      o := Attempt();
      if o.Done? { disk := disk.(error := true); }
    }

    /** validatePointerTarget: a relocated root has to exist. */
    method ValidatePointer(current: Path) returns (o: Outcome, root: Path)
      requires current == Current(disk, home)
      ensures o.Done? ==> root == current && (disk.pointer.Some? ==> root in disk.fs)
      ensures !health.Faulty? ==> o == if PointerIsThere(disk) then Done else Failed
    {
      root := current;
      o := Attempt();
      if !o.Done? { return; }
      if disk.pointer.Some? && disk.pointer.value !in disk.fs { o := Failed; }
    }
  }

  lemma ClaimStays(fs: Tree, fs': Tree, m: Marker)
    requires OnlyDatabaseDiffers(fs, fs', m.from) && Apart(m.from, m.to) && Apart(m.from, m.copyTarget)
    ensures Get(fs', m.copyTarget + [m.owner]) == Get(fs, m.copyTarget + [m.owner])
    ensures OccupiedDirectory(fs', m.to) <==> OccupiedDirectory(fs, m.to)
    ensures m.to in fs' <==> m.to in fs
  {
    NotUnderAnotherRoot(fs, fs', m.from, m.copyTarget);
    NotUnderAnotherRoot(fs, fs', m.from, m.to);
    DiffersBothWays(fs, fs', m.from);
    NotUnderAnotherRoot(fs', fs, m.from, m.to);
    assert m.to + [] == m.to;
    assert At(fs', m.to, []) == At(fs, m.to, []);
    assert At(fs', m.copyTarget, [m.owner]) == At(fs, m.copyTarget, [m.owner]);
  }

  /** Probing an empty or missing directory and taking back what was made leaves nothing. */
  lemma ProbeIsGone(fs: Tree, target: Path)
    requires !OccupiedDirectory(fs, target)
    ensures fs - {target + [PROBE]} == fs
    ensures target !in fs ==>
              var made := fs[target := Dir] - {target + [PROBE]};
              made - {target} == fs && !OccupiedDirectory(made, target)
  {
    assert target < target + [PROBE];
    assert target + [PROBE] !in fs;
  }

  lemma DiffersOn(a: Tree, b: Tree, c: Tree, root: Path)
    requires OnlyDatabaseDiffers(a, b, root) && OnlyDatabaseDiffers(b, c, root)
    ensures OnlyDatabaseDiffers(a, c, root)
  {}

  lemma DiffersAfterWrite(a: Tree, b: Tree, root: Path, p: Path, content: Node)
    requires OnlyDatabaseDiffers(a, b, root)
    ensures OnlyDatabaseDiffers(a[p := content], b[p := content], root)
  {
    hide IsDatabaseOf;
    forall q: Path | !IsDatabaseOf(root, q)
      ensures Get(b[p := content], q) == Get(a[p := content], q)
    {
      assert Get(b, q) == Get(a, q);
    }
  }

  lemma DiffersBeside(a: Tree, b: Tree, root: Path, p: Path)
    requires OnlyDatabaseDiffers(a, b, root)
    ensures OnlyDatabaseDiffers(RemoveTree(a, p), RemoveTree(b, p), root)
  {
    hide IsDatabaseOf;
    forall q: Path | !IsDatabaseOf(root, q)
      ensures Get(RemoveTree(b, p), q) == Get(RemoveTree(a, p), q)
    {
      assert Get(b, q) == Get(a, q);
    }
  }

  lemma DiffersBothWays(a: Tree, b: Tree, root: Path)
    requires OnlyDatabaseDiffers(a, b, root)
    ensures OnlyDatabaseDiffers(b, a, root)
  {
    hide IsDatabaseOf;
    forall q: Path | !IsDatabaseOf(root, q)
      ensures Get(a, q) == Get(b, q)
    {
      assert Get(b, q) == Get(a, q);
    }
  }

  /** The copy is made beside everything else. */
  lemma CopyIsBeside(fs: Tree, m: Marker)
    requires Apart(m.to, m.copyTarget)
    ensures var copied := CopyTree(fs, m.from, m.copyTarget);
            && RemoveTree(copied, m.copyTarget) == RemoveTree(fs, m.copyTarget)
            && (OccupiedDirectory(copied, m.to) <==> OccupiedDirectory(fs, m.to))
            && (m.to in copied <==> m.to in fs)
  {
    var copied := CopyTree(fs, m.from, m.copyTarget);
    forall q | !(m.copyTarget <= q)
      ensures Get(copied, q) == Get(fs, q)
    {
      CopyTreeGet(fs, m.from, m.copyTarget, q);
    }
    forall q: Path | m.to <= q
      ensures Get(copied, q) == Get(fs, q)
    {
      if m.copyTarget <= q { PrefixesOfOne(m.to, m.copyTarget, q); }
    }
    if OccupiedDirectory(copied, m.to) {
      var q :| q in copied && m.to < q;
      assert Get(copied, q) == Get(fs, q);
    }
    if OccupiedDirectory(fs, m.to) {
      var q :| q in fs && m.to < q;
      assert Get(copied, q) == Get(fs, q);
    }
    assert Get(copied, m.to) == Get(fs, m.to);
    MapsAgree(RemoveTree(copied, m.copyTarget), RemoveTree(fs, m.copyTarget));
  }

  lemma FreshIsEmpty(d: Disk, home: Path, p: Path)
    requires Fresh(d, home, p)
    ensures !OccupiedDirectory(d.fs[p := Dir], p) && !(p <= home) && p !in d.fs
  {}

  lemma LeftoverOutside(d: Disk, p: Path)
    requires ClearOfLeftover(d, p)
    ensures forall r | r in Leftover(d) :: !(r < p)
  {}

  lemma RemovedStaysClear(d: Disk, p: Path)
    requires ClearOfLeftover(d, p)
    ensures ClearOfLeftover(d.(fs := RemoveTree(d.fs, p)), p)
  {}

  lemma Settled(d: Disk, m: Marker, truth: Tree, home: Path)
    requires Running(d, truth, home) && d.pending == Some(m)
    ensures Safe(d, truth, home) && Current(d, home) == m.from
  {}

  lemma PathsRewritten(d: Disk, rewrite: Option<Node> -> Node, truth: Tree, home: Path)
    requires Removable(d, truth, home) && Rewrites(d, home)
    ensures var d' := d.(fs := Rewritten(d.fs, Current(d, home), rewrite));
            Removable(d', RewrittenTruth(truth, rewrite), home) && RemovableRoot(d', d.previous.value, RewrittenTruth(truth, rewrite), home)
  {
    var root := Current(d, home);
    RunningIsComplete(d, truth, home);
    assert At(d.fs, root, [DATABASE]) == Get(truth, [DATABASE]);
    DatabaseChanged(d, DATABASE, Some(rewrite(Get(truth, [DATABASE]))), truth, home);
    var d' := d.(fs := Rewritten(d.fs, root, rewrite));
    assert Leftover(d') == Leftover(d) by {
      WriteInLeftover(d, d'.fs[root + [DATABASE]], truth, home);
    }
  }

  lemma WriteInLeftover(d: Disk, content: Node, truth: Tree, home: Path)
    requires Running(d, truth, home)
    ensures Leftover(d.(fs := d.fs[Current(d, home) + [DATABASE] := content])) == Leftover(d)
  {
    if d.pending.Some? && d.pending.value.phase.Finalize? {
      var m := d.pending.value;
      ApartJoins(m.from, m.copyTarget, [DATABASE], []);
      ApartJoins(m.from, m.to, [DATABASE], [m.owner]);
      assert m.copyTarget + [] == m.copyTarget;
    }
  }

  lemma PreviousDropped(d: Disk, truth: Tree, home: Path)
    requires Running(d, truth, home)
    ensures Running(d.(previous := None), truth, home)
  {}

  lemma ErrorDropped(d: Disk, truth: Tree, home: Path)
    requires Running(d, truth, home)
    ensures Running(d.(error := false), truth, home)
  {}

  lemma RemovalInvisible(fs: Tree, p: Path, root: Path)
    requires Apart(p, root)
    ensures forall rel :: At(RemoveTree(fs, p), root, rel) == At(fs, root, rel)
  {
    forall rel: Path
      ensures At(RemoveTree(fs, p), root, rel) == At(fs, root, rel)
    {
      RemoveTreeAt(fs, p, root, rel);
    }
  }

  /** Nothing directly inside the home nests with a root that is apart from it. */
  lemma InsideHome(d: Disk, p: Path, home: Path, truth: Tree)
    requires Running(d, truth, home)
    requires Apart(home, Current(d, home)) && |p| == |home| + 1 && home < p
    ensures Apart(p, Current(d, home)) && forall r | r in Leftover(d) :: !(r < p)
  {
    PrefixesOfOne(home, Current(d, home), p);
    forall r | r in Leftover(d)
      ensures r < p ==> r <= home
    {
      PrefixesOfOne(r, home, p);
    }
  }

  lemma LeftoverShrinks(d: Disk, p: Path, home: Path, truth: Tree)
    requires Running(d, truth, home)
    requires forall r | r in Leftover(d) :: !(r < home)
    ensures forall r | r in Leftover(d.(fs := RemoveTree(d.fs, p))) :: !(r < home)
  {}

  lemma NoMove(d: Disk, truth: Tree, home: Path)
    requires Safe(d, truth, home) && d.pending.None?
    ensures Running(d, truth, home) && Holds(d.fs, Current(d, home), truth)
  {}

  lemma Position(d: Disk, m: Marker, truth: Tree, home: Path)
    requires Safe(d, truth, home) && d.pending == Some(m)
    ensures Current(d, home) == m.from || (m.phase.Finalize? && Current(d, home) == m.to)
    ensures m.phase.Finalize? && m.copyTarget in d.fs ==> Current(d, home) == m.from
    ensures m.from != m.to
    ensures Current(d, home) == m.from ==> Running(d, truth, home) && Running(d.(pending := None), truth, home)
  {}

  lemma MovedMarkerGone(before: Disk, after: Disk, m: Marker)
    requires after.(fs := after.fs - {m.to + [m.owner]}) == Finished(before, m)
    ensures after.pending == None && after.pointer == Some(m.to)
  {}

  lemma StillSafeAfterMove(start: Disk, moved: Disk, d: Disk, m: Marker, truth: Tree, home: Path)
    requires Safe(start, truth, home) && start.pending == Some(m) && m.phase.Finalize?
    requires Continues(start, moved, m, truth, home) && moved.pointer == start.pointer && moved.previous == start.previous
    requires Finishable(moved, m, home) && m.copyTarget !in moved.fs
    requires DatabaseCopied(moved.fs, m.from, m.to, Names(DATABASE_FILES))
    requires d.pending == moved.pending && (d.pending == Some(m) || d.pending == Some(m.(committed := true)))
    requires d.fs == moved.fs || d.fs == moved.fs - {m.to + [m.owner]}
    requires d.pointer == Some(m.to) && d.error == moved.error
    requires d.previous == Some(m.from) || d.previous == start.previous
    ensures Continues(start, d, m, truth, home) && Safe(d, truth, home)
  {
    AfterTheMove(moved, m, d, truth, home);
    SafeWhileFinishing(start, d, m, truth, home);
  }

  lemma NamesStayCopied(fs: Tree, m: Marker, root: Path, name: string, content: Node, names: set<string>)
    requires Apart(m.from, m.to) && Apart(m.from, m.copyTarget) && Apart(m.to, m.copyTarget)
    requires root == m.to || root == m.copyTarget
    requires name in DATABASE_FILES && OWNER_PREFIX <= m.owner
    requires DatabaseCopied(fs, m.from, root, names) && name !in names
    ensures DatabaseCopied(fs[root + [name] := content], m.from, root, names)
    ensures Some(content) == Get(fs, m.from + [name]) ==> DatabaseCopied(fs[root + [name] := content], m.from, root, names + {name})
  {
    var fs' := fs[root + [name] := content];
    WriteKeepsRoots(fs, m, root, name, content);
    forall n: string
      ensures Get(fs', m.from + [n]) == Get(fs, m.from + [n])
      ensures n != name ==> Get(fs', root + [n]) == Get(fs, root + [n])
    {
      assert At(fs', m.from, [n]) == At(fs, m.from, [n]);
      JoinInjective(root, [n], [name]);
    }
  }

  lemma RemovedTargetFacts(fs: Tree, m: Marker)
    requires Apart(m.from, m.to) && Apart(m.to, m.copyTarget)
    ensures var fs' := fs - {m.to};
            && (m.copyTarget in fs ==> m.copyTarget in fs')
            && (m.from in fs ==> m.from in fs')
            && (m.from + [DATABASE] in fs ==> m.from + [DATABASE] in fs')
            && (DatabaseCopied(fs, m.from, m.copyTarget, Names(DATABASE_FILES)) ==>
                  DatabaseCopied(fs', m.from, m.copyTarget, Names(DATABASE_FILES)))
  {
    assert m.to + [] == m.to && m.from + [] == m.from && m.copyTarget + [] == m.copyTarget;
    forall x: Path
      ensures m.from + x != m.to && m.copyTarget + x != m.to
    {
      ApartJoins(m.from, m.to, x, []);
      ApartJoins(m.copyTarget, m.to, x, []);
    }
  }

  /** Dropping the marker is safe once the new root is complete. */
  lemma ClearAfterMove(start: Disk, whole: Disk, d: Disk, m: Marker, truth: Tree, home: Path)
    requires Continues(start, whole, m, truth, home)
    requires Safe(whole, truth, home) && m.copyTarget !in whole.fs
    requires whole.pending == Some(m) || whole.pending == Some(m.(committed := true))
    requires m.phase.Finalize?
    requires whole.pointer == Some(m.to) && whole.previous == Some(m.from)
    requires DatabaseCopied(whole.fs, m.from, m.to, Names(DATABASE_FILES))
    requires d == whole || d == whole.(fs := whole.fs - {m.to + [m.owner]})
    ensures Safe(d.(pending := None), truth, home) && Holds(d.fs, m.to, truth)
    ensures d.(fs := d.fs - {m.to + [m.owner]}, pending := None) == Finished(start, m)
  {
    EverythingWritten(whole, m, home);
    FinishedHolds(whole, m, truth, home);
    assert whole.fs - {m.to + [m.owner]} - {m.to + [m.owner]} == whole.fs - {m.to + [m.owner]};
    forall rel | Tracked(rel)
      ensures At(d.fs, m.to, rel) == Get(truth, rel)
    {
      assert At(Finished(whole, m).fs, m.to, rel) == Get(truth, rel);
      JoinInjective(m.to, rel, [m.owner]);
    }
  }
}
