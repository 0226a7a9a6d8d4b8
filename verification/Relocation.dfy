/** The disk of the data-root mover: what it holds, what finishing a move makes
    of it, and which states may be left behind by a crash. */
module Relocation {
  import opened Prelude
  import opened FileTree

  datatype Phase = Copy | Finalize | Unknown

  datatype Marker = Marker(from: Path, to: Path, copyTarget: Path, phase: Phase,
                           targetCreated: bool, committed: bool, owner: string)

  /** The files of the machine and the four marker files of the launcher home. */
  datatype Disk = Disk(fs: Tree, pointer: Option<Path>, pending: Option<Marker>, previous: Option<Path>, error: bool)

  const DATABASE := "waxlight.db"
  const DATABASE_FILES := [DATABASE, "waxlight.db-wal", "waxlight.db-shm"]
  const MARKER_FILES := {"data-root", "data-root-pending", "data-root-previous", "data-root-error"}
  const OWNER_PREFIX := ".waxlight-relocation-copy-"
  const HOME_DATA := ["versions", "instances", "downloads", "cache", "security", "updates", "logs", "backups"]

  function Current(d: Disk, home: Path): Path {
    match d.pointer
    case Some(p) => p
    case None => home
  }

  // ---- What a root holds

  predicate IsDatabase(rel: Path) {
    |rel| == 1 && rel[0] in DATABASE_FILES
  }

  /** Names the copy of a root never carries over. */
  predicate Reserved(rel: Path) {
    |rel| == 1 && (rel[0] in MARKER_FILES || rel[0] in DATABASE_FILES)
  }

  /** User data: everything except the launcher's own bookkeeping files at the top of a root. */
  predicate Tracked(rel: Path) {
    rel != [] && (|rel| == 1 ==> rel[0] !in MARKER_FILES && !(OWNER_PREFIX <= rel[0]))
  }

  ghost predicate Holds(fs: Tree, root: Path, truth: Tree) {
    forall rel | Tracked(rel) :: At(fs, root, rel) == Get(truth, rel)
  }

  /** Holds, leaving the database files out. */
  ghost predicate HoldsData(fs: Tree, root: Path, truth: Tree) {
    forall rel | Tracked(rel) && !IsDatabase(rel) :: At(fs, root, rel) == Get(truth, rel)
  }

  /** No database file at root that the previous root no longer has. */
  ghost predicate NoStaleDatabase(fs: Tree, root: Path, from: Path) {
    forall name | name in DATABASE_FILES :: root + [name] in fs ==> from + [name] in fs
  }

  predicate Owned(fs: Tree, m: Marker) {
    m.owner != "" && Get(fs, m.to + [m.owner]) == Some(OwnerNote(m.copyTarget))
  }

  // ---- Copies

  function CopyName(fs: Tree, from: Path, dst: Path, name: string): Tree {
    if from + [name] in fs then fs[dst + [name] := fs[from + [name]]] else fs
  }

  function CopyNames(fs: Tree, from: Path, dst: Path, names: seq<string>): Tree
    decreases names
  {
    if names == [] then fs else CopyNames(CopyName(fs, from, dst, names[0]), from, dst, names[1..])
  }

  predicate CopiedName(fs: Tree, from: Path, dst: Path, names: seq<string>, q: Path) {
    dst <= q && |q| == |dst| + 1 && q[|dst|] in names && from + [q[|dst|]] in fs
  }

  lemma {:induction false} CopyNamesGet(fs: Tree, from: Path, dst: Path, names: seq<string>, q: Path)
    requires Apart(from, dst)
    ensures Get(CopyNames(fs, from, dst, names), q) ==
            if CopiedName(fs, from, dst, names, q) then Get(fs, from + q[|dst|..]) else Get(fs, q)
    decreases names
  {
    if names != [] {
      var next := CopyName(fs, from, dst, names[0]);
      CopyNamesGet(next, from, dst, names[1..], q);
      forall n: string
        ensures Get(next, from + [n]) == Get(fs, from + [n])
      {
        ApartJoins(from, dst, [n], [names[0]]);
      }
      if dst <= q && |q| == |dst| + 1 {
        assert q == dst + [q[|dst|]];
        assert q[|dst|..] == [q[|dst|]];
        assert Get(next, from + [q[|dst|]]) == Get(fs, from + [q[|dst|]]);
      }
    }
  }

  /** CopyDataContext: every file of src except the reserved ones at its top. */
  function CopyTree(fs: Tree, src: Path, dst: Path): Tree {
    var copied := set p | p in fs && src <= p :: dst + p[|src|..];
    map q | q in fs.Keys + copied && (q in fs || CopiedData(fs, src, dst, q))
      :: if CopiedData(fs, src, dst, q) then fs[src + q[|dst|..]] else fs[q]
  }

  predicate CopiedData(fs: Tree, src: Path, dst: Path, q: Path) {
    dst <= q && src + q[|dst|..] in fs && !Reserved(q[|dst|..])
  }

  lemma CopyTreeGet(fs: Tree, src: Path, dst: Path, q: Path)
    ensures Get(CopyTree(fs, src, dst), q) ==
            if CopiedData(fs, src, dst, q) then Get(fs, src + q[|dst|..]) else Get(fs, q)
  {
    if CopiedData(fs, src, dst, q) {
      var p := src + q[|dst|..];
      assert p[|src|..] == q[|dst|..];
      assert q == dst + p[|src|..];
      assert q in set p | p in fs && src <= p :: dst + p[|src|..];
    }
  }

  // ---- Finishing a move

  /** The outcome of an uninterrupted, fault-free finishPending. */
  function Finished(d: Disk, m: Marker): Disk {
    Disk(FinishedTree(d.fs, m), Some(m.to), None, Some(m.from), d.error)
  }

  function FinishedTree(fs: Tree, m: Marker): Tree {
    MovedTree(fs, m) - {m.to + [m.owner]}
  }

  function MovedTree(fs: Tree, m: Marker): Tree {
    if m.copyTarget in fs
    then MoveTree(CopyNames(fs, m.from, m.copyTarget, DATABASE_FILES), m.copyTarget, m.to)
    else CopyNames(fs, m.from, m.to, DATABASE_FILES)
  }

  /** The roots of a move never nest, and neither new root holds the launcher home. */
  ghost predicate Geometry(m: Marker, home: Path) {
    && Apart(m.from, m.to) && Apart(m.from, m.copyTarget) && Apart(m.to, m.copyTarget)
    && !(m.to <= home) && !(m.copyTarget <= home)
    && OWNER_PREFIX <= m.owner
  }

  /** Where a Finalize marker may find the disk: the old root complete, and the copy
      complete up to its database wherever it is now. */
  ghost predicate Faithful(d: Disk, m: Marker, truth: Tree, home: Path) {
    && Holds(d.fs, m.from, truth)
    && (Current(d, home) == m.from || Current(d, home) == m.to)
    && (m.copyTarget in d.fs ==>
          && Current(d, home) == m.from
          && HoldsData(d.fs, m.copyTarget, truth)
          && NoStaleDatabase(d.fs, m.copyTarget, m.from)
          && Get(d.fs, m.copyTarget + [m.owner]) == Some(OwnerNote(m.copyTarget))
          && !Owned(d.fs, m))
    && (m.copyTarget !in d.fs && (Owned(d.fs, m) || Current(d, home) == m.to) ==>
          && HoldsData(d.fs, m.to, truth)
          && NoStaleDatabase(d.fs, m.to, m.from))
  }

  /** A previous root is removable: clear of the current one and not above the home. */
  predicate PreviousClear(d: Disk, home: Path) {
    d.previous.Some? && d.previous.value != Current(d, home) ==>
      Apart(d.previous.value, Current(d, home)) && (d.previous.value == home || !(d.previous.value <= home))
  }

  /** The same while a move is pending, seen from the old root. */
  ghost predicate PreviousAside(d: Disk, m: Marker, home: Path) {
    d.previous.Some? && d.previous.value != m.from ==>
      Apart(d.previous.value, m.from) && (d.previous.value == home || !(d.previous.value <= home))
  }

  /** What holds of the disk at every instant, hence also after a crash. */
  ghost predicate Safe(d: Disk, truth: Tree, home: Path) {
    && (Current(d, home) == home || !(Current(d, home) <= home))
    && match d.pending
       case None => Holds(d.fs, Current(d, home), truth) && PreviousClear(d, home)
       case Some(m) =>
         && Geometry(m, home)
         && (m.from == home || !(m.from <= home))
         && PreviousAside(d, m, home)
         && (m.phase.Finalize? || (Current(d, home) == m.from && Holds(d.fs, m.from, truth)))
         && (m.phase.Finalize? ==> Faithful(d, m, truth, home))
  }

  /** A complete copy of the data and the database exists. */
  ghost predicate CompleteCopyExists(d: Disk, truth: Tree, home: Path) {
    || Holds(d.fs, Current(d, home), truth)
    || (d.pending.Some? && Holds(d.fs, d.pending.value.from, truth))
  }

  lemma SafeKeepsACompleteCopy(d: Disk, truth: Tree, home: Path)
    requires Safe(d, truth, home)
    ensures CompleteCopyExists(d, truth, home)
  {}

  /** Finishing does not mind whether a marker was already committed. */
  lemma FinishedIgnoresCommitted(d: Disk, m: Marker, b: bool)
    ensures Finished(d, m.(committed := b)) == Finished(d, m)
  {}

  lemma FinishedTreeGet(fs: Tree, m: Marker, q: Path, home: Path)
    requires Geometry(m, home)
    ensures Get(FinishedTree(fs, m), q) ==
            if q == m.to + [m.owner] then None
            else if m.copyTarget in fs then
              if m.to <= q then
                var p := m.copyTarget + q[|m.to|..];
                if CopiedName(fs, m.from, m.copyTarget, DATABASE_FILES, p) then Get(fs, m.from + q[|m.to|..]) else Get(fs, p)
              else if m.copyTarget <= q then None
              else Get(fs, q)
            else if CopiedName(fs, m.from, m.to, DATABASE_FILES, q) then Get(fs, m.from + q[|m.to|..])
            else Get(fs, q)
  {
    if m.copyTarget in fs {
      var copied := CopyNames(fs, m.from, m.copyTarget, DATABASE_FILES);
      MoveTreeGet(copied, m.copyTarget, m.to, q);
      if m.to <= q {
        var p := m.copyTarget + q[|m.to|..];
        CopyNamesGet(fs, m.from, m.copyTarget, DATABASE_FILES, p);
        assert p[|m.copyTarget|..] == q[|m.to|..];
      } else {
        CopyNamesGet(fs, m.from, m.copyTarget, DATABASE_FILES, q);
      }
    } else {
      CopyNamesGet(fs, m.from, m.to, DATABASE_FILES, q);
    }
  }

  /** A finished move leaves the new root holding the truth. */
  lemma FinishedHolds(d: Disk, m: Marker, truth: Tree, home: Path)
    requires Geometry(m, home) && Faithful(d, m, truth, home)
    requires m.copyTarget in d.fs || Owned(d.fs, m) || Current(d, home) == m.to
    ensures Holds(Finished(d, m).fs, m.to, truth)
    ensures Holds(Finished(d, m).fs, m.from, truth)
  {
    var root := if m.copyTarget in d.fs then m.copyTarget else m.to;
    forall rel | Tracked(rel)
      ensures At(Finished(d, m).fs, m.to, rel) == Get(truth, rel)
      ensures At(Finished(d, m).fs, m.from, rel) == Get(truth, rel)
    {
      var q := m.to + rel;
      assert q[|m.to|..] == rel;
      FinishedTreeGet(d.fs, m, q, home);
      assert (m.to + [m.owner])[|m.to|..] == [m.owner];
      assert At(d.fs, m.from, rel) == Get(truth, rel);
      if IsDatabase(rel) {
        var name := rel[0];
        assert rel == [name];
        assert root + [name] == root + rel;
      } else {
        assert At(d.fs, root, rel) == Get(truth, rel);
        assert root + rel == root + q[|m.to|..];
      }
      var p := m.from + rel;
      FinishedTreeGet(d.fs, m, p, home);
      if m.to <= p { PrefixOfJoin(m.to, m.from, rel); }
      if m.copyTarget <= p { PrefixOfJoin(m.copyTarget, m.from, rel); }
    }
  }
}
