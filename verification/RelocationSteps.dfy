/** Each disk write of finishPending, on its own: a crash right after it leaves a
    disk from which finishing again ends where it would have ended before. */
module RelocationSteps {
  import opened Prelude
  import opened FileTree
  import opened Relocation

  /** Where the copy of the data is while a marker is being finished. */
  function Staged(d: Disk, m: Marker): Path {
    if m.copyTarget in d.fs then m.copyTarget else m.to
  }

  /** A disk on which finishing can succeed. */
  ghost predicate Finishable(d: Disk, m: Marker, home: Path) {
    && m.from in d.fs
    && m.from + [DATABASE] in d.fs
    && (m.copyTarget in d.fs ==>
          && !OccupiedDirectory(d.fs, m.to)
          && Get(d.fs, m.copyTarget + [m.owner]) == Some(OwnerNote(m.copyTarget)))
    && (m.copyTarget !in d.fs ==> Owned(d.fs, m) || Current(d, home) == m.to)
  }

  /** d' may follow d within one finishPending. */
  ghost predicate Continues(d: Disk, d': Disk, m: Marker, truth: Tree, home: Path) {
    && Finished(d', m) == Finished(d, m)
    && (Finishable(d, m, home) ==> Finishable(d', m, home))
    && (Faithful(d, m, truth, home) ==> Faithful(d', m, truth, home))
  }

  function Names(names: seq<string>): set<string> {
    set name | name in names
  }

  /** Every database file of the old root is at the new one. */
  ghost predicate DatabaseCopied(fs: Tree, from: Path, dst: Path, names: set<string>) {
    forall name | name in names && from + [name] in fs :: Get(fs, dst + [name]) == Get(fs, from + [name])
  }

  lemma DatabaseNamesAreNotOwners(name: string)
    requires name in DATABASE_FILES
    ensures !(OWNER_PREFIX <= name)
  {}

  lemma CopyingDone(fs: Tree, from: Path, dst: Path)
    requires Apart(from, dst)
    requires DatabaseCopied(fs, from, dst, Names(DATABASE_FILES))
    ensures CopyNames(fs, from, dst, DATABASE_FILES) == fs
  {
    forall q
      ensures Get(CopyNames(fs, from, dst, DATABASE_FILES), q) == Get(fs, q)
    {
      CopyNamesGet(fs, from, dst, DATABASE_FILES, q);
      if CopiedName(fs, from, dst, DATABASE_FILES, q) {
        assert q == dst + [q[|dst|]];
        assert q[|dst|..] == [q[|dst|]];
      }
    }
    MapsAgree(CopyNames(fs, from, dst, DATABASE_FILES), fs);
  }

  /** copyFile, torn or whole, of one database file into the staged copy. */
  lemma WriteDatabaseFile(d: Disk, m: Marker, name: string, content: Node, truth: Tree, home: Path)
    requires Geometry(m, home)
    requires name in DATABASE_FILES && m.from + [name] in d.fs
    requires m.copyTarget in d.fs || Finishable(d, m, home)
    ensures Continues(d, d.(fs := d.fs[Staged(d, m) + [name] := content]), m, truth, home)
  {
    var root := Staged(d, m);
    var fs' := d.fs[root + [name] := content];
    WriteKeepsRoots(d.fs, m, root, name, content);
    WriteKeepsFinished(d.fs, m, name, content, home);
    assert OccupiedDirectory(fs', m.to) && root == m.copyTarget ==> OccupiedDirectory(d.fs, m.to) by {
      if root == m.copyTarget && m.to < root + [name] { PrefixOfJoin(m.to, m.copyTarget, [name]); }
    }
    if Faithful(d, m, truth, home) {
      WriteKeepsFaithful(d, m, name, content, truth, home);
    }
  }

  /** What the write leaves alone: the other two roots and the owner note. */
  lemma WriteKeepsRoots(fs: Tree, m: Marker, root: Path, name: string, content: Node)
    requires Apart(m.from, m.to) && Apart(m.from, m.copyTarget) && Apart(m.to, m.copyTarget)
    requires root == m.to || root == m.copyTarget
    requires name in DATABASE_FILES && OWNER_PREFIX <= m.owner
    ensures var fs' := fs[root + [name] := content];
            && (forall x: Path :: At(fs', m.from, x) == At(fs, m.from, x))
            && (root == m.copyTarget ==> forall x: Path :: At(fs', m.to, x) == At(fs, m.to, x))
            && (root == m.to ==> forall x: Path :: At(fs', m.copyTarget, x) == At(fs, m.copyTarget, x))
            && (forall x: Path | x != [name] :: At(fs', root, x) == At(fs, root, x))
            && (m.from in fs' <==> m.from in fs) && (m.copyTarget in fs' <==> m.copyTarget in fs)
            && Get(fs', m.copyTarget + [m.owner]) == Get(fs, m.copyTarget + [m.owner])
            && Get(fs', m.to + [m.owner]) == Get(fs, m.to + [m.owner])
            && Get(fs', m.from + [DATABASE]) == Get(fs, m.from + [DATABASE])
  {
    var fs' := fs[root + [name] := content];
    forall x: Path, other: Path | Apart(root, other) || root == other
      ensures At(fs', other, x) == if root == other && x == [name] then Some(content) else At(fs, other, x)
    {
      WriteAt(fs, root, [name], content, other, x);
    }
    DatabaseNamesAreNotOwners(name);
    assert m.from + [] == m.from && m.copyTarget + [] == m.copyTarget;
    assert At(fs', m.from, []) == At(fs, m.from, []);
    assert At(fs', m.copyTarget, []) == At(fs, m.copyTarget, []);
    assert At(fs', m.copyTarget, [m.owner]) == At(fs, m.copyTarget, [m.owner]);
    assert At(fs', m.to, [m.owner]) == At(fs, m.to, [m.owner]);
    assert At(fs', m.from, [DATABASE]) == At(fs, m.from, [DATABASE]);
  }

  lemma WriteKeepsFinished(fs: Tree, m: Marker, name: string, content: Node, home: Path)
    requires Geometry(m, home)
    requires name in DATABASE_FILES && m.from + [name] in fs
    ensures var root := if m.copyTarget in fs then m.copyTarget else m.to;
            FinishedTree(fs[root + [name] := content], m) == FinishedTree(fs, m)
  {
    var root := if m.copyTarget in fs then m.copyTarget else m.to;
    var fs' := fs[root + [name] := content];
    WriteKeepsRoots(fs, m, root, name, content);
    forall q
      ensures Get(FinishedTree(fs', m), q) == Get(FinishedTree(fs, m), q)
    {
      FinishedTreeGet(fs, m, q, home);
      FinishedTreeGet(fs', m, q, home);
      if m.to <= q {
        var rel := q[|m.to|..];
        assert q == m.to + rel;
        assert At(fs', m.from, rel) == At(fs, m.from, rel);
        var p := m.copyTarget + rel;
        assert p[|m.copyTarget|..] == rel;
        if rel == [name] {
          assert p[|m.copyTarget|] == name && q[|m.to|] == name;
        } else {
          assert At(fs', root, rel) == At(fs, root, rel);
        }
        if |rel| == 1 {
          assert rel == [rel[0]];
        }
      } else if root + [name] == q {
        assert root <= q;
      }
    }
    MapsAgree(FinishedTree(fs', m), FinishedTree(fs, m));
  }

  lemma WriteKeepsFaithful(d: Disk, m: Marker, name: string, content: Node, truth: Tree, home: Path)
    requires Geometry(m, home) && Faithful(d, m, truth, home)
    requires name in DATABASE_FILES && m.from + [name] in d.fs
    ensures Faithful(d.(fs := d.fs[Staged(d, m) + [name] := content]), m, truth, home)
  {
    var root := Staged(d, m);
    var fs' := d.fs[root + [name] := content];
    WriteKeepsRoots(d.fs, m, root, name, content);
    forall other | other in DATABASE_FILES
      ensures At(fs', m.from, [other]) == At(d.fs, m.from, [other])
      ensures other != name ==> At(fs', root, [other]) == At(d.fs, root, [other])
    {}
    assert forall rel | Tracked(rel) :: At(d.fs, m.from, rel) == At(fs', m.from, rel);
    assert Holds(fs', m.from, truth);
    if m.copyTarget in d.fs || Owned(d.fs, m) || Current(d, home) == m.to {
      assert HoldsData(d.fs, root, truth);
      assert forall rel | Tracked(rel) && !IsDatabase(rel) :: At(d.fs, root, rel) == At(fs', root, rel);
      assert HoldsData(fs', root, truth);
      assert NoStaleDatabase(fs', root, m.from);
    }
  }

  /** os.Remove of the empty target directory, and putting it back when the rename failed. */
  lemma ReplaceTarget(d: Disk, m: Marker, present: bool, truth: Tree, home: Path)
    requires Geometry(m, home)
    requires m.copyTarget in d.fs && !OccupiedDirectory(d.fs, m.to)
    ensures Continues(d, d.(fs := if present then d.fs[m.to := Dir] else d.fs - {m.to}), m, truth, home)
  {
    var fs' := if present then d.fs[m.to := Dir] else d.fs - {m.to};
    assert m.to + [] == m.to && m.copyTarget + [] == m.copyTarget && m.from + [] == m.from;
    forall x: Path
      ensures At(fs', m.from, x) == At(d.fs, m.from, x)
      ensures At(fs', m.copyTarget, x) == At(d.fs, m.copyTarget, x)
    {
      WriteAt(d.fs, m.to, [], Dir, m.from, x);
      WriteAt(d.fs, m.to, [], Dir, m.copyTarget, x);
    }
    assert At(fs', m.from, []) == At(d.fs, m.from, []);
    assert At(fs', m.copyTarget, []) == At(d.fs, m.copyTarget, []);
    assert At(fs', m.from, [DATABASE]) == At(d.fs, m.from, [DATABASE]);
    assert At(fs', m.copyTarget, [m.owner]) == At(d.fs, m.copyTarget, [m.owner]);
    ReplaceTargetKeepsFinished(d.fs, m, fs', home);
    assert OccupiedDirectory(fs', m.to) ==> OccupiedDirectory(d.fs, m.to);
    assert |m.to + [m.owner]| != |m.to|;
    if Faithful(d, m, truth, home) {
      ReplaceTargetKeepsFaithful(d, m, fs', truth, home);
    }
  }

  lemma ReplaceTargetKeepsFaithful(d: Disk, m: Marker, fs': Tree, truth: Tree, home: Path)
    requires Faithful(d, m, truth, home) && m.copyTarget in d.fs && m.copyTarget in fs'
    requires Owned(fs', m) ==> Owned(d.fs, m)
    requires forall x: Path :: At(fs', m.from, x) == At(d.fs, m.from, x) && At(fs', m.copyTarget, x) == At(d.fs, m.copyTarget, x)
    ensures Faithful(d.(fs := fs'), m, truth, home)
  {
    assert forall rel | Tracked(rel) :: At(d.fs, m.from, rel) == At(fs', m.from, rel);
    assert forall rel | Tracked(rel) && !IsDatabase(rel) :: At(d.fs, m.copyTarget, rel) == At(fs', m.copyTarget, rel);
    forall name | name in DATABASE_FILES && m.copyTarget + [name] in fs'
      ensures m.from + [name] in fs'
    {
      assert At(fs', m.from, [name]) == At(d.fs, m.from, [name]);
      assert At(fs', m.copyTarget, [name]) == At(d.fs, m.copyTarget, [name]);
    }
    assert At(fs', m.copyTarget, [m.owner]) == At(d.fs, m.copyTarget, [m.owner]);
  }

  lemma ReplaceTargetKeepsFinished(fs: Tree, m: Marker, fs': Tree, home: Path)
    requires Geometry(m, home)
    requires m.copyTarget in fs && m.copyTarget in fs'
    requires forall q | q != m.to :: Get(fs', q) == Get(fs, q)
    ensures FinishedTree(fs', m) == FinishedTree(fs, m)
  {
    forall q
      ensures Get(FinishedTree(fs', m), q) == Get(FinishedTree(fs, m), q)
    {
      FinishedTreeGet(fs, m, q, home);
      FinishedTreeGet(fs', m, q, home);
      assert m.to + [] == m.to;
      if m.to <= q {
        var x := q[|m.to|..];
        ApartJoins(m.copyTarget, m.to, x, []);
        ApartJoins(m.from, m.to, x, []);
        if |x| == 1 {
          assert m.from + [x[0]] == m.from + x;
        }
      }
    }
    MapsAgree(FinishedTree(fs', m), FinishedTree(fs, m));
  }

  /** os.Rename of the staged copy, once its database is complete. */
  lemma MoveIntoPlace(d: Disk, m: Marker, truth: Tree, home: Path)
    requires Geometry(m, home)
    requires m.copyTarget in d.fs && Finishable(d, m, home)
    requires DatabaseCopied(d.fs, m.from, m.copyTarget, Names(DATABASE_FILES))
    ensures Continues(d, d.(fs := MoveTree(d.fs, m.copyTarget, m.to)), m, truth, home)
    ensures var fs' := MoveTree(d.fs, m.copyTarget, m.to);
            m.copyTarget !in fs' && DatabaseCopied(fs', m.from, m.to, Names(DATABASE_FILES))
  {
    hide Faithful, FinishedTree;
    var fs' := MoveTree(d.fs, m.copyTarget, m.to);
    var d' := d.(fs := fs');
    MoveAgrees(d.fs, m);
    MoveTreeGet(d.fs, m.copyTarget, m.to, m.copyTarget);
    assert m.from + [] == m.from;
    assert At(fs', m.from, []) == At(d.fs, m.from, []);
    assert At(fs', m.to, [m.owner]) == At(d.fs, m.copyTarget, [m.owner]);
    forall name | name in DATABASE_FILES
      ensures Get(fs', m.from + [name]) == Get(d.fs, m.from + [name])
      ensures Get(fs', m.to + [name]) == Get(d.fs, m.copyTarget + [name])
    {
      assert At(fs', m.from, [name]) == At(d.fs, m.from, [name]);
      assert At(fs', m.to, [name]) == At(d.fs, m.copyTarget, [name]);
    }
    MoveKeepsFinished(d.fs, m);
    if Faithful(d, m, truth, home) {
      MoveKeepsFaithful(d, m, truth, home);
    }
  }

  lemma MoveAgrees(fs: Tree, m: Marker)
    requires Apart(m.from, m.to) && Apart(m.from, m.copyTarget) && Apart(m.to, m.copyTarget)
    ensures forall rel: Path :: At(MoveTree(fs, m.copyTarget, m.to), m.from, rel) == At(fs, m.from, rel)
    ensures forall rel: Path :: At(MoveTree(fs, m.copyTarget, m.to), m.to, rel) == At(fs, m.copyTarget, rel)
  {
    forall rel: Path
      ensures At(MoveTree(fs, m.copyTarget, m.to), m.from, rel) == At(fs, m.from, rel)
      ensures At(MoveTree(fs, m.copyTarget, m.to), m.to, rel) == At(fs, m.copyTarget, rel)
    {
      MoveTreeAt(fs, m.copyTarget, m.to, m.from, rel);
      MoveTreeAt(fs, m.copyTarget, m.to, m.to, rel);
    }
  }

  lemma MoveKeepsFinished(fs: Tree, m: Marker)
    requires Apart(m.from, m.to) && Apart(m.from, m.copyTarget) && Apart(m.to, m.copyTarget)
    requires m.copyTarget in fs && DatabaseCopied(fs, m.from, m.copyTarget, Names(DATABASE_FILES))
    ensures FinishedTree(MoveTree(fs, m.copyTarget, m.to), m) == FinishedTree(fs, m)
    ensures DatabaseCopied(MoveTree(fs, m.copyTarget, m.to), m.from, m.to, Names(DATABASE_FILES))
  {
    var fs' := MoveTree(fs, m.copyTarget, m.to);
    MoveAgrees(fs, m);
    MoveTreeGet(fs, m.copyTarget, m.to, m.copyTarget);
    forall name | name in DATABASE_FILES
      ensures Get(fs', m.from + [name]) == Get(fs, m.from + [name])
      ensures Get(fs', m.to + [name]) == Get(fs, m.copyTarget + [name])
    {
      assert At(fs', m.from, [name]) == At(fs, m.from, [name]);
      assert At(fs', m.to, [name]) == At(fs, m.copyTarget, [name]);
    }
    CopyingDone(fs, m.from, m.copyTarget);
    CopyingDone(fs', m.from, m.to);
  }

  lemma MoveKeepsFaithful(d: Disk, m: Marker, truth: Tree, home: Path)
    requires Apart(m.from, m.to) && Apart(m.from, m.copyTarget) && Apart(m.to, m.copyTarget)
    requires m.copyTarget in d.fs && Faithful(d, m, truth, home)
    ensures Faithful(d.(fs := MoveTree(d.fs, m.copyTarget, m.to)), m, truth, home)
  {
    var fs' := MoveTree(d.fs, m.copyTarget, m.to);
    MoveAgrees(d.fs, m);
    MoveTreeGet(d.fs, m.copyTarget, m.to, m.copyTarget);
    assert forall rel | Tracked(rel) :: At(d.fs, m.from, rel) == At(fs', m.from, rel);
    assert forall rel | Tracked(rel) && !IsDatabase(rel) :: At(d.fs, m.copyTarget, rel) == At(fs', m.to, rel);
    forall name | name in DATABASE_FILES && m.to + [name] in fs'
      ensures m.from + [name] in fs'
    {
      assert At(fs', m.from, [name]) == At(d.fs, m.from, [name]);
      assert At(fs', m.to, [name]) == At(d.fs, m.copyTarget, [name]);
    }
  }

  /** The two marker writes and the removal of the owner file, after the move. */
  lemma AfterTheMove(d: Disk, m: Marker, d': Disk, truth: Tree, home: Path)
    requires Geometry(m, home) && Finishable(d, m, home)
    requires m.copyTarget !in d.fs
    requires d'.fs == d.fs || (d'.fs == d.fs - {m.to + [m.owner]} && Current(d', home) == m.to)
    requires d'.pointer == d.pointer || d'.pointer == Some(m.to)
    requires d'.error == d.error
    ensures Continues(d, d', m, truth, home)
  {
    if d'.fs != d.fs {
      forall x: Path
        ensures m.from + x != m.to + [m.owner] && m.copyTarget + x != m.to + [m.owner]
        ensures m.to + x == m.to + [m.owner] <==> x == [m.owner]
      {
        ApartJoins(m.from, m.to, x, [m.owner]);
        ApartJoins(m.copyTarget, m.to, x, [m.owner]);
        JoinInjective(m.to, x, [m.owner]);
      }
      assert m.from + [] == m.from && m.copyTarget + [] == m.copyTarget;
      forall q
        ensures Get(FinishedTree(d'.fs, m), q) == Get(FinishedTree(d.fs, m), q)
      {
        FinishedTreeGet(d.fs, m, q, home);
        FinishedTreeGet(d'.fs, m, q, home);
      }
      MapsAgree(FinishedTree(d'.fs, m), FinishedTree(d.fs, m));
      if Faithful(d, m, truth, home) {
        forall rel | Tracked(rel)
          ensures At(d'.fs, m.from, rel) == At(d.fs, m.from, rel)
          ensures At(d'.fs, m.to, rel) == At(d.fs, m.to, rel)
        {}
        assert NoStaleDatabase(d'.fs, m.to, m.from);
      }
    }
  }

  lemma EverythingWritten(d: Disk, m: Marker, home: Path)
    requires Geometry(m, home) && m.copyTarget !in d.fs
    requires DatabaseCopied(d.fs, m.from, m.to, Names(DATABASE_FILES))
    requires d.pointer == Some(m.to) && d.previous == Some(m.from)
    ensures Finished(d, m) == d.(fs := d.fs - {m.to + [m.owner]}, pending := None)
  {
    CopyingDone(d.fs, m.from, m.to);
  }
}
