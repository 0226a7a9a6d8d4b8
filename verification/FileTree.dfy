/** A file system as a finite map from absolute paths to nodes, with the few
    calls the data-root mover makes on it. */
module FileTree {
  import opened Prelude

  /** The components of an absolute, cleaned path. */
  type Path = seq<string>

  /** OwnerNote is the content of the file that claims a moved directory for one staged copy. */
  datatype Node = Dir | File(data: string) | OwnerNote(claim: Path)

  type Tree = map<Path, Node>

  // ---- Nesting of paths

  /** filepath.Rel on two cleaned absolute paths, as components; "." is the empty sequence. */
  function Rel(base: Path, child: Path): Path {
    if base == [] then child
    else if child != [] && base[0] == child[0] then Rel(base[1..], child[1..])
    else seq(|base|, _ => "..") + child
  }

  predicate IsSubpath(child: Path, base: Path) {
    var rel := Rel(base, child);
    rel == [] || rel[0] != ".."
  }

  predicate Cleaned(p: Path) {
    forall i :: 0 <= i < |p| ==> p[i] != ".."
  }

  predicate Apart(a: Path, b: Path) {
    !(a <= b) && !(b <= a)
  }

  lemma {:induction false} SubpathIsPrefix(child: Path, base: Path)
    requires Cleaned(child)
    ensures IsSubpath(child, base) <==> base <= child
  {
    if base != [] && child != [] && base[0] == child[0] {
      SubpathIsPrefix(child[1..], base[1..]);
      assert base == [base[0]] + base[1..] && child == [child[0]] + child[1..];
    }
  }

  lemma PrefixOfJoin(p: Path, root: Path, rel: Path)
    requires p <= root + rel
    ensures p <= root || root <= p
  {
    if |p| <= |root| {
      assert p == (root + rel)[..|p|] == root[..|p|];
    } else {
      assert root == (root + rel)[..|root|] == p[..|root|];
    }
  }

  lemma PrefixesOfOne(a: Path, b: Path, p: Path)
    ensures a <= p && b <= p ==> a <= b || b <= a
  {
    if a <= p && b <= p {
      assert p == b + p[|b|..];
      PrefixOfJoin(a, b, p[|b|..]);
    }
  }

  lemma ApartJoins(a: Path, b: Path, x: Path, y: Path)
    requires Apart(a, b)
    ensures a + x != b + y
  {
    if a + x == b + y {
      PrefixOfJoin(a, b, y);
    }
  }

  lemma JoinInjective(root: Path, x: Path, y: Path)
    ensures root + x == root + y <==> x == y
  {
    assert (root + x)[|root|..] == x && (root + y)[|root|..] == y;
  }

  // ---- Calls

  /** os.RemoveAll */
  function RemoveTree(fs: Tree, p: Path): Tree {
    map q | q in fs && !(p <= q) :: fs[q]
  }

  /** os.Rename of a directory: everything under a, and only that, is then under b. */
  function MoveTree(fs: Tree, a: Path, b: Path): Tree {
    var moved := set p | p in fs && a <= p :: b + p[|a|..];
    map q | q in fs.Keys + moved && (if b <= q then a + q[|b|..] in fs else q in fs && !(a <= q))
      :: if b <= q then fs[a + q[|b|..]] else fs[q]
  }

  /** The node a root has at a relative path. */
  function At(fs: Tree, root: Path, rel: Path): Option<Node> {
    Get(fs, root + rel)
  }

  predicate OccupiedDirectory(fs: Tree, p: Path) {
    exists q :: q in fs && p < q
  }

  lemma RemoveTreeAt(fs: Tree, p: Path, root: Path, rel: Path)
    requires Apart(p, root)
    ensures At(RemoveTree(fs, p), root, rel) == At(fs, root, rel)
  {
    if p <= root + rel { PrefixOfJoin(p, root, rel); }
  }

  /** A write under one root is invisible under another. */
  lemma WriteAt(fs: Tree, root: Path, x: Path, content: Node, other: Path, rel: Path)
    requires Apart(root, other) || root == other
    ensures At(fs[root + x := content], other, rel) ==
            if root == other && rel == x then Some(content) else At(fs, other, rel)
    ensures At(fs - {root + x}, other, rel) == if root == other && rel == x then None else At(fs, other, rel)
  {
    if root == other {
      JoinInjective(root, x, rel);
    } else {
      ApartJoins(root, other, x, rel);
    }
  }

  lemma MoveTreeGet(fs: Tree, a: Path, b: Path, q: Path)
    ensures Get(MoveTree(fs, a, b), q) ==
            if b <= q then Get(fs, a + q[|b|..]) else if a <= q then None else Get(fs, q)
  {
    if b <= q && a + q[|b|..] in fs {
      var p := a + q[|b|..];
      assert p[|a|..] == q[|b|..];
      assert q == b + p[|a|..];
      assert q in set p | p in fs && a <= p :: b + p[|a|..];
    }
  }

  lemma MoveTreeAt(fs: Tree, a: Path, b: Path, root: Path, rel: Path)
    requires root == b || (Apart(root, a) && Apart(root, b))
    ensures At(MoveTree(fs, a, b), root, rel) == if root == b then At(fs, a, rel) else At(fs, root, rel)
  {
    MoveTreeGet(fs, a, b, root + rel);
    if root == b {
      assert (root + rel)[|b|..] == rel;
    } else {
      if b <= root + rel { PrefixOfJoin(b, root, rel); }
      if a <= root + rel { PrefixOfJoin(a, root, rel); }
    }
  }
}
