/** The filesystem `java.io.File` operates on, as a value: a map from
    resolved path to node, where a directory lists its children in the order
    `listFiles()` returns them. This module fixes what a well-formed tree is
    and gives the single-node updates the JDK performs (`delete`, `mkdir`,
    `mkdirs`, `createNewFile`, opening a `FileOutputStream`), each proved to
    keep the tree well formed. */
module FileTree {
  import opened Common
  import opened Paths
  import opened Streams
  import opened Archive

  /** A regular file holds bytes; when it is a zip archive, `archive` is the
      list of entries `ZipFile` reads from it. */
  datatype Node = File(data: seq<Byte>, archive: Option<seq<Entry>>) | Dir(children: seq<Name>)

  type Tree = map<Path, Node>

  /** The file a finished `ZipOutputStream` leaves behind. */
  function ArchiveFile(es: seq<Entry>): Node {
    File(ArchiveBytes(es), Some(es))
  }

  /** A non-root node sits in a directory that lists it. */
  ghost predicate ParentListed(m: Tree, p: Path)
    requires p != []
  {
    Parent(p) in m && m[Parent(p)].Dir? && Last(p) in m[Parent(p)].children
  }

  /** A directory lists each child once, and every child it lists exists. */
  ghost predicate ChildrenPresent(m: Tree, p: Path)
    requires p in m && m[p].Dir?
  {
    NoDup(m[p].children) && forall c :: c in m[p].children ==> p + [c] in m
  }

  ghost predicate WellFormed(m: Tree) {
    && [] in m && m[[]].Dir?
    && (forall p {:trigger ParentListed(m, p)} :: p in m && p != [] ==> ParentListed(m, p))
    && (forall p {:trigger ChildrenPresent(m, p)} :: p in m && m[p].Dir? ==> ChildrenPresent(m, p))
  }

  /** Every ancestor of an existing node is a directory that lists the next
      component on the way down. */
  lemma {:induction false} AncestorIsDir(m: Tree, q: Path, k: nat)
    requires WellFormed(m) && q in m && k < |q|
    ensures q[..k] in m && m[q[..k]].Dir? && q[k] in m[q[..k]].children
    ensures q[..k + 1] in m
    decreases |q| - k
  {
    if k == |q| - 1 {
      assert q[..k + 1] == q;
      assert ParentListed(m, q);
    } else {
      AncestorIsDir(m, q, k + 1);
      var a := q[..k + 1];
      assert Parent(a) == q[..k] && Last(a) == q[k];
      assert ParentListed(m, a);
    }
  }

  /** A regular file has nothing below it. */
  lemma FileIsLeaf(m: Tree, p: Path, q: Path)
    requires WellFormed(m) && p in m && m[p].File? && q in m
    ensures !(p < q)
  {
    if p < q {
      assert q[..|p|] == p;
      AncestorIsDir(m, q, |p|);
    }
  }

  // ---------------------------------------------------------------------
  // Single-node updates.

  /** `File.delete()` on a file or an empty directory. */
  function RemoveLeaf(m: Tree, p: Path): Tree
    requires p != [] && p in m && Parent(p) in m && m[Parent(p)].Dir?
  {
    var d := Parent(p);
    (m - {p})[d := Dir(Remove(m[d].children, Last(p)))]
  }

  /** A deletable node: an existing file, or an existing empty directory,
      other than the root. */
  predicate IsLeaf(m: Tree, p: Path) {
    p != [] && p in m && (m[p].File? || m[p].children == [])
  }

  lemma RemoveLeafWellFormed(m: Tree, p: Path)
    requires WellFormed(m) && IsLeaf(m, p)
    ensures ParentListed(m, p)
    ensures WellFormed(RemoveLeaf(m, p))
  {
    assert ParentListed(m, p);
    var r := RemoveLeaf(m, p);
    forall q | q in r && q != []
      ensures ParentListed(r, q)
    {
      RemoveLeafKeepsParent(m, p, q);
    }
    forall x | x in r && r[x].Dir?
      ensures ChildrenPresent(r, x)
    {
      RemoveLeafKeepsChildren(m, p, x);
    }
  }

  lemma RemoveLeafKeepsParent(m: Tree, p: Path, q: Path)
    requires WellFormed(m) && IsLeaf(m, p) && ParentListed(m, p)
    requires q in RemoveLeaf(m, p) && q != []
    ensures ParentListed(RemoveLeaf(m, p), q)
  {
    var d := Parent(p);
    assert q in m && q != p;
    assert ParentListed(m, q);
    assert q == Parent(q) + [Last(q)] && p == Parent(p) + [Last(p)];
  }

  lemma RemoveLeafKeepsChildren(m: Tree, p: Path, x: Path)
    requires WellFormed(m) && IsLeaf(m, p) && ParentListed(m, p)
    requires x in RemoveLeaf(m, p) && RemoveLeaf(m, p)[x].Dir?
    ensures ChildrenPresent(RemoveLeaf(m, p), x)
  {
    var d := Parent(p);
    var r := RemoveLeaf(m, p);
    assert x != p && x in m && m[x].Dir?;
    assert ChildrenPresent(m, x);
    if x == d {
      RemoveNoDup(m[d].children, Last(p));
    }
    forall c | c in r[x].children
      ensures x + [c] in r
    {
      assert c in m[x].children;
      assert p == Parent(p) + [Last(p)];
    }
  }

  /** A new node `p` in an existing directory, appended to its listing. */
  function AddNode(m: Tree, p: Path, n: Node): Tree
    requires p != [] && p !in m && Parent(p) in m && m[Parent(p)].Dir?
  {
    var d := Parent(p);
    m[p := n][d := Dir(m[d].children + [Last(p)])]
  }

  /** A node that can be created: a file, or an empty directory. */
  predicate Fresh(n: Node) {
    n.File? || n.children == []
  }

  lemma AddNodeWellFormed(m: Tree, p: Path, n: Node)
    requires WellFormed(m) && p != [] && p !in m && Parent(p) in m && m[Parent(p)].Dir? && Fresh(n)
    ensures WellFormed(AddNode(m, p, n))
  {
    var d := Parent(p);
    var r := AddNode(m, p, n);
    assert p == d + [Last(p)];
    assert ChildrenPresent(m, d);
    assert Last(p) !in m[d].children;
    NoDupAppend(m[d].children, Last(p));
    forall q | q in r && q != []
      ensures ParentListed(r, q)
    {
      AddNodeKeepsParent(m, p, n, q);
    }
    forall x | x in r && r[x].Dir?
      ensures ChildrenPresent(r, x)
    {
      AddNodeKeepsChildren(m, p, n, x);
    }
  }

  lemma AddNodeKeepsParent(m: Tree, p: Path, n: Node, q: Path)
    requires WellFormed(m) && p != [] && p !in m && Parent(p) in m && m[Parent(p)].Dir?
    requires q in AddNode(m, p, n) && q != []
    ensures ParentListed(AddNode(m, p, n), q)
  {
    if q != p {
      assert ParentListed(m, q);
    }
  }

  lemma AddNodeKeepsChildren(m: Tree, p: Path, n: Node, x: Path)
    requires WellFormed(m) && p != [] && p !in m && Parent(p) in m && m[Parent(p)].Dir? && Fresh(n)
    requires x in AddNode(m, p, n) && AddNode(m, p, n)[x].Dir?
    ensures ChildrenPresent(AddNode(m, p, n), x)
  {
    var d := Parent(p);
    var r := AddNode(m, p, n);
    if x == d {
      assert p == d + [Last(p)];
      assert ChildrenPresent(m, d);
      assert Last(p) !in m[d].children;
      NoDupAppend(m[d].children, Last(p));
      forall c | c in r[x].children
        ensures x + [c] in r
      {
        if c != Last(p) {
          assert c in m[d].children;
        }
      }
    } else if x != p {
      assert ChildrenPresent(m, x);
      forall c | c in r[x].children
        ensures x + [c] in r
      {
        assert c in m[x].children;
      }
    }
  }

  /** Opening a `FileOutputStream` on `p` succeeds: `p` is not the root, its
      parent is an existing directory, and `p` is absent or a regular file. */
  predicate CanWrite(m: Tree, p: Path) {
    p != [] && Parent(p) in m && m[Parent(p)].Dir? && (p in m ==> m[p].File?)
  }

  /** The file `p` now holds `n`: replaced in place, or created at the end of
      its directory's listing. */
  function PutFile(m: Tree, p: Path, n: Node): Tree
    requires CanWrite(m, p)
  {
    if p in m then m[p := n] else AddNode(m, p, n)
  }

  /** Writing a file puts the node there and changes no node but the file
      and its directory. */
  lemma PutFileNodes(m: Tree, p: Path, n: Node)
    requires CanWrite(m, p)
    ensures p in PutFile(m, p, n) && PutFile(m, p, n)[p] == n
    ensures forall q :: q in PutFile(m, p, n) && q != p && q != Parent(p) ==> q in m && PutFile(m, p, n)[q] == m[q]
  { }

  lemma PutFileWellFormed(m: Tree, p: Path, n: Node)
    requires WellFormed(m) && CanWrite(m, p) && n.File?
    ensures WellFormed(PutFile(m, p, n))
    ensures PutFile(m, p, n).Keys == m.Keys + {p}
    ensures forall q :: q in m && q != p && q != Parent(p) ==> PutFile(m, p, n)[q] == m[q]
  {
    if p in m {
      var r := m[p := n];
      forall q | q in r && q != []
        ensures ParentListed(r, q)
      {
        assert ParentListed(m, q);
      }
      forall x | x in r && r[x].Dir?
        ensures ChildrenPresent(r, x)
      {
        assert ChildrenPresent(m, x);
      }
    } else {
      AddNodeWellFormed(m, p, n);
    }
  }

  /** Writing a file twice leaves the second content, as if written once. */
  lemma PutFileTwice(m: Tree, p: Path, x: Node, y: Node)
    requires CanWrite(m, p)
    ensures p in PutFile(m, p, x)
    ensures PutFile(m, p, x)[p := y] == PutFile(m, p, y)
  {
  }

  /** `File.mkdirs()`: the missing ancestors of `p`, then `p`, are created
      from the top down; creation stops at the first one whose parent is not
      a directory. */
  function Mkdirs(m: Tree, p: Path): Tree
    decreases |p|
  {
    if p in m || p == [] then m
    else
      var m' := Mkdirs(m, Parent(p));
      if Parent(p) in m' && m'[Parent(p)].Dir? && p !in m' then AddNode(m', p, Dir([])) else m'
  }

  /** `mkdirs` only adds directories, on the way to `p`, and changes nothing
      else but the listings of the directories it adds to. */
  lemma {:induction false} MkdirsKeeps(m: Tree, p: Path)
    requires WellFormed(m)
    ensures WellFormed(Mkdirs(m, p))
    ensures m.Keys <= Mkdirs(m, p).Keys
    ensures forall q :: q in Mkdirs(m, p) && q !in m ==> q <= p && Mkdirs(m, p)[q].Dir?
    ensures forall q :: q in m && m[q].File? ==> Mkdirs(m, p)[q] == m[q]
    ensures forall q :: q in m && m[q].Dir? ==> Mkdirs(m, p)[q].Dir?
    decreases |p|
  {
    if p !in m && p != [] {
      var m' := Mkdirs(m, Parent(p));
      MkdirsKeeps(m, Parent(p));
      if Parent(p) in m' && m'[Parent(p)].Dir? && p !in m' {
        AddNodeWellFormed(m', p, Dir([]));
      }
      forall q | q in Mkdirs(m, p) && q !in m
        ensures q <= p
      {
        if q != p {
          assert q in m';
          assert q <= Parent(p);
        }
      }
    }
  }

  /** When no existing ancestor of `p` is a regular file, `mkdirs` leaves
      `p` and all its ancestors as directories. */
  lemma {:induction false} MkdirsReaches(m: Tree, p: Path)
    requires WellFormed(m)
    requires forall k :: 0 <= k <= |p| && p[..k] in m ==> m[p[..k]].Dir?
    ensures forall k :: 0 <= k <= |p| ==> p[..k] in Mkdirs(m, p) && Mkdirs(m, p)[p[..k]].Dir?
    decreases |p|
  {
    if p == [] {
      assert p[..0] == [];
    } else if p in m {
      forall k | 0 <= k <= |p|
        ensures p[..k] in m && m[p[..k]].Dir?
      {
        if k < |p| {
          AncestorIsDir(m, p, k);
        } else {
          assert p[..k] == p;
        }
      }
    } else {
      var d := Parent(p);
      forall k | 0 <= k <= |d| && d[..k] in m
        ensures m[d[..k]].Dir?
      {
        assert d[..k] == p[..k];
      }
      MkdirsReaches(m, d);
      var m' := Mkdirs(m, d);
      MkdirsKeeps(m, d);
      assert d[..|d|] == d;
      assert p !in m';
      var r := AddNode(m', p, Dir([]));
      forall k | 0 <= k <= |p|
        ensures p[..k] in r && r[p[..k]].Dir?
      {
        if k < |p| {
          assert p[..k] == d[..k];
        } else {
          assert p[..k] == p;
        }
      }
    }
  }
}
