/** What `getSourceAllFiles` enumerates: the regular files below a
    directory, depth first, in listing order, a subdirectory's files spliced
    in at that subdirectory's place. */
module Listing {
  import opened Common
  import opened Paths
  import opened FileTree

  /** The node `p` and everything below it. */
  ghost function Subtree(m: Tree, p: Path): set<Path> {
    set q | q in m && p <= q
  }

  ghost function Size(m: Tree, p: Path): nat {
    |Subtree(m, p)|
  }

  /** A child's subtree, even after some nodes are gone, is smaller than its
      parent's: this is what makes the recursive walks terminate. */
  lemma SubtreeShrinks(m: Tree, m': Tree, p: Path, c: Name)
    requires m'.Keys <= m.Keys && p in m
    ensures Size(m', p + [c]) < Size(m, p)
  {
    var a := Subtree(m', p + [c]);
    var b := Subtree(m, p);
    forall q | q in a ensures q in b - {p} {
      assert q[..|p|] == (p + [c])[..|p|] == p;
    }
    assert a <= b - {p};
    SubsetSize(a, b - {p});
  }

  lemma SubsetSize<T>(a: set<T>, b: set<T>)
    requires a <= b
    ensures |a| <= |b|
  {
    assert b == a + (b - a);
  }

  /** The files below `p`, each child's contribution in listing order. */
  ghost function AllFiles(m: Tree, p: Path): seq<Path>
    requires WellFormed(m) && p in m && m[p].Dir?
    decreases Size(m, p), 1, 0
  {
    assert ChildrenPresent(m, p);
    FilesOf(m, p, m[p].children)
  }

  /** The files below the children `cs` of `p`: a file child is one entry, a
      directory child contributes all the files below it. */
  ghost function FilesOf(m: Tree, p: Path, cs: seq<Name>): seq<Path>
    requires WellFormed(m) && p in m && m[p].Dir?
    requires forall c :: c in cs ==> p + [c] in m
    decreases Size(m, p), 0, |cs|
  {
    if cs == [] then []
    else
      var c := p + [cs[|cs| - 1]];
      SubtreeShrinks(m, m, p, cs[|cs| - 1]);
      FilesOf(m, p, cs[..|cs| - 1]) + (if m[c].File? then [c] else AllFiles(m, c))
  }

  /** Only regular files strictly below `p` are listed. */
  lemma {:induction false} AllFilesSound(m: Tree, p: Path)
    requires WellFormed(m) && p in m && m[p].Dir?
    ensures forall f :: f in AllFiles(m, p) ==> f in m && m[f].File? && p < f
    decreases Size(m, p), 1, 0
  {
    assert ChildrenPresent(m, p);
    FilesOfSound(m, p, m[p].children);
  }

  lemma {:induction false} FilesOfSound(m: Tree, p: Path, cs: seq<Name>)
    requires WellFormed(m) && p in m && m[p].Dir?
    requires forall c :: c in cs ==> p + [c] in m
    ensures forall f :: f in FilesOf(m, p, cs) ==> f in m && m[f].File? && p < f && f[|p|] in cs
    decreases Size(m, p), 0, |cs|
  {
    if cs != [] {
      var x := cs[|cs| - 1];
      var c := p + [x];
      SubtreeShrinks(m, m, p, x);
      FilesOfSound(m, p, cs[..|cs| - 1]);
      if m[c].Dir? {
        AllFilesSound(m, c);
        forall f | f in AllFiles(m, c) ensures p < f && f[|p|] == x {
          assert f[..|c|] == c;
          assert f[..|p|] == c[..|p|] == p;
        }
      }
    }
  }

  /** Every regular file strictly below `p` is listed. */
  lemma {:induction false} AllFilesComplete(m: Tree, p: Path, f: Path)
    requires WellFormed(m) && p in m && m[p].Dir?
    requires f in m && m[f].File? && p < f
    ensures f in AllFiles(m, p)
    decreases Size(m, p), 1, 0
  {
    assert ChildrenPresent(m, p);
    assert f[..|p|] == p;
    AncestorIsDir(m, f, |p|);
    FilesOfComplete(m, p, m[p].children, f);
  }

  lemma {:induction false} FilesOfComplete(m: Tree, p: Path, cs: seq<Name>, f: Path)
    requires WellFormed(m) && p in m && m[p].Dir?
    requires forall c :: c in cs ==> p + [c] in m
    requires f in m && m[f].File? && p < f && f[|p|] in cs
    ensures f in FilesOf(m, p, cs)
    decreases Size(m, p), 0, |cs|
  {
    var x := cs[|cs| - 1];
    var c := p + [x];
    SubtreeShrinks(m, m, p, x);
    if f[|p|] == x {
      assert f[..|p| + 1] == c by {
        assert f[..|p|] == p;
      }
      if m[c].File? {
        if |f| > |c| {
          assert c < f;
          FileIsLeaf(m, c, f);
        }
        assert f == c;
      } else {
        assert f != c && f[..|c|] == c;
        assert c < f;
        AllFilesComplete(m, c, f);
      }
    } else {
      assert f[|p|] in cs[..|cs| - 1];
      FilesOfComplete(m, p, cs[..|cs| - 1], f);
    }
  }

  /** No file is listed twice. */
  lemma {:induction false} AllFilesNoDup(m: Tree, p: Path)
    requires WellFormed(m) && p in m && m[p].Dir?
    ensures NoDup(AllFiles(m, p))
    decreases Size(m, p), 1, 0
  {
    assert ChildrenPresent(m, p);
    FilesOfNoDup(m, p, m[p].children);
  }

  lemma {:induction false} FilesOfNoDup(m: Tree, p: Path, cs: seq<Name>)
    requires WellFormed(m) && p in m && m[p].Dir?
    requires forall c :: c in cs ==> p + [c] in m
    requires NoDup(cs)
    ensures NoDup(FilesOf(m, p, cs))
    decreases Size(m, p), 0, |cs|
  {
    if cs != [] {
      var x := cs[|cs| - 1];
      var c := p + [x];
      var init := cs[..|cs| - 1];
      SubtreeShrinks(m, m, p, x);
      assert NoDup(init);
      FilesOfNoDup(m, p, init);
      FilesOfSound(m, p, init);
      var tail := if m[c].File? then [c] else AllFiles(m, c);
      if m[c].Dir? {
        AllFilesNoDup(m, c);
        AllFilesSound(m, c);
      }
      forall f | f in tail ensures f[|p|] == x {
        assert f[..|c|] == c;
      }
      NoDupConcat(FilesOf(m, p, init), tail, |p|, x);
    }
  }

  /** Two lists without repeats, whose elements differ at position `k`
      (those of `b` hold `x` there, those of `a` do not), join without one. */
  lemma NoDupConcat(a: seq<Path>, b: seq<Path>, k: nat, x: Name)
    requires NoDup(a) && NoDup(b)
    requires forall f :: f in a ==> |f| > k && f[k] != x
    requires forall f :: f in b ==> |f| > k && f[k] == x
    ensures NoDup(a + b)
  {
    forall i, j | 0 <= i < j < |a + b| ensures (a + b)[i] != (a + b)[j] {
      if j >= |a| && i < |a| {
        assert (a + b)[i] in a && (a + b)[j] in b;
      }
    }
  }
}
