/** What the recursive `deleteFile` does to the tree. `deleteFile(File)`
    deletes each listed child recursively and then the node itself, so a
    non-root node disappears with all of its subtree; the root cannot be
    deleted, so it is only emptied. `deleteFile(File, false)` does the same
    minus the final `delete()`. The deletion of the children one after the
    other is described by `Cleared`, the state after the first `i` of them. */
module Deletion {
  import opened Common
  import opened Paths
  import opened FileTree

  /** `p` and all of its subtree gone, and its directory no longer lists it. */
  ghost function RemoveTree(m: Tree, p: Path): Tree
    requires WellFormed(m) && p != [] && p in m
  {
    assert ParentListed(m, p);
    var d := Parent(p);
    (map q | q in m && !(p <= q) :: m[q])[d := Dir(Remove(m[d].children, Last(p)))]
  }

  /** The directory `p` kept, with everything below it gone. */
  ghost function EmptyDir(m: Tree, p: Path): Tree
    requires p in m && m[p].Dir?
  {
    (map q | q in m && !(p < q) :: m[q])[p := Dir([])]
  }

  /** The directory `p` after its first `i` listed children `cs[..i]` have
      been deleted with their subtrees. */
  ghost function Cleared(m: Tree, p: Path, cs: seq<Name>, i: nat): Tree
    requires p in m && i <= |cs|
  {
    (map q | q in m && !(p < q && q[|p|] in cs[..i]) :: m[q])[p := Dir(cs[i..])]
  }

  /** The tree after `deleteFile(p)`. */
  ghost function Deleted(m: Tree, p: Path): Tree
    requires WellFormed(m)
  {
    if p !in m then m
    else if p == [] then EmptyDir(m, [])
    else RemoveTree(m, p)
  }

  lemma ClearedStart(m: Tree, p: Path)
    requires p in m && m[p].Dir?
    ensures Cleared(m, p, m[p].children, 0) == m
  {
    var cs := m[p].children;
    var r := Cleared(m, p, cs, 0);
    assert cs[..0] == [] && cs[0..] == cs;
    assert r.Keys == m.Keys;
  }

  /** Deleting child `cs[i]` with its subtree from the state after the first
      `i` children yields the state after the first `i + 1`. */
  lemma ClearedStep(m: Tree, p: Path, i: nat)
    requires WellFormed(m) && p in m && m[p].Dir? && i < |m[p].children|
    requires WellFormed(Cleared(m, p, m[p].children, i))
    ensures p + [m[p].children[i]] in Cleared(m, p, m[p].children, i)
    ensures RemoveTree(Cleared(m, p, m[p].children, i), p + [m[p].children[i]])
            == Cleared(m, p, m[p].children, i + 1)
  {
    var cs := m[p].children;
    var x := cs[i];
    var c := p + [x];
    var m1 := Cleared(m, p, cs, i);
    assert ChildrenPresent(m, p);
    NextChild(cs, i);
    assert c[|p|] == x && p < c;
    assert c in m1;
    assert Parent(c) == p && Last(c) == x;
    RemoveHead(cs[i..]);
    var r1 := RemoveTree(m1, c);
    var r2 := Cleared(m, p, cs, i + 1);
    assert r1[p] == Dir(cs[i + 1..]);
    forall q ensures q in r1 <==> q in r2 {
      if q != p && q in m && p < q {
        ChildPrefix(p, x, q);
      }
    }
    forall q | q in r1 ensures r1[q] == r2[q] {
    }
    assert r1 == r2;
  }

  /** The listing from child `i` on has no duplicates and starts with that
      child, which the earlier children do not include. */
  lemma NextChild(cs: seq<Name>, i: nat)
    requires NoDup(cs) && i < |cs|
    ensures NoDup(cs[i..]) && cs[i..] != [] && cs[i..][0] == cs[i] && cs[i..][1..] == cs[i + 1..]
    ensures cs[i] !in cs[..i] && cs[..i + 1] == cs[..i] + [cs[i]]
  {
    forall a, b | 0 <= a < b < |cs[i..]| ensures cs[i..][a] != cs[i..][b] {
      assert cs[i..][a] == cs[i + a] && cs[i..][b] == cs[i + b];
    }
    forall k | 0 <= k < i ensures cs[..i][k] != cs[i] {
      assert cs[..i][k] == cs[k];
    }
  }

  /** A node strictly below `p` is below its child `x` exactly when its next
      component is `x`. */
  lemma ChildPrefix(p: Path, x: Name, q: Path)
    requires p < q
    ensures p + [x] <= q <==> q[|p|] == x
  {
    if q[|p|] == x {
      assert q[..|p|] == p;
      assert q[..|p| + 1] == p + [x];
    }
  }

  /** Once every listed child has been deleted, the directory is empty. */
  lemma ClearedEnd(m: Tree, p: Path)
    requires WellFormed(m) && p in m && m[p].Dir?
    ensures Cleared(m, p, m[p].children, |m[p].children|) == EmptyDir(m, p)
  {
    var cs := m[p].children;
    assert cs[..|cs|] == cs;
    forall q | q in m && p < q
      ensures q[|p|] in cs
    {
      assert q[..|p|] == p;
      AncestorIsDir(m, q, |p|);
    }
    var a := Cleared(m, p, cs, |cs|);
    var b := EmptyDir(m, p);
    forall q ensures q in a <==> q in b {
      if q in m && p < q {
        assert q[|p|] in cs[..|cs|];
      }
    }
    forall q | q in a ensures a[q] == b[q] {
    }
    assert a == b;
  }

  /** `delete()` of the emptied directory completes the deletion of its subtree. */
  lemma DirDeleteEnd(m: Tree, p: Path)
    requires WellFormed(m) && p != [] && p in m && m[p].Dir?
    ensures Parent(p) in EmptyDir(m, p) && EmptyDir(m, p)[Parent(p)].Dir?
    ensures RemoveLeaf(EmptyDir(m, p), p) == RemoveTree(m, p)
  {
    assert ParentListed(m, p);
    var d := Parent(p);
    assert !(p < d);
    var e := EmptyDir(m, p);
    assert e[d] == m[d];
    forall q ensures q in RemoveLeaf(e, p) <==> q in RemoveTree(m, p) {
      if q in m && q != p && q != d {
        assert (p < q) <==> (p <= q);
      }
    }
    assert RemoveLeaf(e, p).Keys == RemoveTree(m, p).Keys;
  }

  /** A regular file has no subtree: `delete()` alone removes it. */
  lemma FileDeleteEnd(m: Tree, p: Path)
    requires WellFormed(m) && p != [] && p in m && m[p].File?
    ensures Parent(p) in m && m[Parent(p)].Dir?
    ensures RemoveLeaf(m, p) == RemoveTree(m, p)
  {
    assert ParentListed(m, p);
    forall q | q in m
      ensures !(p < q)
    {
      FileIsLeaf(m, p, q);
    }
    forall q ensures q in RemoveLeaf(m, p) <==> q in RemoveTree(m, p) {
      if q in m && q != p {
        assert !(p < q);
      }
    }
    assert RemoveLeaf(m, p).Keys == RemoveTree(m, p).Keys;
  }

  /** Removing a subtree keeps the tree well formed. */
  lemma RemoveTreeWellFormed(m: Tree, p: Path)
    requires WellFormed(m) && p != [] && p in m
    ensures WellFormed(RemoveTree(m, p))
  {
    assert ParentListed(m, p);
    var d := Parent(p);
    var r := RemoveTree(m, p);
    assert p == d + [Last(p)];
    forall q | q in r && q != []
      ensures ParentListed(r, q)
    {
      assert q in m && !(p <= q);
      assert ParentListed(m, q);
      assert q == Parent(q) + [Last(q)];
      assert !(p <= Parent(q));
    }
    forall x | x in r && r[x].Dir?
      ensures ChildrenPresent(r, x)
    {
      assert x in m && m[x].Dir? && !(p <= x);
      assert ChildrenPresent(m, x);
      if x == d {
        RemoveNoDup(m[d].children, Last(p));
      }
      forall c | c in r[x].children
        ensures x + [c] in r
      {
        assert c in m[x].children;
        assert (x + [c])[..|x|] == x;
      }
    }
  }

  /** Emptying a directory keeps the tree well formed. */
  lemma EmptyDirWellFormed(m: Tree, p: Path)
    requires WellFormed(m) && p in m && m[p].Dir?
    ensures WellFormed(EmptyDir(m, p))
  {
    var r := EmptyDir(m, p);
    forall q | q in r && q != []
      ensures ParentListed(r, q)
    {
      assert q in m && !(p < q);
      assert ParentListed(m, q);
      assert q == Parent(q) + [Last(q)];
      assert !(p < Parent(q));
      assert Parent(q) != p;
    }
    forall x | x in r && r[x].Dir?
      ensures ChildrenPresent(r, x)
    {
      if x != p {
        assert x in m && m[x].Dir? && !(p < x);
        assert ChildrenPresent(m, x);
        forall c | c in r[x].children
          ensures x + [c] in r
        {
          assert c in m[x].children;
          assert (x + [c])[..|x|] == x;
        }
      }
    }
  }

  /** `deleteFile` keeps the tree well formed. */
  lemma DeletionWellFormed(m: Tree, p: Path)
    requires WellFormed(m)
    ensures WellFormed(Deleted(m, p))
  {
    if p in m {
      if p == [] {
        EmptyDirWellFormed(m, []);
      } else {
        RemoveTreeWellFormed(m, p);
      }
    }
  }

  /** After `deleteFile(p)` of a non-root node nothing at or below `p` is
      left, and every node outside that subtree is as it was, except that
      the parent directory no longer lists `p`. */
  lemma DeletionRemovesSubtree(m: Tree, p: Path)
    requires WellFormed(m) && p != [] && p in m
    ensures Parent(p) in m && m[Parent(p)].Dir? && Deleted(m, p)[Parent(p)].Dir?
    ensures forall q :: q in Deleted(m, p) <==> q in m && !(p <= q)
    ensures forall q :: q in m && !(p <= q) && q != Parent(p) ==> Deleted(m, p)[q] == m[q]
    ensures Deleted(m, p)[Parent(p)].children == Remove(m[Parent(p)].children, Last(p))
  {
    assert ParentListed(m, p);
    assert !(p <= Parent(p));
  }

  /** Deleting the root removes everything below it but the root itself. */
  lemma DeletionOfRoot(m: Tree)
    requires WellFormed(m)
    ensures Deleted(m, []) == map[[] := Dir([])]
  {
    var r := Deleted(m, []);
    forall q | q in r
      ensures q == []
    {
    }
    assert r.Keys == {[]};
  }

  /** Deleting a second time changes nothing. */
  lemma DeletionIdempotent(m: Tree, p: Path)
    requires WellFormed(m)
    ensures WellFormed(Deleted(m, p))
    ensures Deleted(Deleted(m, p), p) == Deleted(m, p)
  {
    DeletionWellFormed(m, p);
    if p == [] && p in m {
      DeletionOfRoot(m);
      DeletionOfRoot(Deleted(m, p));
    } else if p in m {
      DeletionRemovesSubtree(m, p);
    }
  }

  /** Two prefixes of one path are prefixes of one another. */
  lemma PrefixesComparable(a: Path, b: Path, q: Path)
    requires a <= q && b <= q
    ensures a <= b || b <= a
  {
    if |a| <= |b| {
      assert b[..|a|] == q[..|a|] == a;
    } else {
      assert a[..|b|] == q[..|b|] == b;
    }
  }

  /** Deleting a target outside the source and not above it leaves the
      source and the regular files below it as they were, and adds none. */
  lemma DeletionSparesSource(m: Tree, source: Path, target: Path)
    requires WellFormed(m) && source in m && m[source].Dir?
    requires !(target <= source) && !(source <= target)
    requires Parent(target) in m && m[Parent(target)].Dir?
    ensures WellFormed(Deleted(m, target))
    ensures source in Deleted(m, target) && Deleted(m, target)[source] == m[source]
    ensures CanWrite(Deleted(m, target), target)
    ensures forall f :: f in m && m[f].File? && source < f ==> f in Deleted(m, target) && Deleted(m, target)[f] == m[f]
    ensures forall f :: f in Deleted(m, target) && Deleted(m, target)[f].File? && source < f ==> f in m && m[f].File?
  {
    var m1 := Deleted(m, target);
    DeletionWellFormed(m, target);
    if target in m {
      DeletionRemovesSubtree(m, target);
      assert source != Parent(target);
      forall f | f in m && m[f].File? && source < f
        ensures f in m1 && m1[f] == m[f]
      {
        if target <= f {
          PrefixesComparable(source, target, f);
        }
        assert f != Parent(target);
      }
      forall f | f in m1 && m1[f].File? && source < f
        ensures f in m && m[f].File?
      {
        assert f != Parent(target);
      }
    }
  }

  /** Deleting a target that is not the source or above it keeps the source
      a directory, leaves the target writable, and keeps exactly the regular
      files that are not the target or below it. */
  lemma DeletionKeepsOutside(m: Tree, source: Path, target: Path)
    requires WellFormed(m) && source in m && m[source].Dir?
    requires !(target <= source)
    requires Parent(target) in m && m[Parent(target)].Dir?
    ensures WellFormed(Deleted(m, target))
    ensures source in Deleted(m, target) && Deleted(m, target)[source].Dir?
    ensures CanWrite(Deleted(m, target), target)
    ensures forall f :: f in m && m[f].File? && !(target <= f) ==> f in Deleted(m, target) && Deleted(m, target)[f] == m[f]
    ensures forall f :: f in Deleted(m, target) && Deleted(m, target)[f].File? ==>
              f in m && Deleted(m, target)[f] == m[f] && !(target <= f)
  {
    DeletionWellFormed(m, target);
    if target in m {
      DeletionRemovesSubtree(m, target);
    } else {
      forall f | f in m
        ensures !(target <= f)
      {
        if |target| <= |f| {
          if |target| < |f| {
            AncestorIsDir(m, f, |target|);
          } else {
            assert f[..|target|] == f;
          }
          assert f[..|target|] in m;
          assert f[..|target|] != target;
        }
      }
    }
  }
}
