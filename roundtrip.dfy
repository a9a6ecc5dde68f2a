/** Unzipping what `zip` wrote. Each entry of a directory archive is a
    regular file named by its path below the source, so `unZip` into a
    destination with nothing below it places every file's bytes at the
    destination followed by that path, as long as the names do not
    collide (no relative path contains the source path). */
module RoundTrip {
  import opened Common
  import opened Paths
  import opened Streams
  import opened Archive
  import opened FileTree
  import opened Listing
  import opened Deletion
  import opened Zipping
  import opened Unzipping

  /** Nothing on the way to `t` is a regular file and `t` is not a directory:
      a file can be written at `t` after `mkdirs` of its parent. */
  ghost predicate Unobstructed(m: Tree, t: Path) {
    && (forall k :: 0 <= k < |t| && t[..k] in m ==> m[t[..k]].Dir?)
    && (t in m ==> m[t].File?)
  }

  /** Every entry is a regular-file entry whose name splits into `rels[i]`. */
  ghost predicate FileEntries(es: seq<Entry>, rels: seq<seq<Name>>) {
    && |es| == |rels|
    && forall i :: 0 <= i < |es| ==> !IsDirectory(es[i]) && rels[i] != [] && Split(es[i].name) == rels[i]
  }

  /** No relative path is a prefix of another one (nor equal to it). */
  ghost predicate PrefixFree(rels: seq<seq<Name>>) {
    forall i, j :: 0 <= i < |rels| && 0 <= j < |rels| && i != j ==> !(rels[i] <= rels[j])
  }

  /** The path of file `f` inside the archive of `source`: what lies below
      the source, behind the folder's name when it is kept. */
  function Below(source: Path, f: Path, keepFolder: bool): seq<Name>
    requires source != [] && source < f
  {
    (if keepFolder then [Last(source)] else []) + f[|source|..]
  }

  // ---------------------------------------------------------------------
  // Sequence facts.

  /** A common prefix does not change whether one list starts the other. */
  lemma NotBelow(d: Path, a: seq<Name>, b: seq<Name>)
    requires !(a <= b)
    ensures !(d + a <= d + b)
  {
    if |a| <= |b| {
      var j :| 0 <= j < |a| && a[j] != b[j];
      assert (d + a)[|d| + j] == a[j] && (d + b)[|d| + j] == b[j];
    }
  }

  /** Prepending the same list does not change prefixing. */
  lemma PrefixIff(d: Path, a: seq<Name>, b: seq<Name>)
    ensures d + a <= d + b <==> a <= b
  {
    if a <= b {
      assert (d + b)[..|d + a|] == d + a;
    } else {
      NotBelow(d, a, b);
    }
  }

  /** A joined non-empty list of names ends with a name's last character. */
  lemma {:induction false} JoinEnd(cs: seq<Name>)
    requires cs != []
    ensures |Join(cs)| > 0 && Join(cs)[|Join(cs)| - 1] != Sep
  {
    if |cs| > 1 {
      JoinEnd(cs[1..]);
    } else {
      assert cs[0][|cs[0]| - 1] in cs[0];
    }
  }

  // ---------------------------------------------------------------------
  // One entry.

  /** From `m` to `r` a file holding `data` was written at `t`: nothing
      disappeared, directories stayed directories, no other file changed,
      and every other new node is a directory on the way to `t`. */
  ghost predicate Grows(m: Tree, r: Tree, t: Path, data: seq<Byte>) {
    && t in r && r[t] == File(data, None)
    && m.Keys <= r.Keys
    && (forall q :: q in m && m[q].Dir? ==> r[q].Dir?)
    && (forall q :: q in m && m[q].File? && q != t ==> r[q] == m[q])
    && (forall q :: q in r && q !in m && q != t ==> q < t && r[q].Dir?)
  }

  /** A regular-file entry at a clear place writes its bytes there and adds
      nothing else than directories on the way to it. */
  lemma ExtractFileAdds(m: Tree, dest: Path, e: Entry, rel: seq<Name>)
    requires WellFormed(m) && !IsDirectory(e)
    requires Split(e.name) == rel && rel != []
    requires Unobstructed(m, dest + rel)
    ensures Extract(m, dest, e).0 == Done
    ensures WellFormed(Extract(m, dest, e).1)
    ensures Grows(m, Extract(m, dest, e).1, dest + rel, e.data)
  {
    ExtractFileEntry(m, dest, e, rel);
    ExtractWellFormed(m, dest, e);
    ExtractOnlyAdds(m, dest, e);
    PiecesOfDest(dest, e.name);
    ResolveNames(dest + rel);
    ExtractFileNew(m, dest, e, rel);
  }

  /** The nodes such an entry adds besides its file are directories above it. */
  lemma ExtractFileNew(m: Tree, dest: Path, e: Entry, rel: seq<Name>)
    requires WellFormed(m) && !IsDirectory(e)
    requires Split(e.name) == rel && rel != []
    requires Unobstructed(m, dest + rel)
    ensures forall q :: q in Extract(m, dest, e).1 && q !in m && q != dest + rel ==>
              q < dest + rel && Extract(m, dest, e).1[q].Dir?
  {
    var t := dest + rel;
    var d := Parent(t);
    var r := Extract(m, dest, e).1;
    ExtractFileEntry(m, dest, e, rel);
    ExtractWellFormed(m, dest, e);
    ExtractFileKeeps(m, dest, e, rel);
    MkdirsKeeps(m, d);
    assert ParentListed(r, t);
    forall q | q in r && q !in m && q != t
      ensures q < t && r[q].Dir?
    {
      if q != d {
        assert q in Mkdirs(m, d) && q <= d;
      }
    }
  }

  /** Besides its file and that file's directory, such an entry leaves every
      node as making the directory left it. */
  lemma ExtractFileKeeps(m: Tree, dest: Path, e: Entry, rel: seq<Name>)
    requires WellFormed(m) && !IsDirectory(e)
    requires Split(e.name) == rel && rel != []
    requires Unobstructed(m, dest + rel)
    ensures var d := Parent(dest + rel);
            var m1 := if d in m then m else Mkdirs(m, d);
            forall q :: q in Extract(m, dest, e).1 && q != dest + rel && q != d ==>
              q in m1 && Extract(m, dest, e).1[q] == m1[q]
  {
    var t := dest + rel;
    var d := Parent(t);
    ExtractFileEntry(m, dest, e, rel);
    ExtractPlainFile(m, dest, e, rel);
    var m1 := if d in m then m else Mkdirs(m, d);
    var m2 := if t in m1 then m1 else AddNode(m1, t, File([], None));
    assert Extract(m, dest, e).1 == PutFile(m2, t, File(e.data, None));
    assert forall q :: q in m2 && q != t && q != d ==> q in m1 && m2[q] == m1[q];
    PutFileNodes(m2, t, File(e.data, None));
  }

  // ---------------------------------------------------------------------
  // The loop.

  /** What the first entries leave: each one's bytes at its place, every
      node of `m` still there (directories as directories, files as files,
      files no entry names unchanged), and every new node an entry's file
      or a directory on the way to one. */
  ghost predicate Placed(m: Tree, r: Tree, dest: Path, es: seq<Entry>, rels: seq<seq<Name>>)
    requires |es| == |rels|
  {
    && (forall i :: 0 <= i < |es| ==> dest + rels[i] in r && r[dest + rels[i]] == File(es[i].data, None))
    && m.Keys <= r.Keys
    && (forall q :: q in m && m[q].Dir? ==> r[q].Dir?)
    && (forall q :: q in m && m[q].File? ==> r[q].File?)
    && (forall q :: q in m && m[q].File? && (forall i :: 0 <= i < |rels| ==> q != dest + rels[i]) ==> r[q] == m[q])
    && (forall q :: q in r && q !in m && r[q].File? ==> exists i :: 0 <= i < |rels| && q == dest + rels[i])
    && (forall q :: q in r && q !in m && r[q].Dir? ==> exists i :: 0 <= i < |rels| && q < dest + rels[i])
  }

  /** `t` is apart from every earlier place: neither starts the other. */
  ghost predicate Apart(dest: Path, rels: seq<seq<Name>>, t: Path) {
    forall i :: 0 <= i < |rels| ==> !(dest + rels[i] <= t) && !(t <= dest + rels[i])
  }

  /** A place apart from the earlier ones is still clear after them. */
  lemma StillUnobstructed(m: Tree, prev: Tree, dest: Path, es: seq<Entry>, rels: seq<seq<Name>>, t: Path)
    requires |es| == |rels| && Placed(m, prev, dest, es, rels)
    requires Unobstructed(m, t) && Apart(dest, rels, t)
    ensures Unobstructed(prev, t)
  {
    forall k | 0 <= k < |t| && t[..k] in prev
      ensures prev[t[..k]].Dir?
    {
      assert t[..k] <= t;
    }
  }

  /** Writing the next entry at a place apart from the earlier ones extends
      what they left. */
  lemma PlacedStep(m: Tree, prev: Tree, r: Tree, dest: Path, es: seq<Entry>, rels: seq<seq<Name>>,
                   e: Entry, rel: seq<Name>)
    requires |es| == |rels| && Placed(m, prev, dest, es, rels)
    requires Apart(dest, rels, dest + rel) && Grows(prev, r, dest + rel, e.data)
    ensures Placed(m, r, dest, es + [e], rels + [rel])
  {
    PlacedStepFiles(m, prev, r, dest, es, rels, e, rel);
    PlacedStepKept(m, prev, r, dest, es, rels, e, rel);
    PlacedStepNew(m, prev, r, dest, es, rels, e, rel);
  }

  lemma PlacedStepFiles(m: Tree, prev: Tree, r: Tree, dest: Path, es: seq<Entry>, rels: seq<seq<Name>>,
                        e: Entry, rel: seq<Name>)
    requires |es| == |rels| && Placed(m, prev, dest, es, rels)
    requires Apart(dest, rels, dest + rel) && Grows(prev, r, dest + rel, e.data)
    ensures forall i :: 0 <= i < |es| + 1 ==>
              dest + (rels + [rel])[i] in r && r[dest + (rels + [rel])[i]] == File((es + [e])[i].data, None)
  {
    var es1, rels1 := es + [e], rels + [rel];
    forall i | 0 <= i < |es1|
      ensures dest + rels1[i] in r && r[dest + rels1[i]] == File(es1[i].data, None)
    {
      if i < |es| {
        assert es1[i] == es[i] && rels1[i] == rels[i];
      }
    }
  }

  lemma PlacedStepKept(m: Tree, prev: Tree, r: Tree, dest: Path, es: seq<Entry>, rels: seq<seq<Name>>,
                       e: Entry, rel: seq<Name>)
    requires |es| == |rels| && Placed(m, prev, dest, es, rels)
    requires Apart(dest, rels, dest + rel) && Grows(prev, r, dest + rel, e.data)
    ensures m.Keys <= r.Keys
    ensures forall q :: q in m && m[q].Dir? ==> r[q].Dir?
    ensures forall q :: q in m && m[q].File? ==> r[q].File?
    ensures forall q :: q in m && m[q].File? && (forall i :: 0 <= i < |rels| + 1 ==> q != dest + (rels + [rel])[i]) ==>
              r[q] == m[q]
  {
    var rels1 := rels + [rel];
    forall q | q in m && m[q].File? && (forall i :: 0 <= i < |rels1| ==> q != dest + rels1[i])
      ensures r[q] == m[q]
    {
      assert forall i :: 0 <= i < |rels| ==> q != dest + rels[i] by {
        forall i | 0 <= i < |rels| ensures q != dest + rels[i] {
          assert rels1[i] == rels[i];
        }
      }
      assert q != dest + rels1[|rels|];
    }
  }

  lemma PlacedStepNew(m: Tree, prev: Tree, r: Tree, dest: Path, es: seq<Entry>, rels: seq<seq<Name>>,
                      e: Entry, rel: seq<Name>)
    requires |es| == |rels| && Placed(m, prev, dest, es, rels)
    requires Apart(dest, rels, dest + rel) && Grows(prev, r, dest + rel, e.data)
    ensures forall q :: q in r && q !in m && r[q].File? ==>
              exists i :: 0 <= i < |rels| + 1 && q == dest + (rels + [rel])[i]
    ensures forall q :: q in r && q !in m && r[q].Dir? ==>
              exists i :: 0 <= i < |rels| + 1 && q < dest + (rels + [rel])[i]
  {
    NewFilesStep(m, prev, r, dest, rels, rel, e.data);
    NewDirsStep(m, prev, r, dest, rels, rel, e.data);
  }

  /** A new file after one more entry is that entry's or an earlier one's. */
  lemma NewFilesStep(m: Tree, prev: Tree, r: Tree, dest: Path, rels: seq<seq<Name>>, rel: seq<Name>,
                     data: seq<Byte>)
    requires forall q :: q in prev && q !in m && prev[q].File? ==> exists i :: 0 <= i < |rels| && q == dest + rels[i]
    requires Grows(prev, r, dest + rel, data)
    ensures forall q :: q in r && q !in m && r[q].File? ==>
              exists i :: 0 <= i < |rels| + 1 && q == dest + (rels + [rel])[i]
  {
    var t := dest + rel;
    var rels1 := rels + [rel];
    var n := |rels|;
    forall q | q in r && q !in m && r[q].File?
      ensures exists i :: 0 <= i < |rels1| && q == dest + rels1[i]
    {
      if q == t {
        assert q == dest + rels1[n];
      } else {
        assert q in prev && prev[q].File?;
        var i :| 0 <= i < n && q == dest + rels[i];
        assert q == dest + rels1[i];
      }
    }
  }

  /** A new directory after one more entry lies above that entry's place or
      an earlier one. */
  lemma NewDirsStep(m: Tree, prev: Tree, r: Tree, dest: Path, rels: seq<seq<Name>>, rel: seq<Name>,
                    data: seq<Byte>)
    requires forall q :: q in prev && q !in m && prev[q].Dir? ==> exists i :: 0 <= i < |rels| && q < dest + rels[i]
    requires Grows(prev, r, dest + rel, data)
    ensures forall q :: q in r && q !in m && r[q].Dir? ==>
              exists i :: 0 <= i < |rels| + 1 && q < dest + (rels + [rel])[i]
  {
    var t := dest + rel;
    var rels1 := rels + [rel];
    var n := |rels|;
    forall q | q in r && q !in m && r[q].Dir?
      ensures exists i :: 0 <= i < |rels1| && q < dest + rels1[i]
    {
      if q in prev {
        assert prev[q].Dir?;
        var i :| 0 <= i < n && q < dest + rels[i];
        assert q < dest + rels1[i];
      } else {
        assert q < dest + rels1[n];
      }
    }
  }

  /** The last entry is apart from the others, which keep the conditions. */
  lemma SplitLast(dest: Path, es: seq<Entry>, rels: seq<seq<Name>>)
    requires FileEntries(es, rels) && PrefixFree(rels) && es != []
    ensures var n := |es| - 1;
            && FileEntries(es[..n], rels[..n]) && PrefixFree(rels[..n])
            && Apart(dest, rels[..n], dest + rels[n])
            && es == es[..n] + [es[n]] && rels == rels[..n] + [rels[n]]
  {
    var n := |es| - 1;
    forall i | 0 <= i < n
      ensures !(dest + rels[..n][i] <= dest + rels[n]) && !(dest + rels[n] <= dest + rels[..n][i])
    {
      NotBelow(dest, rels[i], rels[n]);
      NotBelow(dest, rels[n], rels[i]);
    }
    TakeOneMore(es, n);
    TakeOneMore(rels, n);
    assert es[..n + 1] == es && rels[..n + 1] == rels;
  }

  /** One more entry, at a place apart from the earlier ones. */
  lemma ApplyStep(m: Tree, prev: Tree, dest: Path, es: seq<Entry>, rels: seq<seq<Name>>, e: Entry, rel: seq<Name>)
    requires WellFormed(prev) && |es| == |rels| && Placed(m, prev, dest, es, rels)
    requires !IsDirectory(e) && Split(e.name) == rel && rel != []
    requires Unobstructed(m, dest + rel) && Apart(dest, rels, dest + rel)
    ensures Extract(prev, dest, e).0 == Done
    ensures WellFormed(Extract(prev, dest, e).1)
    ensures Placed(m, Extract(prev, dest, e).1, dest, es + [e], rels + [rel])
  {
    StillUnobstructed(m, prev, dest, es, rels, dest + rel);
    ExtractFileAdds(prev, dest, e, rel);
    PlacedStep(m, prev, Extract(prev, dest, e).1, dest, es, rels, e, rel);
  }

  /** Regular-file entries at clear, prefix-free places are all written. */
  lemma {:induction false} ApplyFileEntries(m: Tree, dest: Path, es: seq<Entry>, rels: seq<seq<Name>>)
    requires WellFormed(m) && FileEntries(es, rels) && PrefixFree(rels)
    requires forall i :: 0 <= i < |rels| ==> Unobstructed(m, dest + rels[i])
    ensures ApplyEntries(m, dest, es).0 == Done
    ensures WellFormed(ApplyEntries(m, dest, es).1)
    ensures Placed(m, ApplyEntries(m, dest, es).1, dest, es, rels)
    decreases |es|
  {
    if es != [] {
      var n := |es| - 1;
      SplitLast(dest, es, rels);
      ApplyFileEntries(m, dest, es[..n], rels[..n]);
      assert Unobstructed(m, dest + rels[n]);
      ApplyStep(m, ApplyEntries(m, dest, es[..n]).1, dest, es[..n], rels[..n], es[n], rels[n]);
    }
  }

  // ---------------------------------------------------------------------
  // The archive `zip` writes.

  /** The archive paths of the listed files of a directory source. */
  ghost function ArchivePaths(m: Tree, source: Path, keepFolder: bool): (rels: seq<seq<Name>>)
    requires WellFormed(m) && source in m && m[source].Dir? && source != []
    ensures |rels| == |AllFiles(m, source)|
    ensures forall i :: 0 <= i < |rels| ==>
              (source < AllFiles(m, source)[i] && rels[i] == Below(source, AllFiles(m, source)[i], keepFolder))
  {
    var fs := AllFiles(m, source);
    AllFilesSound(m, source);
    assert forall i :: 0 <= i < |fs| ==> fs[i] in fs;
    seq(|fs|, i requires 0 <= i < |fs| => Below(source, fs[i], keepFolder))
  }

  /** Without colliding names, the entries of a directory source are
      regular-file entries whose names split into their archive paths. */
  lemma ArchivePathsNames(m: Tree, source: Path, keepFolder: bool)
    requires WellFormed(m) && source in m && m[source].Dir? && source != []
    requires forall f :: f in m && m[f].File? && source < f ==>
               !Occurs(PathString(source), Join(f[|source|..]))
    ensures FileEntries(DirEntries(m, source, keepFolder), ArchivePaths(m, source, keepFolder))
  {
    var es := DirEntries(m, source, keepFolder);
    var fs := AllFiles(m, source);
    var rels := ArchivePaths(m, source, keepFolder);
    ZipDirectoryEntries(m, source, keepFolder);
    forall i | 0 <= i < |fs|
      ensures !IsDirectory(es[i]) && rels[i] != [] && Split(es[i].name) == rels[i]
    {
      ArchivePathOfFile(source, fs[i], keepFolder);
    }
  }

  /** The entry name of one file below the folder is no directory name and
      splits into the file's archive path. */
  lemma ArchivePathOfFile(source: Path, f: Path, keepFolder: bool)
    requires source != [] && source < f
    requires !Occurs(PathString(source), Join(f[|source|..]))
    ensures var n := EntryName(source, f, keepFolder);
            && |n| > 0 && n[|n| - 1] != Sep
            && Below(source, f, keepFolder) != []
            && Split(n) == Below(source, f, keepFolder)
  {
    var rel := f[|source|..];
    assert f == source + rel;
    EntryNameOfDescendant(source, rel);
    if keepFolder {
      JoinEnd([Last(source)] + rel);
    } else {
      JoinEnd(rel);
      assert Below(source, f, keepFolder) == rel;
    }
  }

  /** No archive path of a directory source starts another: the files are
      different leaves. */
  lemma ArchivePathsFree(m: Tree, source: Path, keepFolder: bool)
    requires WellFormed(m) && source in m && m[source].Dir? && source != []
    ensures PrefixFree(ArchivePaths(m, source, keepFolder))
  {
    var fs := AllFiles(m, source);
    var rels := ArchivePaths(m, source, keepFolder);
    AllFilesNoDup(m, source);
    AllFilesSound(m, source);
    var pre: seq<Name> := if keepFolder then [Last(source)] else [];
    forall i, j | 0 <= i < |rels| && 0 <= j < |rels| && i != j
      ensures !(rels[i] <= rels[j])
    {
      assert fs[i] in fs && fs[j] in fs;
      FileIsLeaf(m, fs[i], fs[j]);
      assert fs[i] != fs[j];
      var ri, rj := fs[i][|source|..], fs[j][|source|..];
      assert fs[i] == source + ri && fs[j] == source + rj;
      assert rels[i] == pre + ri && rels[j] == pre + rj;
      PrefixIff(source, ri, rj);
      PrefixIff(pre, ri, rj);
    }
  }

  /** Below a destination that is a directory or absent and has nothing
      below it, every place is clear. */
  lemma EmptyDestination(m: Tree, dest: Path, rels: seq<seq<Name>>)
    requires forall k :: 0 <= k <= |dest| && dest[..k] in m ==> m[dest[..k]].Dir?
    requires forall q :: q in m ==> !(dest < q)
    requires forall i :: 0 <= i < |rels| ==> rels[i] != []
    ensures forall i :: 0 <= i < |rels| ==> Unobstructed(m, dest + rels[i])
    ensures forall i :: 0 <= i < |rels| ==> dest + rels[i] !in m
  {
    forall i | 0 <= i < |rels|
      ensures Unobstructed(m, dest + rels[i]) && dest + rels[i] !in m
    {
      var t := dest + rels[i];
      forall k | |dest| < k <= |t|
        ensures t[..k] !in m
      {
        assert dest < t[..k];
      }
      forall k | 0 <= k < |t| && t[..k] in m
        ensures m[t[..k]].Dir?
      {
        if k <= |dest| {
          assert t[..k] == dest[..k];
        }
      }
      assert dest < t;
    }
  }

  /** The entries of a directory source without colliding names, unzipped
      into a destination that is a directory or absent and has nothing
      below it, all succeed: each file of the source is back at the
      destination followed by its path in the archive, with its bytes, and
      no regular file that was there changes. */
  lemma UnzipDirEntries(m: Tree, source: Path, keepFolder: bool, m': Tree, dest: Path)
    requires WellFormed(m) && source in m && m[source].Dir? && source != []
    requires forall f :: f in m && m[f].File? && source < f ==>
               !Occurs(PathString(source), Join(f[|source|..]))
    requires WellFormed(m')
    requires forall k :: 0 <= k <= |dest| && dest[..k] in m' ==> m'[dest[..k]].Dir?
    requires forall q :: q in m' ==> !(dest < q)
    ensures ApplyEntries(m', dest, DirEntries(m, source, keepFolder)).0 == Done
    ensures forall f :: f in m && m[f].File? && source < f ==>
              && dest + Below(source, f, keepFolder) in ApplyEntries(m', dest, DirEntries(m, source, keepFolder)).1
              && ApplyEntries(m', dest, DirEntries(m, source, keepFolder)).1[dest + Below(source, f, keepFolder)]
                 == File(m[f].data, None)
    ensures forall q :: q in m' && m'[q].File? ==>
              && q in ApplyEntries(m', dest, DirEntries(m, source, keepFolder)).1
              && ApplyEntries(m', dest, DirEntries(m, source, keepFolder)).1[q] == m'[q]
    ensures forall q :: q in ApplyEntries(m', dest, DirEntries(m, source, keepFolder)).1 && dest < q
                        && ApplyEntries(m', dest, DirEntries(m, source, keepFolder)).1[q].File? ==>
              exists f :: f in m && m[f].File? && source < f && q == dest + Below(source, f, keepFolder)
  {
    var es := DirEntries(m, source, keepFolder);
    var fs := AllFiles(m, source);
    var rels := ArchivePaths(m, source, keepFolder);
    ArchivePathsNames(m, source, keepFolder);
    ArchivePathsFree(m, source, keepFolder);
    EmptyDestination(m', dest, rels);
    ApplyFileEntries(m', dest, es, rels);
    var r := ApplyEntries(m', dest, es).1;
    forall f | f in m && m[f].File? && source < f
      ensures dest + Below(source, f, keepFolder) in r && r[dest + Below(source, f, keepFolder)] == File(m[f].data, None)
    {
      ZipDirectoryEntries(m, source, keepFolder);
      var i :| 0 <= i < |fs| && fs[i] == f;
      assert rels[i] == Below(source, f, keepFolder);
    }
    PlacedBelowDest(m, source, keepFolder, m', r, dest);
  }

  /** After the entries of a directory source, a regular file below an
      initially empty destination is one of the source's files restored. */
  lemma PlacedBelowDest(m: Tree, source: Path, keepFolder: bool, m': Tree, r: Tree, dest: Path)
    requires WellFormed(m) && source in m && m[source].Dir? && source != []
    requires forall q :: q in m' ==> !(dest < q)
    requires Placed(m', r, dest, DirEntries(m, source, keepFolder), ArchivePaths(m, source, keepFolder))
    ensures forall q :: q in r && dest < q && r[q].File? ==>
              exists f :: f in m && m[f].File? && source < f && q == dest + Below(source, f, keepFolder)
  {
    var fs := AllFiles(m, source);
    var rels := ArchivePaths(m, source, keepFolder);
    AllFilesSound(m, source);
    forall q | q in r && dest < q && r[q].File?
      ensures exists f :: f in m && m[f].File? && source < f && q == dest + Below(source, f, keepFolder)
    {
      assert q !in m';
      var i :| 0 <= i < |rels| && q == dest + rels[i];
      assert fs[i] in fs;
    }
  }

  /** `zip` of a directory to a target that is not the folder or above it
      (the target may lie inside the folder), when no names collide,
      completes; `unZip` of that archive into a destination with nothing
      below it then completes too. Every file of the source except the old
      target and what was below it comes back below the destination with
      its bytes, and every regular file below the destination is one of
      them. */
  lemma ZipThenUnZip(m: Tree, source: Path, target: Path, keepFolder: bool, dest: Path)
    requires WellFormed(m) && source in m && m[source].Dir? && source != []
    requires !(target <= source)
    requires Parent(target) in m && m[Parent(target)].Dir?
    requires forall f :: f in m && m[f].File? && source < f ==>
               !Occurs(PathString(source), Join(f[|source|..]))
    requires var z := ZipResult(m, source, target, keepFolder).1;
             && (forall k :: 0 <= k <= |dest| && dest[..k] in z ==> z[dest[..k]].Dir?)
             && (forall q :: q in z ==> !(dest < q))
    ensures ZipResult(m, source, target, keepFolder).0 == Done
    ensures var u := UnZipResult(ZipResult(m, source, target, keepFolder).1, target, dest);
            && u.0 == Done
            && (forall f :: f in m && m[f].File? && source < f && !(target <= f) ==>
                  dest + Below(source, f, keepFolder) in u.1 && u.1[dest + Below(source, f, keepFolder)] == File(m[f].data, None))
            && (forall q :: q in u.1 && dest < q && u.1[q].File? ==>
                  exists f :: f in m && m[f].File? && source < f && !(target <= f) && q == dest + Below(source, f, keepFolder))
  {
    var m1 := Deleted(m, target);
    DeletionKeepsOutside(m, source, target);
    ZipWithoutCollision(m1, source, keepFolder);
    var es := DirEntries(m1, source, keepFolder);
    assert es[..|es|] == es;
    var z := PutFile(m1, target, ArchiveFile(es));
    assert ZipResult(m, source, target, keepFolder) == (Done, z);
    ZipWellFormed(m, source, target, keepFolder);
    UnzipDirEntries(m1, source, keepFolder, z, dest);
    var u := UnZipResult(z, target, dest);
    assert u == ApplyEntries(z, dest, es);
    forall q | q in u.1 && dest < q && u.1[q].File?
      ensures exists f :: f in m && m[f].File? && source < f && !(target <= f) && q == dest + Below(source, f, keepFolder)
    {
      var f :| f in m1 && m1[f].File? && source < f && q == dest + Below(source, f, keepFolder);
      assert f in m && m[f].File? && !(target <= f);
    }
  }

  /** `zip` of a regular file to a target that is not the file or above it,
      then `unZip` of that archive into a destination with nothing below it:
      both complete, the file's bytes are back under its own name directly
      below the destination, and that is the only regular file below it. */
  lemma ZipFileThenUnZip(m: Tree, source: Path, target: Path, keepFolder: bool, dest: Path)
    requires WellFormed(m) && source in m && m[source].File?
    requires !(target <= source)
    requires Parent(target) in m && m[Parent(target)].Dir?
    requires var z := ZipResult(m, source, target, keepFolder).1;
             && (forall k :: 0 <= k <= |dest| && dest[..k] in z ==> z[dest[..k]].Dir?)
             && (forall q :: q in z ==> !(dest < q))
    ensures ZipResult(m, source, target, keepFolder).0 == Done
    ensures var u := UnZipResult(ZipResult(m, source, target, keepFolder).1, target, dest);
            && u.0 == Done
            && dest + [BaseName(source)] in u.1 && u.1[dest + [BaseName(source)]] == File(m[source].data, None)
            && (forall q :: q in u.1 && dest < q && u.1[q].File? ==> q == dest + [BaseName(source)])
  {
    ZipSingleFile(m, source, target, keepFolder);
    ZipWellFormed(m, source, target, keepFolder);
    var z := ZipResult(m, source, target, keepFolder).1;
    var e := Entry(BaseName(source), None, m[source].data);
    var rel: seq<Name> := [Last(source)];
    SplitJoin(rel);
    assert Join(rel) == e.name;
    UnzipOneFile(z, dest, e, rel);
    assert [e][..0] == [];
    assert z[target].archive == Some([e]);
    assert UnZipResult(z, target, dest) == ApplyEntries(z, dest, [e]);
    assert ApplyEntries(z, dest, [e]) == Extract(z, dest, e);
  }

  /** One regular-file entry into a destination with nothing below it: it
      completes, and its file is the only regular file below the
      destination afterwards. */
  lemma UnzipOneFile(m: Tree, dest: Path, e: Entry, rel: seq<Name>)
    requires WellFormed(m) && !IsDirectory(e) && Split(e.name) == rel && rel != []
    requires forall k :: 0 <= k <= |dest| && dest[..k] in m ==> m[dest[..k]].Dir?
    requires forall q :: q in m ==> !(dest < q)
    ensures Extract(m, dest, e).0 == Done
    ensures dest + rel in Extract(m, dest, e).1 && Extract(m, dest, e).1[dest + rel] == File(e.data, None)
    ensures forall q :: q in Extract(m, dest, e).1 && dest < q && Extract(m, dest, e).1[q].File? ==> q == dest + rel
  {
    EmptyDestination(m, dest, [rel]);
    assert [rel][0] == rel;
    ExtractFileAdds(m, dest, e, rel);
  }
}
