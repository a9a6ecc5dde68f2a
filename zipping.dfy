/** What `zip(sourcePath, zipPath, isKeepFolder)` does to the tree. The
    source is checked first; an existing target is then deleted whole with
    `deleteFile`; a regular-file source becomes a one-entry archive, a
    directory source one entry per file that `getSourceAllFiles` lists,
    named by `getRealName` (behind the folder's own name when it is kept)
    and declaring the file's length. `ZipOutputStream` refuses a name it has
    already been given, which ends the loop; the archive still holds the
    entries before it, since closing the stream finishes it. */
module Zipping {
  import opened Common
  import opened Paths
  import opened Streams
  import opened Archive
  import opened FileTree
  import opened Listing
  import opened Deletion

  /** The entry name of file `f` of directory `source`. */
  function EntryName(source: Path, f: Path, keepFolder: bool): string {
    var name := RealName(PathString(source), PathString(f));
    if keepFolder then BaseName(source) + [Sep] + name else name
  }

  /** The entry of a listed file: its name, its length as declared size,
      its content. */
  function FileEntry(m: Tree, source: Path, f: Path, keepFolder: bool): Entry
    requires f in m && m[f].File?
  {
    Entry(EntryName(source, f, keepFolder), Some(|m[f].data|), m[f].data)
  }

  /** The entries of a directory source, in listing order. */
  ghost function DirEntries(m: Tree, source: Path, keepFolder: bool): seq<Entry>
    requires WellFormed(m) && source in m && m[source].Dir?
  {
    var fs := AllFiles(m, source);
    AllFilesSound(m, source);
    seq(|fs|, i requires 0 <= i < |fs| => FileEntry(m, source, fs[i], keepFolder))
  }

  /** The single entry of a regular-file source: its name, no declared size. */
  function SingleEntry(m: Tree, source: Path): seq<Entry>
    requires source in m && m[source].File?
  {
    [Entry(BaseName(source), None, m[source].data)]
  }

  /** The steps after the target has been deleted: a source that went with
      it leaves nothing to do; opening the target fails when it cannot be
      written; otherwise the archive is written. */
  ghost function ZipInto(m: Tree, source: Path, target: Path, keepFolder: bool): (Outcome, Tree)
    requires WellFormed(m)
  {
    if source !in m then (Done, m)
    else if !CanWrite(m, target) then (Raised(NotFound), m)
    else if m[source].File? then (Done, PutFile(m, target, ArchiveFile(SingleEntry(m, source))))
    else
      var es := DirEntries(m, source, keepFolder);
      var k := FirstRepeat(Names(es));
      (if k == |es| then Done else Raised(Failure), PutFile(m, target, ArchiveFile(es[..k])))
  }

  /** `zip(sourcePath, zipPath, isKeepFolder)`. */
  ghost function ZipResult(m: Tree, source: Path, target: Path, keepFolder: bool): (Outcome, Tree)
    requires WellFormed(m)
  {
    if source !in m then (Raised(NotFound), m)
    else
      DeletionWellFormed(m, target);
      ZipInto(Deleted(m, target), source, target, keepFolder)
  }

  // ---------------------------------------------------------------------
  // Properties.

  /** `zip` keeps the tree well formed. */
  lemma ZipWellFormed(m: Tree, source: Path, target: Path, keepFolder: bool)
    requires WellFormed(m)
    ensures WellFormed(ZipResult(m, source, target, keepFolder).1)
  {
    if source in m {
      var m1 := Deleted(m, target);
      DeletionWellFormed(m, target);
      if source in m1 && CanWrite(m1, target) {
        if m1[source].File? {
          PutFileWellFormed(m1, target, ArchiveFile(SingleEntry(m1, source)));
        } else {
          var es := DirEntries(m1, source, keepFolder);
          PutFileWellFormed(m1, target, ArchiveFile(es[..FirstRepeat(Names(es))]));
        }
      }
    }
  }

  /** Whatever the outcome, what was in the target before is gone: the
      target is either absent or a fresh archive, nothing below it is left,
      and nothing outside it changes but its directory's listing. */
  lemma ZipReplacesTarget(m: Tree, source: Path, target: Path, keepFolder: bool)
    requires WellFormed(m) && source in m && target != [] && target in m
    ensures var r := ZipResult(m, source, target, keepFolder).1;
            && (target in r ==> r[target].File? && r[target].archive.Some?)
            && (forall q :: q in r ==> !(target < q))
            && (forall q :: q in m && !(target <= q) && q != Parent(target) ==> q in r && r[q] == m[q])
  {
    var m1 := Deleted(m, target);
    DeletionRemovesSubtree(m, target);
    DeletionWellFormed(m, target);
    var r := ZipResult(m, source, target, keepFolder).1;
    if source in m1 && CanWrite(m1, target) {
      if m1[source].File? {
        PutFileWellFormed(m1, target, ArchiveFile(SingleEntry(m1, source)));
      } else {
        var es := DirEntries(m1, source, keepFolder);
        PutFileWellFormed(m1, target, ArchiveFile(es[..FirstRepeat(Names(es))]));
      }
    }
  }

  /** A regular-file source, not the target itself, becomes a one-entry
      archive at the target: named by the file's base name, with no declared
      size, holding its bytes. */
  lemma ZipSingleFile(m: Tree, source: Path, target: Path, keepFolder: bool)
    requires WellFormed(m) && source in m && m[source].File?
    requires !(target <= source) && Parent(target) in m && m[Parent(target)].Dir?
    ensures ZipResult(m, source, target, keepFolder).0 == Done
    ensures var r := ZipResult(m, source, target, keepFolder).1;
            && target in r
            && r[target].archive == Some([Entry(BaseName(source), None, m[source].data)])
  {
    DeletionWellFormed(m, target);
    if target in m {
      DeletionRemovesSubtree(m, target);
      assert source != Parent(target);
    }
  }

  /** Two listed files whose entry names collide stop the entries early. */
  lemma DirEntriesCollide(m: Tree, source: Path, keepFolder: bool, f: Path, g: Path)
    requires WellFormed(m) && source in m && m[source].Dir?
    requires f in m && m[f].File? && source < f && g in m && m[g].File? && source < g && f != g
    requires EntryName(source, f, keepFolder) == EntryName(source, g, keepFolder)
    ensures FirstRepeat(Names(DirEntries(m, source, keepFolder))) < |DirEntries(m, source, keepFolder)|
  {
    AllFilesComplete(m, source, f);
    AllFilesComplete(m, source, g);
    var fs := AllFiles(m, source);
    var i :| 0 <= i < |fs| && fs[i] == f;
    var j :| 0 <= j < |fs| && fs[j] == g;
    EntryNamesAt(m, source, keepFolder, i, j);
    var ns := Names(DirEntries(m, source, keepFolder));
    if i < j {
      FirstRepeatDup(ns, i, j);
    } else {
      FirstRepeatDup(ns, j, i);
    }
  }

  /** The names of two entries of a directory source are those of the files
      at the same places of the listing. */
  lemma EntryNamesAt(m: Tree, source: Path, keepFolder: bool, i: nat, j: nat)
    requires WellFormed(m) && source in m && m[source].Dir?
    requires i < |AllFiles(m, source)| && j < |AllFiles(m, source)|
    ensures |Names(DirEntries(m, source, keepFolder))| == |AllFiles(m, source)|
    ensures Names(DirEntries(m, source, keepFolder))[i] == EntryName(source, AllFiles(m, source)[i], keepFolder)
    ensures Names(DirEntries(m, source, keepFolder))[j] == EntryName(source, AllFiles(m, source)[j], keepFolder)
  {
    AllFilesSound(m, source);
    var fs := AllFiles(m, source);
    assert fs[i] in fs && fs[j] in fs;
  }

  /** Once the target is writable, colliding entry names make writing the
      archive throw, with fewer entries than the source has files. */
  lemma ZipIntoCollision(m: Tree, source: Path, target: Path, keepFolder: bool, f: Path, g: Path)
    requires WellFormed(m) && source in m && m[source].Dir? && CanWrite(m, target)
    requires f in m && m[f].File? && source < f && g in m && m[g].File? && source < g && f != g
    requires EntryName(source, f, keepFolder) == EntryName(source, g, keepFolder)
    ensures ZipInto(m, source, target, keepFolder).0 == Raised(Failure)
    ensures var r := ZipInto(m, source, target, keepFolder).1;
            && target in r && r[target].archive.Some?
            && |r[target].archive.value| < |AllFiles(m, source)|
  {
    DirEntriesCollide(m, source, keepFolder, f, g);
    var es := DirEntries(m, source, keepFolder);
    var k := FirstRepeat(Names(es));
    assert |es[..k]| < |es| == |AllFiles(m, source)|;
    ZipIntoDirectory(m, source, target, keepFolder);
    PutFileNodes(m, target, ArchiveFile(es[..k]));
  }

  /** Writing the archive of a directory source to a writable target. */
  lemma ZipIntoDirectory(m: Tree, source: Path, target: Path, keepFolder: bool)
    requires WellFormed(m) && source in m && m[source].Dir? && CanWrite(m, target)
    ensures var es := DirEntries(m, source, keepFolder);
            var k := FirstRepeat(Names(es));
            ZipInto(m, source, target, keepFolder)
              == (if k == |es| then Done else Raised(Failure), PutFile(m, target, ArchiveFile(es[..k])))
  { }

  /** Two files below a directory source whose entry names collide make
      `zip` throw: the archive at the target is left with fewer entries than
      the source has files. */
  lemma ZipCollisionFails(m: Tree, source: Path, target: Path, keepFolder: bool, f: Path, g: Path)
    requires WellFormed(m) && source in m && m[source].Dir?
    requires !(target <= source) && !(source <= target) && Parent(target) in m && m[Parent(target)].Dir?
    requires f in m && m[f].File? && source < f && g in m && m[g].File? && source < g && f != g
    requires EntryName(source, f, keepFolder) == EntryName(source, g, keepFolder)
    ensures ZipResult(m, source, target, keepFolder).0 == Raised(Failure)
    ensures var r := ZipResult(m, source, target, keepFolder).1;
            var m1 := Deleted(m, target);
            && WellFormed(m1) && source in m1 && m1[source].Dir?
            && target in r && r[target].archive.Some?
            && |r[target].archive.value| < |AllFiles(m1, source)|
  {
    var m1 := Deleted(m, target);
    DeletionSparesSource(m, source, target);
    ZipIntoCollision(m1, source, target, keepFolder, f, g);
    assert ZipResult(m, source, target, keepFolder) == ZipInto(m1, source, target, keepFolder);
  }

  /** A folder "/d" holding "/d/a/d/b" and "/d/ab": both files are named "ab"
      once the folder's path is removed from theirs. */
  function CollisionTree(): Tree {
    map[[] := Dir(["d"]), ["d"] := Dir(["a", "ab"]), ["d", "a"] := Dir(["d"]),
        ["d", "a", "d"] := Dir(["b"]), ["d", "a", "d", "b"] := File([], None),
        ["d", "ab"] := File([], None)]
  }

  lemma CollisionTreeWellFormed()
    ensures WellFormed(CollisionTree())
  {
    CollisionParents();
    CollisionChildren();
  }

  lemma CollisionParents()
    ensures forall p :: p in CollisionTree() && p != [] ==> ParentListed(CollisionTree(), p)
  {
    var m := CollisionTree();
    forall p | p in m && p != []
      ensures ParentListed(m, p)
    {
      if p == ["d"] {
      } else if p == ["d", "a"] {
        assert Parent(p) == ["d"];
      } else if p == ["d", "ab"] {
        assert Parent(p) == ["d"];
      } else if p == ["d", "a", "d"] {
        assert Parent(p) == ["d", "a"];
      } else {
        assert p == ["d", "a", "d", "b"];
        assert Parent(p) == ["d", "a", "d"];
      }
    }
  }

  lemma CollisionChildren()
    ensures forall p :: p in CollisionTree() && CollisionTree()[p].Dir? ==> ChildrenPresent(CollisionTree(), p)
  {
    var m := CollisionTree();
    forall p | p in m && m[p].Dir?
      ensures ChildrenPresent(m, p)
    {
      if p == [] {
        assert [] + ["d"] == ["d"];
      } else if p == ["d"] {
        assert p + ["a"] == ["d", "a"] && p + ["ab"] == ["d", "ab"];
      } else if p == ["d", "a"] {
        assert p + ["d"] == ["d", "a", "d"];
      } else {
        assert p == ["d", "a", "d"];
        assert p + ["b"] == ["d", "a", "d", "b"];
      }
    }
  }

  lemma CollisionNames()
    ensures EntryName(["d"], ["d", "a", "d", "b"], false) == EntryName(["d"], ["d", "ab"], false) == "ab"
  {
    assert Join(["b"]) == "b";
    assert Join(["d", "b"]) == "d/b";
    assert Join(["a", "d", "b"]) == "a/d/b";
    assert PathString(["d", "a", "d", "b"]) == "/d/a/d/b";
    assert PathString(["d", "ab"]) == "/d/ab";
    assert PathString(["d"]) == "/d";
    RealNameInteriorOccurrence();
  }

  /** Zipping that folder to "/z" without its own name throws after the first
      entry: the two files collide on the entry name "ab". */
  lemma ZipInteriorCollision()
    ensures WellFormed(CollisionTree())
    ensures ZipResult(CollisionTree(), ["d"], ["z"], false).0 == Raised(Failure)
  {
    var m := CollisionTree();
    CollisionTreeWellFormed();
    CollisionNames();
    assert Parent(["z"]) == [] && m[[]].Dir?;
    assert ["d"] < ["d", "a", "d", "b"] && ["d"] < ["d", "ab"];
    ZipCollisionFails(m, ["d"], ["z"], false, ["d", "a", "d", "b"], ["d", "ab"]);
  }

  /** The entries of a directory source never come from the old target:
      they are read after it was deleted. */
  lemma ZipSkipsOldTarget(m: Tree, source: Path, target: Path)
    requires WellFormed(m) && target != []
    requires source in Deleted(m, target) && Deleted(m, target)[source].Dir?
    ensures WellFormed(Deleted(m, target))
    ensures forall f :: f in AllFiles(Deleted(m, target), source) ==> f in m && !(target <= f)
  {
    DeletionWellFormed(m, target);
    AllFilesSound(Deleted(m, target), source);
    if target in m {
      DeletionRemovesSubtree(m, target);
    } else {
      forall f | f in m
        ensures !(target <= f)
      {
        if |target| <= |f| {
          if |target| < |f| {
            AncestorIsDir(m, f, |target|);
          } else {
            assert f[..|target|] == f;
          }
          assert f[..|target|] in m;
          assert f[..|target|] != target;
        }
      }
    }
  }

  /** The archive of a directory source that completes holds exactly its
      files: entry `i` is the `i`-th listed file, named by its relative
      name, declaring its length and holding its bytes; every regular file
      below the source is one of them. */
  lemma ZipDirectoryEntries(m: Tree, source: Path, keepFolder: bool)
    requires WellFormed(m) && source in m && m[source].Dir?
    ensures var es := DirEntries(m, source, keepFolder);
            var fs := AllFiles(m, source);
            && |es| == |fs|
            && (forall i :: 0 <= i < |es| ==>
                  && fs[i] in m && m[fs[i]].File? && source < fs[i]
                  && es[i].name == EntryName(source, fs[i], keepFolder)
                  && es[i].size == Some(|es[i].data|)
                  && es[i].data == m[fs[i]].data)
            && (forall f :: f in m && m[f].File? && source < f ==> f in fs)
  {
    AllFilesSound(m, source);
    forall f | f in m && m[f].File? && source < f
      ensures f in AllFiles(m, source)
    {
      AllFilesComplete(m, source, f);
    }
  }

  /** The entries of a directory source can be read off any tree that holds
      the same regular files below it. */
  lemma DirEntriesFrom(m: Tree, source: Path, keepFolder: bool, m': Tree)
    requires WellFormed(m) && source in m && m[source].Dir?
    requires forall f :: f in m && m[f].File? && source < f ==> f in m' && m'[f] == m[f]
    ensures var fs := AllFiles(m, source);
            && |DirEntries(m, source, keepFolder)| == |fs|
            && forall i :: 0 <= i < |fs| ==>
                 && fs[i] in m' && m'[fs[i]].File?
                 && DirEntries(m, source, keepFolder)[i] == FileEntry(m', source, fs[i], keepFolder)
  {
    AllFilesSound(m, source);
  }

  /** For a file `source + rel` whose relative name does not contain the
      source path, the entry name is the relative path, behind the folder's
      name when it is kept, and splitting it gives the components back. */
  lemma EntryNameOfDescendant(source: Path, rel: Path)
    requires source != [] && rel != []
    requires !Occurs(PathString(source), Join(rel))
    ensures EntryName(source, source + rel, false) == Join(rel)
    ensures EntryName(source, source + rel, true) == Join([Last(source)] + rel)
    ensures Split(EntryName(source, source + rel, false)) == rel
    ensures Split(EntryName(source, source + rel, true)) == [Last(source)] + rel
  {
    RelativeNameOfDescendant(source, rel);
    JoinAppend([Last(source)], rel);
    SplitJoin(rel);
    SplitJoin([Last(source)] + rel);
  }

  /** Joining is one-to-one on lists of names. */
  lemma JoinInjective(a: seq<Name>, b: seq<Name>)
    requires a != b
    ensures Join(a) != Join(b)
  {
    SplitJoin(a);
    SplitJoin(b);
  }

  /** Two different files below the source, neither of whose relative
      paths contains the source path, get different entry names. */
  lemma EntryNamesDiffer(source: Path, a: Path, b: Path, keepFolder: bool)
    requires source != [] && source < a && source < b && a != b
    requires !Occurs(PathString(source), Join(a[|source|..]))
    requires !Occurs(PathString(source), Join(b[|source|..]))
    ensures EntryName(source, a, keepFolder) != EntryName(source, b, keepFolder)
  {
    var ra, rb := a[|source|..], b[|source|..];
    assert a == source + ra && b == source + rb;
    EntryNameOfDescendant(source, ra);
    EntryNameOfDescendant(source, rb);
    if keepFolder {
      assert ([Last(source)] + ra)[1..] == ra && ([Last(source)] + rb)[1..] == rb;
      JoinInjective([Last(source)] + ra, [Last(source)] + rb);
    } else {
      JoinInjective(ra, rb);
    }
  }

  /** When no file's relative path contains the source path, the entry
      names are all different, so `zip` of a directory writes every file and
      completes. */
  lemma ZipWithoutCollision(m: Tree, source: Path, keepFolder: bool)
    requires WellFormed(m) && source in m && m[source].Dir? && source != []
    requires forall f :: f in m && m[f].File? && source < f ==>
               !Occurs(PathString(source), Join(f[|source|..]))
    ensures NoDup(Names(DirEntries(m, source, keepFolder)))
    ensures FirstRepeat(Names(DirEntries(m, source, keepFolder))) == |DirEntries(m, source, keepFolder)|
  {
    var es := DirEntries(m, source, keepFolder);
    var fs := AllFiles(m, source);
    var ns := Names(es);
    ZipDirectoryEntries(m, source, keepFolder);
    AllFilesNoDup(m, source);
    forall i, j | 0 <= i < j < |ns|
      ensures ns[i] != ns[j]
    {
      assert ns[i] == EntryName(source, fs[i], keepFolder);
      assert ns[j] == EntryName(source, fs[j], keepFolder);
      assert fs[i] != fs[j];
      EntryNamesDiffer(source, fs[i], fs[j], keepFolder);
    }
    FirstRepeatNoDup(ns);
  }
}
