/** `FileUtils` over a filesystem object whose tree its operations update in
    place. The JDK calls the source makes (`File.delete`, `File.mkdirs`,
    `File.createNewFile`, opening and writing a `FileOutputStream`) are the
    primitive methods at the top; the methods below them follow the source's
    own loops and recursion, and each is proved against the function that
    says what it does to the tree. */
module FileUtils {
  import opened Common
  import opened Paths
  import opened Streams
  import opened Archive
  import opened FileTree
  import opened Listing
  import opened Deletion
  import opened Zipping
  import opened Unzipping

  class FileSystem {
    var nodes: Tree

    ghost predicate Valid()
      reads this
    {
      WellFormed(nodes)
    }

    /** A filesystem holding only the root directory. */
    constructor ()
      ensures Valid() && nodes == map[[] := Dir([])]
    {
      nodes := map[[] := Dir([])];
    }

    // -------------------------------------------------------------------
    // JDK primitives.

    /** `File.delete()`: succeeds on a regular file or an empty directory
        other than the root. */
    method Delete(p: Path) returns (ok: bool)
      requires Valid()
      modifies this
      ensures Valid()
      ensures ok == IsLeaf(old(nodes), p)
      ensures ok ==> ParentListed(old(nodes), p) && nodes == RemoveLeaf(old(nodes), p)
      ensures !ok ==> nodes == old(nodes)
    {
      ok := IsLeaf(nodes, p);
      if ok {
        RemoveLeafWellFormed(nodes, p);
        nodes := RemoveLeaf(nodes, p);
      }
    }

    /** `File.mkdirs()`. */
    method MakeDirs(p: Path)
      requires Valid()
      modifies this
      ensures Valid()
      ensures nodes == Mkdirs(old(nodes), p)
    {
      MkdirsKeeps(nodes, p);
      nodes := Mkdirs(nodes, p);
    }

    /** `File.createNewFile()` of the path string with these pieces: false
        when something is there, true when the empty file was made, an
        `IOException` when it cannot be made. */
    method CreateNewFile(ps: seq<string>) returns (r: Result<bool>)
      requires Valid()
      modifies this
      ensures Valid()
      ensures Resolve(ps) in old(nodes) ==> r == Ok(false) && nodes == old(nodes)
      ensures Resolve(ps) !in old(nodes) && Creatable(old(nodes), ps) ==>
                r == Ok(true) && nodes == NewFile(old(nodes), ps)
      ensures Resolve(ps) !in old(nodes) && !Creatable(old(nodes), ps) ==>
                r == Err(Failure) && nodes == old(nodes)
    {
      var t := Resolve(ps);
      if t in nodes {
        return Ok(false);
      }
      if !Creatable(nodes, ps) {
        return Err(Failure);
      }
      ResolveLast(ps);
      AddNodeWellFormed(nodes, t, File([], None));
      nodes := NewFile(nodes, ps);
      return Ok(true);
    }

    /** `new FileOutputStream(p)`: creates `p` empty, or empties it; throws
        when `p` cannot be written. */
    method OpenOutput(p: Path) returns (ok: bool)
      requires Valid()
      modifies this
      ensures Valid()
      ensures ok == CanWrite(old(nodes), p)
      ensures ok ==> nodes == PutFile(old(nodes), p, File([], None))
      ensures !ok ==> nodes == old(nodes)
    {
      ok := CanWrite(nodes, p);
      if ok {
        PutFileWellFormed(nodes, p, File([], None));
        nodes := PutFile(nodes, p, File([], None));
      }
    }

    /** What was written to the open output `p` once it is closed. */
    method Store(p: Path, n: Node)
      requires Valid() && p in nodes && CanWrite(nodes, p) && n.File?
      modifies this
      ensures Valid()
      ensures nodes == old(nodes)[p := n]
    {
      PutFileWellFormed(nodes, p, n);
      nodes := nodes[p := n];
    }

    // -------------------------------------------------------------------
    // deleteFile.

    /** `deleteFile(File)` (and `deleteFile(String)`, which only wraps its
        path in a `File`): every listed child is deleted recursively, then
        the node itself. The answer is that of the last `delete()`: false
        for a missing path and for the root, which is emptied but stays. */
    method DeleteFile(p: Path) returns (ok: bool)
      requires Valid()
      modifies this
      ensures Valid()
      ensures ok <==> p in old(nodes) && p != []
      ensures nodes == Deleted(old(nodes), p)
      decreases Size(nodes, p), 1
    {
      if p !in nodes {
        return false;
      }
      ghost var m := nodes;
      if nodes[p].Dir? {
        DeleteChildren(p);
        if p != [] {
          DirDeleteEnd(m, p);
        }
      } else {
        assert p != [];
        FileDeleteEnd(m, p);
      }
      ok := Delete(p);
    }

    /** The loop `for (File f : fileArr) deleteFile(f);` over the listing
        `listFiles()` returned before the loop. */
    method DeleteChildren(p: Path)
      requires Valid() && p in nodes && nodes[p].Dir?
      modifies this
      ensures Valid()
      ensures nodes == EmptyDir(old(nodes), p)
      decreases Size(nodes, p), 0
    {
      ghost var m := nodes;
      var fileArr := nodes[p].children;
      ClearedStart(m, p);
      for i := 0 to |fileArr|
        invariant Valid()
        invariant nodes == Cleared(m, p, fileArr, i)
      {
        ClearedStep(m, p, i);
        assert nodes.Keys <= m.Keys;
        SubtreeShrinks(m, nodes, p, fileArr[i]);
        var deleted := DeleteFile(p + [fileArr[i]]);
      }
      ClearedEnd(m, p);
    }

    /** `deleteFile(path, flag)`: the children are deleted as by
        `deleteFile`; the node itself only when `flag` holds, and then the
        answer is that of its `delete()`; otherwise the answer is true. */
    method DeleteFileFlag(p: Path, flag: bool) returns (ok: bool)
      requires Valid()
      modifies this
      ensures Valid()
      ensures p !in old(nodes) ==> !ok && nodes == old(nodes)
      ensures p in old(nodes) && flag ==> ok == (p != []) && nodes == Deleted(old(nodes), p)
      ensures p in old(nodes) && !flag ==> ok
      ensures p in old(nodes) && !flag && old(nodes)[p].Dir? ==> nodes == EmptyDir(old(nodes), p)
      ensures p in old(nodes) && !flag && old(nodes)[p].File? ==> nodes == old(nodes)
    {
      if p !in nodes {
        return false;
      }
      ghost var m := nodes;
      if nodes[p].Dir? {
        DeleteChildren(p);
        if p != [] {
          DirDeleteEnd(m, p);
        }
      } else {
        assert p != [];
        FileDeleteEnd(m, p);
      }
      if flag {
        ok := Delete(p);
        return;
      }
      return true;
    }

    // -------------------------------------------------------------------
    // getSourceAllFiles.

    /** `getSourceAllFiles(sourcePath)`: a missing path is not found; a
        regular file has no listing, so the loop over it throws; a directory
        gives the files `AllFiles` describes. */
    method SourceAllFiles(p: Path) returns (r: Result<seq<Path>>)
      requires Valid()
      ensures p !in nodes ==> r == Err(NotFound)
      ensures p in nodes && nodes[p].File? ==> r == Err(Failure)
      ensures p in nodes && nodes[p].Dir? ==> r == Ok(AllFiles(nodes, p))
      decreases Size(nodes, p)
    {
      if p !in nodes {
        return Err(NotFound);
      }
      if nodes[p].File? {
        return Err(Failure);
      }
      var fileArr := nodes[p].children;
      assert ChildrenPresent(nodes, p);
      var fileList: seq<Path> := [];
      for i := 0 to |fileArr|
        invariant fileList == FilesOf(nodes, p, fileArr[..i])
      {
        var f := p + [fileArr[i]];
        assert fileArr[..i + 1][..i] == fileArr[..i];
        if nodes[f].File? {
          fileList := fileList + [f];
        } else {
          SubtreeShrinks(nodes, nodes, p, fileArr[i]);
          var sub := SourceAllFiles(f);
          fileList := fileList + sub.value;
        }
      }
      assert fileArr[..|fileArr|] == fileArr;
      return Ok(fileList);
    }

    // -------------------------------------------------------------------
    // zip.

    /** `zip(sourcePath, zipPath)`: the folder name is kept. */
    method ZipKeepingFolder(source: Path, target: Path) returns (r: Outcome)
      requires Valid()
      modifies this
      ensures Valid()
      ensures (r, nodes) == ZipResult(old(nodes), source, target, true)
    {
      r := Zip(source, target, true);
    }

    /** `zip(sourcePath, zipPath, isKeepFolder)`. */
    method Zip(source: Path, target: Path, keepFolder: bool) returns (r: Outcome)
      requires Valid()
      modifies this
      ensures Valid()
      ensures (r, nodes) == ZipResult(old(nodes), source, target, keepFolder)
    {
      if source !in nodes {
        return Raised(NotFound);
      }
      ghost var m := nodes;
      if target in nodes {
        var deleted := DeleteFile(target);
        if target != [] {
          DeletionRemovesSubtree(m, target);
        }
      }
      assert nodes == Deleted(m, target);
      assert target != [] ==> target !in nodes;
      r := WriteArchive(source, target, keepFolder);
    }

    /** The part of `zip` after the old target is gone: a source that went
        with it leaves nothing to do, otherwise the source is archived. */
    method WriteArchive(source: Path, target: Path, keepFolder: bool) returns (r: Outcome)
      requires Valid() && (target != [] ==> target !in nodes)
      modifies this
      ensures Valid()
      ensures (r, nodes) == ZipInto(old(nodes), source, target, keepFolder)
    {
      if source in nodes && nodes[source].File? {
        r := WriteFileArchive(source, target);
      } else if source in nodes {
        r := WriteDirArchive(source, target, keepFolder);
      } else {
        r := Done;
      }
    }

    /** A regular-file source: one entry named by its base name. */
    method WriteFileArchive(source: Path, target: Path) returns (r: Outcome)
      requires Valid() && source in nodes && nodes[source].File? && (target != [] ==> target !in nodes)
      modifies this
      ensures Valid()
      ensures (r, nodes) == ZipInto(old(nodes), source, target, false)
    {
      ghost var m1 := nodes;
      var isOpen := OpenOutput(target);
      if !isOpen {
        return Raised(NotFound);
      }
      assert source != target && source != Parent(target);
      var data, chunks := Copy(nodes[source].data, ArchiveBufferSize);
      Store(target, ArchiveFile([Entry(BaseName(source), None, data)]));
      PutFileTwice(m1, target, File([], None), ArchiveFile(SingleEntry(m1, source)));
      return Done;
    }

    /** A directory source: the files `getSourceAllFiles` lists, one entry
        each, until a name repeats. */
    method WriteDirArchive(source: Path, target: Path, keepFolder: bool) returns (r: Outcome)
      requires Valid() && source in nodes && nodes[source].Dir? && (target != [] ==> target !in nodes)
      modifies this
      ensures Valid()
      ensures (r, nodes) == ZipInto(old(nodes), source, target, keepFolder)
    {
      ghost var m1 := nodes;
      var listed := SourceAllFiles(source);
      var fileList := listed.value;
      var isOpen := OpenOutput(target);
      if !isOpen {
        return Raised(NotFound);
      }
      PutFileWellFormed(m1, target, File([], None));
      DirEntriesFrom(m1, source, keepFolder, nodes);
      ghost var es := DirEntries(m1, source, keepFolder);
      var entries;
      entries, r := ArchiveEntries(source, fileList, keepFolder, es);
      Store(target, ArchiveFile(entries));
      PutFileTwice(m1, target, File([], None), ArchiveFile(es[..FirstRepeat(Names(es))]));
    }

    /** The loop of `zip` over the listed files of a directory source: each
        file's entry is named, declared, put, and filled by the copy loop;
        `ZipOutputStream` throws at the first name it has seen before. */
    method ArchiveEntries(source: Path, fileList: seq<Path>, keepFolder: bool, ghost es: seq<Entry>)
      returns (entries: seq<Entry>, r: Outcome)
      requires |es| == |fileList|
      requires forall i :: 0 <= i < |fileList| ==>
                 fileList[i] in nodes && nodes[fileList[i]].File? &&
                 es[i] == FileEntry(nodes, source, fileList[i], keepFolder)
      ensures entries == es[..FirstRepeat(Names(es))]
      ensures r == Done <==> FirstRepeat(Names(es)) == |es|
      ensures r == Done || r == Raised(Failure)
    {
      ghost var ns := Names(es);
      ghost var k := FirstRepeat(ns);
      entries := [];
      var names: set<string> := {};
      var i := 0;
      r := Done;
      while i < |fileList|
        invariant 0 <= i <= k
        invariant entries == es[..i]
        invariant forall x :: x in names <==> x in ns[..i]
      {
        var f := fileList[i];
        var name := EntryName(source, f, keepFolder);
        assert name == ns[i];
        FirstRepeatAt(ns, i);
        if name in names {
          r := Raised(Failure);
          break;
        }
        var data, chunks := Copy(nodes[f].data, ArchiveBufferSize);
        entries := entries + [Entry(name, Some(|nodes[f].data|), data)];
        names := names + {name};
        TakeOneMore(es, i);
        TakeOneMore(ns, i);
        i := i + 1;
      }
      assert r == Done ==> i == |es| == k;
    }

    // -------------------------------------------------------------------
    // unZip.

    /** One pass of the loop in `unZip`. */
    method ExtractEntry(dest: Path, e: Entry) returns (r: Outcome)
      requires Valid()
      modifies this
      ensures Valid()
      ensures (r, nodes) == Extract(old(nodes), dest, e)
    {
      var ps := Pieces(dest, e.name);
      if IsDirectory(e) {
        MakeDirs(Resolve(ps));
        return Done;
      }
      if ps == [] {
        return Raised(Failure);
      }
      var parent := Resolve(ps[..|ps| - 1]);
      if parent !in nodes {
        MakeDirs(parent);
      }
      ghost var m2 := nodes;
      var created := CreateNewFile(ps);
      if created.Err? {
        return Raised(Failure);
      }
      var t := Resolve(ps);
      var isOpen := OpenOutput(t);
      if !isOpen {
        return Raised(NotFound);
      }
      var data, chunks := Copy(e.data, ArchiveBufferSize);
      ghost var m3 := if t in m2 then m2 else NewFile(m2, ps);
      Store(t, File(data, None));
      PutFileTwice(m3, t, File([], None), File(e.data, None));
      return Done;
    }

    /** `unZip(zipPath, destDirPath)`: the entries of the archive, in order,
        until one throws. */
    method UnZip(zipPath: Path, dest: Path) returns (r: Outcome)
      requires Valid()
      modifies this
      ensures Valid()
      ensures (r, nodes) == UnZipResult(old(nodes), zipPath, dest)
    {
      if zipPath !in nodes || nodes[zipPath].Dir? {
        return Raised(NotFound);
      }
      if nodes[zipPath].archive.None? {
        return Raised(Failure);
      }
      ghost var m := nodes;
      var entries := nodes[zipPath].archive.value;
      var i := 0;
      while i < |entries|
        invariant 0 <= i <= |entries|
        invariant Valid()
        invariant ApplyEntries(m, dest, entries[..i]) == (Done, nodes)
      {
        ApplyEntriesStep(m, dest, entries, i);
        r := ExtractEntry(dest, entries[i]);
        if r.Raised? {
          ApplyEntriesStops(m, dest, entries[..i + 1], entries[i + 1..]);
          assert entries[..i + 1] + entries[i + 1..] == entries;
          return;
        }
        i := i + 1;
      }
      assert entries[..i] == entries;
      return Done;
    }

    // -------------------------------------------------------------------
    // Downloads.

    /** `downloadFile(filePath, newFileName)`: the name offered is the given
        one, or the file's own name; the body is the file's content sent in
        chunks of at most `BUFFER_SIZE` bytes, or nothing when the file
        cannot be opened. */
    method DownloadFile(p: Path, newFileName: Option<string>)
      returns (name: string, body: seq<Byte>, ghost chunks: seq<seq<Byte>>)
      ensures newFileName.Some? && newFileName.value != "" ==> name == newFileName.value
      ensures !(newFileName.Some? && newFileName.value != "") ==> name == BaseName(p)
      ensures p in nodes && nodes[p].File? ==> body == nodes[p].data
      ensures !(p in nodes && nodes[p].File?) ==> body == []
      ensures Flatten(chunks) == body
      ensures forall k :: 0 <= k < |chunks| ==> 0 < |chunks[k]| <= DownloadBufferSize
    {
      name := if newFileName.Some? && newFileName.value != "" then newFileName.value else BaseName(p);
      if p in nodes && nodes[p].File? {
        body, chunks := Copy(nodes[p].data, DownloadBufferSize);
      } else {
        body, chunks := [], [];
      }
    }
  }

  /** `downloadFileFromResource(filePath, newFileName)`: the name offered is
      the download name; the body is the resource's content, or nothing when
      there is no such resource. */
  method DownloadFileFromResource(filePath: string, newFileName: Option<string>, resource: Option<seq<Byte>>)
    returns (name: string, body: seq<Byte>, ghost chunks: seq<seq<Byte>>)
    ensures name == DownloadName(filePath, newFileName)
    ensures resource.Some? ==> body == resource.value
    ensures resource.None? ==> body == []
    ensures Flatten(chunks) == body
    ensures forall k :: 0 <= k < |chunks| ==> 0 < |chunks[k]| <= DownloadBufferSize
  {
    name := DownloadName(filePath, newFileName);
    if resource.Some? {
      body, chunks := DownloadBody(resource.value);
    } else {
      body, chunks := [], [];
    }
  }
}
