# FileUtils of javaex office, modelled in Dafny

This project models `cn.javaex.office.FileUtils`, the file helper class of the
javaex office library. It covers:

- recursive deletion of a file or directory tree, with and without removing
  the directory itself (`deleteFile`);
- the recursive listing of every regular file below a folder
  (`getSourceAllFiles`);
- the entry-name rule that strips the folder's path from a file's path
  (`getRealName`);
- creating a zip archive from a file or a folder, optionally behind the
  folder's own name (`zip`);
- extracting an archive into a destination folder (`unZip`);
- the buffered byte-copy loops (2048 bytes for downloads, 10 KiB for
  archive entries) and the default download name of a resource
  (`downloadFile`, `downloadFileFromResource`).

The filesystem is an object, `FileUtils.FileSystem`. Its field `nodes` maps
each absolute path (a sequence of names) to a regular file or a directory
with an ordered listing. The predicate `WellFormed` says the tree is rooted
and closed: every node's parent is a directory that lists it, and every
listed child exists.

An archive is a sequence of entries (name, declared size, bytes). A regular
file that holds an archive carries that sequence beside its bytes.

The JDK calls the class makes are the primitive methods of the object:
`File.delete`, `File.mkdirs`, `File.createNewFile`, and opening and writing
a `FileOutputStream`. The class's own loops and recursion are methods built
on them. Each method is proved to leave the tree
exactly as a specification function over the old tree says. The lemmas
state what those functions guarantee.

Modules:

- `Common`: options, results, outcomes and small sequence facts.
- `Paths`: names, path strings, `String.replace` and the download name.
- `Streams`: the `read`/`write` copy loops.
- `Archive`: entries, and where `ZipOutputStream` rejects a duplicate name.
- `FileTree`: the tree, its well-formedness and its primitive updates.
- `Listing`: `getSourceAllFiles`.
- `Deletion`: `deleteFile`.
- `Zipping`: `zip`.
- `Unzipping`: `unZip`.
- `RoundTrip`: unzipping what `zip` wrote.
- `FileUtils`: the filesystem object and its methods.

Where the code behaves surprisingly, the model follows it as written:

- The entry name removes EVERY occurrence of the folder's path string from a
  file's path, not only the leading one: `replace` replaces all occurrences.
  Two different files can then get the same entry name. `zip` then throws
  on the second one and leaves a truncated archive behind: see
  `Paths.RealNameInteriorOccurrence`, `Zipping.ZipCollisionFails` and
  `Zipping.ZipInteriorCollision`.
- `deleteFile(file, false)` on a regular file deletes nothing and returns
  true. `deleteFile` on the root deletes its contents and returns false.
- `unZip` trusts entry names: an entry `../evil` is written outside the
  destination ("zip-slip"). The model reproduces this rather than rejecting
  it: see `Unzipping.ZipSlip`.
- Zipping the root folder: its path string is `/`, so `getRealName` removes
  every separator from a file's path and the entry names come out
  flattened (`/a/b` becomes `ab`). The round-trip lemmas therefore require
  a source other than the root.

## Model

| member | source | states |
|---|---|---|
| `FileUtils.FileSystem.Delete` | src/main/java/cn/javaex/office/FileUtils.java:183 | `File.delete` succeeds exactly on an existing non-root file or empty directory and then removes only that node; otherwise nothing changes |
| `FileUtils.FileSystem.MakeDirs` | src/main/java/cn/javaex/office/FileUtils.java:384 | `mkdirs` leaves the tree as `Mkdirs` says and keeps it well-formed |
| `FileUtils.FileSystem.CreateNewFile` | src/main/java/cn/javaex/office/FileUtils.java:392 | `createNewFile` answers false on an existing path, creates an empty file when its parent directory exists, and throws otherwise |
| `FileUtils.FileSystem.OpenOutput` | src/main/java/cn/javaex/office/FileUtils.java:297 | opening a `FileOutputStream` succeeds exactly when the parent is a directory and the path is no directory, and truncates the file to empty |
| `FileUtils.FileSystem.Store` | src/main/java/cn/javaex/office/FileUtils.java:400 | writing an opened output replaces that one file's node and keeps the tree well-formed |
| `FileUtils.FileSystem.DeleteFile` | src/main/java/cn/javaex/office/FileUtils.java:161-184 | the answer is true exactly when the path existed and is not the root; the new tree is `Deleted` of the old one |
| `FileUtils.FileSystem.DeleteChildren` | src/main/java/cn/javaex/office/FileUtils.java:176-181 | deleting every listed child in turn empties the directory's subtree and keeps the directory |
| `FileUtils.FileSystem.DeleteFileFlag` | src/main/java/cn/javaex/office/FileUtils.java:192-219 | a missing path gives false and no change; with the flag set it is `deleteFile`; without it, a directory is emptied and kept, a file is left alone, and the answer is true |
| `FileUtils.FileSystem.SourceAllFiles` | src/main/java/cn/javaex/office/FileUtils.java:227-247 | a missing source is not found; a regular file (no listing) fails; a directory yields `AllFiles`, and the tree is not changed |
| `FileUtils.FileSystem.ZipKeepingFolder` | src/main/java/cn/javaex/office/FileUtils.java:265-267 | the two-argument `zip` is `zip` keeping the folder's name |
| `FileUtils.FileSystem.Zip` | src/main/java/cn/javaex/office/FileUtils.java:276-358 | outcome and new tree are `ZipResult` of the old tree: missing source is not found, an existing target is deleted first, then the archive is written |
| `FileUtils.FileSystem.WriteArchive` | src/main/java/cn/javaex/office/FileUtils.java:295-345 | after the target is gone, whichever of the two branches applies leaves what `ZipInto` says |
| `FileUtils.FileSystem.WriteFileArchive` | src/main/java/cn/javaex/office/FileUtils.java:296-311 | a regular-file source becomes a one-entry archive under its own name at the target |
| `FileUtils.FileSystem.WriteDirArchive` | src/main/java/cn/javaex/office/FileUtils.java:313-345 | a folder source is listed first, then the target is opened and filled with the entries written before any duplicate name |
| `FileUtils.FileSystem.ArchiveEntries` | src/main/java/cn/javaex/office/FileUtils.java:321-343 | the entry loop writes exactly the entries before the first repeated name, and completes exactly when no name repeats; a repeat is a failure |
| `FileUtils.FileSystem.ExtractEntry` | src/main/java/cn/javaex/office/FileUtils.java:379-405 | one iteration of the `unZip` loop leaves what `Extract` says |
| `FileUtils.FileSystem.UnZip` | src/main/java/cn/javaex/office/FileUtils.java:366-416 | outcome and new tree are `UnZipResult`: a missing archive is not found, else the entries are applied in order until one throws |
| `FileUtils.FileSystem.DownloadFile` | src/main/java/cn/javaex/office/FileUtils.java:107-154 | the header name is the given one when non-empty, else the file's name; the body is the file's bytes, or empty when it cannot be opened, sent in chunks of at most 2048 bytes |
| `FileUtils.DownloadFileFromResource` | src/main/java/cn/javaex/office/FileUtils.java:41-88 | the name is `DownloadName`; the body is the resource's bytes, or empty when there is none, sent in chunks of at most 2048 bytes |
| `Streams.Read` | src/main/java/cn/javaex/office/FileUtils.java:307 | `read` answers -1 at the end, else copies as many bytes as fit and remain, from the stream's position |
| `Streams.Copy` | src/main/java/cn/javaex/office/FileUtils.java:306-309 | the read/write loop writes exactly the source bytes, as non-empty chunks no larger than the buffer |
| `Streams.DownloadBody` | src/main/java/cn/javaex/office/FileUtils.java:75-81 | the download loop sends exactly the content in chunks of at most 2048 bytes |
| `Paths.DownloadName` | src/main/java/cn/javaex/office/FileUtils.java:51-53 | a non-empty new name wins; otherwise the name is what follows the last `/` of the resource path, the whole path when it has none |
| `Paths.LastIndexOf` | src/main/java/cn/javaex/office/FileUtils.java:52 | the index found holds the character and none after it does; -1 when it is absent |
| `Paths.BaseName` | src/main/java/cn/javaex/office/FileUtils.java:301 | `getName` is the last component, which with the parent rebuilds the path; empty for the root |
| `Paths.RemoveAllAbsent` | src/main/java/cn/javaex/office/FileUtils.java:256 | `replace` of a pattern that does not occur leaves the string as it is |
| `Paths.RealNameOfChild` | src/main/java/cn/javaex/office/FileUtils.java:255-257 | a path of the form folder, separator, rest, where the folder does not recur in the rest, has the rest as its real name |
| `Paths.RelativeNameOfDescendant` | src/main/java/cn/javaex/office/FileUtils.java:255-257 | a file below the folder whose remaining path does not contain the folder's path gets that remaining path as its name |
| `Paths.RealNameInteriorOccurrence` | src/main/java/cn/javaex/office/FileUtils.java:256 | with folder `/d`, both `/d/a/d/b` and `/d/ab` get the real name `ab` |
| `Paths.RemoveAll` | src/main/java/cn/javaex/office/FileUtils.java:255-257 | `String.replace(pat, "")`: every non-overlapping occurrence of the pattern, scanned from the left, is removed; its properties are `RemoveAllAbsent` and `RealNameInteriorOccurrence` |
| `Paths.RealName` | src/main/java/cn/javaex/office/FileUtils.java:255-257 | `getRealName`: the folder's path followed by the separator is removed everywhere, then the folder's path alone; `RealNameOfChild` and `RelativeNameOfDescendant` say what that yields below the folder |
| `Paths.Split` | src/main/java/cn/javaex/office/FileUtils.java:382-387 | splitting a path string at `/` into non-empty pieces free of separators, as `new File` reads a path; `SplitJoin` gives it back as the inverse of joining |
| `Paths.Normalize` | src/main/java/cn/javaex/office/FileUtils.java:382-387 | resolving pieces from a base, `.` staying and `..` going up (never above the root), as the operating system reads the path; `NormalizeAppend` states how it composes |
| `Paths.SplitJoin` | src/main/java/cn/javaex/office/FileUtils.java:387 | splitting a joined relative path at the separator gives its components back |
| `Paths.NormalizeAppend` | src/main/java/cn/javaex/office/FileUtils.java:387 | resolving a path string piece by piece is resolving its two halves in turn |
| `Listing.AllFilesSound` | src/main/java/cn/javaex/office/FileUtils.java:236-244 | every listed path is an existing regular file strictly below the folder |
| `Listing.AllFilesComplete` | src/main/java/cn/javaex/office/FileUtils.java:236-244 | every regular file strictly below the folder is listed |
| `Listing.AllFilesNoDup` | src/main/java/cn/javaex/office/FileUtils.java:236-244 | no file is listed twice |
| `FileTree.PutFileWellFormed` | src/main/java/cn/javaex/office/FileUtils.java:317 | writing a file keeps the tree well-formed, adds at most that path and changes no other node but its directory |
| `FileTree.PutFileTwice` | src/main/java/cn/javaex/office/FileUtils.java:396-401 | opening a file and then writing it is the same as writing it at once |
| `FileTree.Mkdirs` | src/main/java/cn/javaex/office/FileUtils.java:384-390 | `mkdirs`: every missing ancestor and then the path itself become empty directories, top-down, until a regular file is in the way; `MkdirsKeeps` and `MkdirsReaches` state what it guarantees |
| `FileTree.MkdirsKeeps` | src/main/java/cn/javaex/office/FileUtils.java:384 | `mkdirs` keeps the tree well-formed, keeps every node, only adds directories on the requested path and never touches a file |
| `FileTree.MkdirsReaches` | src/main/java/cn/javaex/office/FileUtils.java:390 | when no file is in the way, every ancestor of the path and the path itself are directories afterwards |
| `FileTree.RemoveLeafWellFormed` | src/main/java/cn/javaex/office/FileUtils.java:183 | removing a file or empty directory keeps the tree well-formed |
| `FileTree.FileIsLeaf` | src/main/java/cn/javaex/office/FileUtils.java:238 | nothing is below a regular file |
| `Deletion.Deleted` | src/main/java/cn/javaex/office/FileUtils.java:171-184 | the reference for `deleteFile`: a missing path leaves the tree alone, the root is emptied, any other path goes with its subtree and leaves its directory's listing; the lemmas below and `FileSystem.DeleteFile` are about it |
| `Deletion.DeletionWellFormed` | src/main/java/cn/javaex/office/FileUtils.java:171-184 | deleting anything leaves a well-formed tree |
| `Deletion.DeletionRemovesSubtree` | src/main/java/cn/javaex/office/FileUtils.java:171-184 | deleting an existing path removes exactly its subtree, drops only its name from its parent's listing, and changes nothing else |
| `Deletion.DeletionOfRoot` | src/main/java/cn/javaex/office/FileUtils.java:171-184 | deleting the root leaves only an empty root |
| `Deletion.DeletionIdempotent` | src/main/java/cn/javaex/office/FileUtils.java:172-174 | deleting twice is deleting once |
| `Deletion.EmptyDirWellFormed` | src/main/java/cn/javaex/office/FileUtils.java:207-212 | emptying a directory keeps the tree well-formed |
| `Deletion.DeletionSparesSource` | src/main/java/cn/javaex/office/FileUtils.java:290-293 | deleting a target unrelated to the source keeps the source and all its files, and leaves the target writable |
| `Deletion.DeletionKeepsOutside` | src/main/java/cn/javaex/office/FileUtils.java:290-293 | deleting a target that is not the folder or above it keeps the folder a directory, leaves the target writable, and keeps exactly the regular files not at or below the target |
| `Archive.IsDirectory` | src/main/java/cn/javaex/office/FileUtils.java:381 | `ZipEntry.isDirectory`: the entry's name ends with `/` |
| `Archive.FirstRepeatNoDup` | src/main/java/cn/javaex/office/FileUtils.java:331 | names without duplicates are all written |
| `Archive.FirstRepeatAt` | src/main/java/cn/javaex/office/FileUtils.java:331 | up to the first repeat, a name was seen before exactly at the first repeat |
| `Archive.FirstRepeatDup` | src/main/java/cn/javaex/office/FileUtils.java:331 | any duplicate name stops the archive early |
| `Zipping.EntryName` | src/main/java/cn/javaex/office/FileUtils.java:322-328 | the entry name of a listed file: its real name, behind the folder's own name and `/` when the folder is kept; `EntryNameOfDescendant` and `EntryNamesDiffer` state what it yields |
| `Zipping.ZipResult` | src/main/java/cn/javaex/office/FileUtils.java:276-358 | the reference for `zip`: a missing source is not found; otherwise the target is deleted and the archive written as `ZipInto` says; `FileSystem.Zip` and the zipping lemmas are about it |
| `Zipping.ZipWellFormed` | src/main/java/cn/javaex/office/FileUtils.java:276-358 | `zip` keeps the tree well-formed, whatever the outcome |
| `Zipping.ZipReplacesTarget` | src/main/java/cn/javaex/office/FileUtils.java:290-293 | an existing target is replaced: afterwards it is an archive or gone, nothing is below it, and nodes outside it are unchanged |
| `Zipping.ZipSingleFile` | src/main/java/cn/javaex/office/FileUtils.java:296-311 | a regular-file source gives an archive of one entry, named after the file, with no declared size and the file's bytes |
| `Zipping.ZipDirectoryEntries` | src/main/java/cn/javaex/office/FileUtils.java:313-343 | a folder's entries follow its listing one to one: the file's entry name, its length as size, its bytes; every file below the folder is in it |
| `Zipping.ZipSkipsOldTarget` | src/main/java/cn/javaex/office/FileUtils.java:290-315 | nothing from the old target ends up in the archive |
| `Zipping.EntryNameOfDescendant` | src/main/java/cn/javaex/office/FileUtils.java:322-328 | without a recurring folder path, the entry name is the relative path, behind the folder's name when kept, and splits back into it |
| `Zipping.EntryNamesDiffer` | src/main/java/cn/javaex/office/FileUtils.java:322-331 | two different files without a recurring folder path get different entry names |
| `Zipping.ZipWithoutCollision` | src/main/java/cn/javaex/office/FileUtils.java:321-343 | when no file's relative path contains the folder's path, no entry name repeats and every entry is written |
| `Zipping.DirEntriesCollide` | src/main/java/cn/javaex/office/FileUtils.java:321-331 | two different files with the same entry name stop the entry loop early |
| `Zipping.ZipCollisionFails` | src/main/java/cn/javaex/office/FileUtils.java:321-343 | then `zip` fails and leaves an archive with fewer entries than the folder has files |
| `Zipping.CollisionNames` | src/main/java/cn/javaex/office/FileUtils.java:322 | in that folder `/d/a/d/b` and `/d/ab` both get the entry name `ab` |
| `Zipping.ZipInteriorCollision` | src/main/java/cn/javaex/office/FileUtils.java:321-343 | zipping that folder without its name fails |
| `Unzipping.Pieces` | src/main/java/cn/javaex/office/FileUtils.java:382-387 | the path string `destDirPath + File.separator + entry.getName()` split into its pieces |
| `Unzipping.Resolve` | src/main/java/cn/javaex/office/FileUtils.java:382-387 | the node those pieces name, resolved from the root |
| `Unzipping.UnZipResult` | src/main/java/cn/javaex/office/FileUtils.java:366-416 | the reference for `unZip`: a missing archive or a directory is not found, a file that is no archive fails, otherwise every entry is extracted in order until one throws; `FileSystem.UnZip` and the unzipping lemmas are about it |
| `Unzipping.PiecesOfDest` | src/main/java/cn/javaex/office/FileUtils.java:387 | the destination's path, a separator and an entry name split into the destination's components and the name's pieces |
| `Unzipping.ResolveNames` | src/main/java/cn/javaex/office/FileUtils.java:387 | a path of plain names resolves to itself |
| `Unzipping.ExtractWellFormed` | src/main/java/cn/javaex/office/FileUtils.java:379-405 | one entry keeps the tree well-formed, whatever the outcome |
| `Unzipping.ExtractOnlyAdds` | src/main/java/cn/javaex/office/FileUtils.java:379-405 | one entry keeps every node, keeps directories as directories and changes no file but its own target |
| `Unzipping.ExtractFileEntry` | src/main/java/cn/javaex/office/FileUtils.java:386-404 | a file entry whose path is clear of files succeeds and leaves its bytes at the destination joined with its name |
| `Unzipping.ExtractDirEntry` | src/main/java/cn/javaex/office/FileUtils.java:381-384 | a directory entry whose path is clear of files makes every directory on it |
| `Unzipping.ResolveEscape` | src/main/java/cn/javaex/office/FileUtils.java:387 | the name `../evil` below `/d` resolves to `/evil`, outside `/d` |
| `Unzipping.ZipSlip` | src/main/java/cn/javaex/office/FileUtils.java:386-404 | extracting an entry `../evil` into `/d` writes `/evil`, outside the destination |
| `Unzipping.ApplyEntriesWellFormed` | src/main/java/cn/javaex/office/FileUtils.java:378-406 | the whole entry loop keeps the tree well-formed |
| `Unzipping.ApplyEntriesStep` | src/main/java/cn/javaex/office/FileUtils.java:378-406 | after a run of entries that completed, one more entry is its extraction from the state they left |
| `Unzipping.ApplyEntriesStops` | src/main/java/cn/javaex/office/FileUtils.java:378-412 | once an entry throws, later entries have no effect |
| `Unzipping.ApplyEntriesOnlyAdds` | src/main/java/cn/javaex/office/FileUtils.java:378-406 | the entry loop keeps every node and keeps directories as directories |
| `RoundTrip.ExtractFileAdds` | src/main/java/cn/javaex/office/FileUtils.java:386-404 | a file entry at a clear place writes its bytes there and adds nothing but directories on the way |
| `RoundTrip.ApplyFileEntries` | src/main/java/cn/javaex/office/FileUtils.java:378-406 | file entries at clear, prefix-free places all succeed, each leaving its bytes at its place, changing no other file |
| `RoundTrip.ArchivePathsNames` | src/main/java/cn/javaex/office/FileUtils.java:322-328 | the entries of a folder are file entries whose names split into the files' paths below the folder |
| `RoundTrip.ArchivePathsFree` | src/main/java/cn/javaex/office/FileUtils.java:236-244 | no file's path below the folder is a prefix of another's |
| `RoundTrip.UnzipDirEntries` | src/main/java/cn/javaex/office/FileUtils.java:378-406 | extracting a folder's entries into an empty destination succeeds, restores every file below the source, changes no existing file, and every regular file below the destination afterwards is one of the source's files restored |
| `RoundTrip.PlacedBelowDest` | src/main/java/cn/javaex/office/FileUtils.java:378-406 | after those entries, every regular file below the destination is the place of one of the source's files |
| `RoundTrip.ZipThenUnZip` | src/main/java/cn/javaex/office/FileUtils.java:261-416 | zipping a folder without name collisions into a target that is not the folder or above it (inside it, as in the documented example, is allowed) succeeds; unzipping the archive into an empty destination then succeeds, puts every file of the folder but the old target's back at its relative path with its bytes, and leaves no other regular file below the destination |
| `RoundTrip.UnzipOneFile` | src/main/java/cn/javaex/office/FileUtils.java:386-404 | one file entry into an empty destination completes, and its file is then the only regular file below the destination |
| `RoundTrip.ZipFileThenUnZip` | src/main/java/cn/javaex/office/FileUtils.java:296-311 | zipping a regular file and unzipping the archive into an empty destination both complete, and the destination then holds exactly one regular file, under the file's own name, with its bytes |

## Left out

- Servlet responses: the content type, `Content-disposition` and `Content-Length` headers and URL-encoding of the name are not modelled; a download is its name and its body.
- Resolving a relative path with `PathUtils` and the project directory (`downloadFile`, lines 110-119) is not part of this model; paths are given already resolved and absolute.
- Class-path resources: `PathUtils.getInputStreamFromResource` becomes a parameter holding the resource's bytes or nothing.
- The `String` overloads of `deleteFile` only wrap the path in a `File`; they are the same methods on paths here.
- The zip container format and compression: an archive file's bytes are a stand-in (its entries' bytes concatenated), and its entries are kept beside them. The entries survive only on the file that `zip` writes: a byte-level copy of an archive, such as a `.zip` extracted from another archive, has no entries beside its bytes, so `unZip` of it fails, where `new ZipFile` would parse the bytes; two different entry lists can also have the same stand-in bytes.
- Closing streams (`close`, `closeQuietly`) and exception re-wrapping: a thrown exception becomes `Raised(NotFound)` or `Raised(Failure)`.
- Operating-system failures (permissions, full disks, concurrent changes): `File.delete` of a file or empty directory always succeeds.
- Physical resolution of entry paths: `..` is resolved lexically, by dropping the previous component, also when that component is missing or is a regular file. The operating system refuses such a path instead. For example, with only the root present, the entry `../evil` extracted into the missing `/d` is written to `/evil` (`/d` is never created), whereas `mkdirs` of `/d/..` fails, `createNewFile("/d/../evil")` throws and nothing is written; `createNewFile("f/..")` when `f` is a file throws likewise. Links are not modelled either. This concerns `Unzipping.Extract`, `FileUtils.FileSystem.ExtractEntry` and `FileUtils.FileSystem.CreateNewFile`.
- Short reads: `read` always delivers as many bytes as fit and remain.
- The host separator: `File.separator` is `/` throughout, so the kept folder name is joined with `/`.
- `FileUtils.FileSystem.UnZip`: a `ZipFile` reads its entry list when it is opened, so unzipping onto the archive's own path does not change the entries; the model reads the entries once as well, but does not model a partly overwritten archive's bytes.
- The `ExcelStyle` annotation and the rest of the library are not part of this model.
