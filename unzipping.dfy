/** What `unZip` does to the tree, entry by entry. The file it opens for an
    entry is `new File(destDirPath + separator + name)`: the path string is
    split into its pieces, and the pieces are resolved lexically ("." stays,
    ".." climbs), so an entry name may lead out of the destination, as the
    source allows. */
module Unzipping {
  import opened Common
  import opened Paths
  import opened Streams
  import opened Archive
  import opened FileTree

  /** The pieces of `destDirPath + separator + name`. */
  function Pieces(dest: Path, name: string): seq<string> {
    Split(PathString(dest) + [Sep] + name)
  }

  /** The node a path string of these pieces refers to. */
  function Resolve(pieces: seq<string>): Path {
    Normalize([], pieces)
  }

  /** `createNewFile` can make the file: its last piece is a proper name
      and the directory it resolves into exists. */
  predicate Creatable(m: Tree, pieces: seq<string>) {
    && pieces != []
    && ValidName(pieces[|pieces| - 1])
    && Resolve(pieces[..|pieces| - 1]) in m
    && m[Resolve(pieces[..|pieces| - 1])].Dir?
  }

  /** The empty file `createNewFile` makes. */
  function NewFile(m: Tree, pieces: seq<string>): Tree
    requires Resolve(pieces) !in m && Creatable(m, pieces)
  {
    ResolveLast(pieces);
    AddNode(m, Resolve(pieces), File([], None))
  }

  /** One entry of the loop in `unZip`. A directory entry is `mkdirs` of its
      path, whose result is ignored. A file entry: the parent directories
      are made when the parent is missing; `createNewFile` throws when the
      file is absent and cannot be made; opening the output fails on a
      directory; otherwise the entry's bytes replace the file's content.
      A path string with no parent (the bare root) throws when its parent
      is asked for. */
  function Extract(m: Tree, dest: Path, e: Entry): (Outcome, Tree)
  {
    var ps := Pieces(dest, e.name);
    if IsDirectory(e) then (Done, Mkdirs(m, Resolve(ps)))
    else if ps == [] then (Raised(Failure), m)
    else ExtractFile(m, ps, e.data)
  }

  /** A file entry whose path string splits into the pieces `ps`. */
  function ExtractFile(m: Tree, ps: seq<string>, data: seq<Byte>): (Outcome, Tree)
    requires ps != []
  {
    var parent := Resolve(ps[..|ps| - 1]);
    var m1 := if parent in m then m else Mkdirs(m, parent);
    var t := Resolve(ps);
    if t !in m1 && !Creatable(m1, ps) then (Raised(Failure), m1)
    else
      var m2 := if t in m1 then m1 else NewFile(m1, ps);
      if !CanWrite(m2, t) then (Raised(NotFound), m2)
      else (Done, PutFile(m2, t, File(data, None)))
  }

  /** The entries applied in order; the first one that throws ends the loop. */
  function ApplyEntries(m: Tree, dest: Path, es: seq<Entry>): (Outcome, Tree)
  {
    if es == [] then (Done, m)
    else
      var prev := ApplyEntries(m, dest, es[..|es| - 1]);
      if prev.0.Raised? then prev else Extract(prev.1, dest, es[|es| - 1])
  }

  /** `unZip(zipPath, destDirPath)`: a missing archive is not found; opening
      a directory as a `ZipFile` is not found either, and a regular file
      that is no archive fails; otherwise the entries are applied. */
  function UnZipResult(m: Tree, zipPath: Path, dest: Path): (Outcome, Tree)
  {
    if zipPath !in m || m[zipPath].Dir? then (Raised(NotFound), m)
    else if m[zipPath].archive.None? then (Raised(Failure), m)
    else ApplyEntries(m, dest, m[zipPath].archive.value)
  }

  // ---------------------------------------------------------------------
  // Resolving entry paths.

  /** A leading separator is skipped. */
  lemma SplitSep(s: string)
    ensures Split([Sep] + s) == Split(s)
  {
    assert ([Sep] + s)[1..] == s;
  }

  /** A separator-free word up to a separator (or the end) is one piece. */
  lemma SplitWord(w: string, tail: string)
    requires |w| > 0 && Sep !in w
    requires tail == [] || tail[0] == Sep
    ensures Split(w + tail) == [w] + Split(tail)
  {
    var s := w + tail;
    WordOfName(w, tail);
    assert s[0] == w[0];
    assert s[|w|..] == tail;
  }

  lemma {:induction false} SplitJoinSep(cs: seq<Name>, rest: string)
    ensures Split(Join(cs) + [Sep] + rest) == cs + Split(rest)
  {
    if cs == [] {
      assert Join(cs) + [Sep] + rest == [Sep] + rest;
      SplitSep(rest);
    } else if |cs| == 1 {
      SplitJoinSepOne(cs, rest);
    } else {
      SplitJoinSep(cs[1..], rest);
      SplitJoinSepStep(cs, rest);
    }
  }

  lemma {:induction false} SplitJoinSepOne(cs: seq<Name>, rest: string)
    requires |cs| == 1
    ensures Split(Join(cs) + [Sep] + rest) == cs + Split(rest)
  {
    assert Join(cs) + [Sep] + rest == cs[0] + ([Sep] + rest);
    SplitWord(cs[0], [Sep] + rest);
    SplitSep(rest);
    assert cs == [cs[0]];
  }

  lemma {:induction false} SplitJoinSepStep(cs: seq<Name>, rest: string)
    requires |cs| > 1
    requires Split(Join(cs[1..]) + [Sep] + rest) == cs[1..] + Split(rest)
    ensures Split(Join(cs) + [Sep] + rest) == cs + Split(rest)
  {
    var inner := Join(cs[1..]) + [Sep] + rest;
    JoinSepRegroup(cs, rest);
    SplitWordSep(cs[0], inner);
    var names: seq<string> := cs;
    assert names == [names[0]] + names[1..];
    ConcatAssoc([names[0]], names[1..], Split(rest));
  }

  /** A word, a separator and the rest split into the word and the rest's
      pieces. */
  lemma {:induction false} SplitWordSep(w: string, inner: string)
    requires |w| > 0 && Sep !in w
    ensures Split(w + ([Sep] + inner)) == [w] + Split(inner)
  {
    SplitWord(w, [Sep] + inner);
    SplitSep(inner);
  }

  lemma JoinSepRegroup(cs: seq<Name>, rest: string)
    requires |cs| > 1
    ensures Join(cs) + [Sep] + rest == cs[0] + ([Sep] + (Join(cs[1..]) + [Sep] + rest))
  {
  }

  /** The pieces of an entry's path are the destination's components
      followed by the pieces of the name. */
  lemma PiecesOfDest(dest: Path, name: string)
    ensures Pieces(dest, name) == dest + Split(name)
  {
    var s := PathString(dest) + [Sep] + name;
    assert s[0] == Sep;
    assert s[1..] == Join(dest) + [Sep] + name;
    SplitJoinSep(dest, name);
  }

  /** A last piece that is a proper name descends from where the others lead. */
  lemma ResolveLast(ps: seq<string>)
    requires ps != [] && ValidName(ps[|ps| - 1])
    ensures Resolve(ps) == Resolve(ps[..|ps| - 1]) + [ps[|ps| - 1]]
  {
    var init := ps[..|ps| - 1];
    assert ps == init + [ps[|ps| - 1]];
    NormalizeAppend([], init, [ps[|ps| - 1]]);
  }

  /** Pieces that are all proper names resolve to themselves. */
  lemma ResolveNames(cs: seq<Name>)
    ensures Resolve(cs) == cs
  {
    NormalizeNames([], cs);
  }

  // ---------------------------------------------------------------------
  // What one entry does.

  /** Extracting an entry keeps the tree well formed. */
  lemma ExtractWellFormed(m: Tree, dest: Path, e: Entry)
    requires WellFormed(m)
    ensures WellFormed(Extract(m, dest, e).1)
  {
    var ps := Pieces(dest, e.name);
    if IsDirectory(e) {
      MkdirsKeeps(m, Resolve(ps));
    } else if ps != [] {
      var parent := Resolve(ps[..|ps| - 1]);
      var m1 := if parent in m then m else Mkdirs(m, parent);
      MkdirsKeeps(m, parent);
      var t := Resolve(ps);
      if t in m1 || Creatable(m1, ps) {
        if t !in m1 {
          ResolveLast(ps);
          AddNodeWellFormed(m1, t, File([], None));
        }
        var m2 := if t in m1 then m1 else NewFile(m1, ps);
        if CanWrite(m2, t) {
          PutFileWellFormed(m2, t, File(e.data, None));
        }
      }
    }
  }

  /** Extracting an entry only adds: no node disappears, every directory
      stays a directory, and the only regular file whose content may change
      is the one the entry resolves to. */
  lemma ExtractOnlyAdds(m: Tree, dest: Path, e: Entry)
    requires WellFormed(m)
    ensures m.Keys <= Extract(m, dest, e).1.Keys
    ensures forall q :: q in m && m[q].Dir? ==> Extract(m, dest, e).1[q].Dir?
    ensures forall q :: q in m && m[q].File? && q != Resolve(Pieces(dest, e.name)) ==>
              Extract(m, dest, e).1[q] == m[q]
  {
    var ps := Pieces(dest, e.name);
    if IsDirectory(e) {
      MkdirsKeeps(m, Resolve(ps));
    } else if ps != [] {
      var parent := Resolve(ps[..|ps| - 1]);
      var m1 := if parent in m then m else Mkdirs(m, parent);
      MkdirsKeeps(m, parent);
      var t := Resolve(ps);
      if t in m1 || Creatable(m1, ps) {
        if t !in m1 {
          ResolveLast(ps);
        }
      }
    }
  }

  /** The steps of a file entry after the parent directories were made, for
      a target `t` that is a plain path: `createNewFile` throws when `t` is
      absent and its directory is not there; opening the output fails on a
      directory; otherwise the entry's bytes replace the file's content. */
  ghost function PlaceFile(m1: Tree, t: Path, data: seq<Byte>): (Outcome, Tree)
    requires t != []
  {
    if t !in m1 && !(Parent(t) in m1 && m1[Parent(t)].Dir?) then (Raised(Failure), m1)
    else
      var m2 := if t in m1 then m1 else AddNode(m1, t, File([], None));
      if !CanWrite(m2, t) then (Raised(NotFound), m2) else (Done, PutFile(m2, t, File(data, None)))
  }

  /** A file entry whose name splits into plain names `rel` makes the
      directory above `dest + rel` when it is missing and places the file. */
  lemma ExtractPlainFile(m: Tree, dest: Path, e: Entry, rel: seq<Name>)
    requires !IsDirectory(e) && Split(e.name) == rel && rel != []
    ensures var d := Parent(dest + rel);
            Extract(m, dest, e) == PlaceFile(if d in m then m else Mkdirs(m, d), dest + rel, e.data)
  {
    PiecesOfDest(dest, e.name);
    assert Pieces(dest, e.name) == dest + rel;
    assert Extract(m, dest, e) == ExtractFile(m, dest + rel, e.data);
    PlainFileSteps(m, dest + rel, e.data);
  }

  /** For pieces that are plain names, the file steps are `PlaceFile`. */
  lemma PlainFileSteps(m: Tree, t: Path, data: seq<Byte>)
    requires t != []
    ensures var d := Parent(t);
            ExtractFile(m, t, data) == PlaceFile(if d in m then m else Mkdirs(m, d), t, data)
  {
    ResolveNames(t);
    var d := Parent(t);
    ResolveNames(d);
    assert t[..|t| - 1] == d;
    var m1 := if d in m then m else Mkdirs(m, d);
    assert Creatable(m1, t) <==> d in m1 && m1[d].Dir?;
    if t !in m1 && Creatable(m1, t) {
      assert NewFile(m1, t) == AddNode(m1, t, File([], None));
    }
  }

  /** A file entry whose name is a plain relative path `rel`, extracted where
      nothing on the way is a regular file and the target is not a
      directory, ends with its bytes at `dest + rel`. */
  lemma ExtractFileEntry(m: Tree, dest: Path, e: Entry, rel: seq<Name>)
    requires WellFormed(m) && !IsDirectory(e)
    requires Split(e.name) == rel && rel != []
    requires forall k :: 0 <= k < |dest + rel| && (dest + rel)[..k] in m ==> m[(dest + rel)[..k]].Dir?
    requires dest + rel in m ==> m[dest + rel].File?
    ensures Extract(m, dest, e).0 == Done
    ensures dest + rel in Extract(m, dest, e).1
    ensures Extract(m, dest, e).1[dest + rel] == File(e.data, None)
  {
    var t := dest + rel;
    var d := Parent(t);
    ExtractPlainFile(m, dest, e, rel);
    forall k | 0 <= k <= |d| && d[..k] in m
      ensures m[d[..k]].Dir?
    {
      assert d[..k] == t[..k];
    }
    MkdirsReaches(m, d);
    MkdirsKeeps(m, d);
    assert d[..|d|] == d;
    var m1 := if d in m then m else Mkdirs(m, d);
    assert d in m1 && m1[d].Dir?;
    assert !(t <= d);
    assert t in m1 ==> t in m && m1[t] == m[t] && m1[t].File?;
    var m2 := if t in m1 then m1 else AddNode(m1, t, File([], None));
    assert CanWrite(m2, t);
    PutFileNodes(m2, t, File(e.data, None));
  }

  /** A directory entry whose name is a plain relative path, extracted where
      nothing on the way is a regular file, leaves `dest + rel` and all of
      its ancestors as directories. */
  lemma ExtractDirEntry(m: Tree, dest: Path, e: Entry, rel: seq<Name>)
    requires WellFormed(m) && IsDirectory(e)
    requires Split(e.name) == rel
    requires forall k :: 0 <= k <= |dest + rel| && (dest + rel)[..k] in m ==> m[(dest + rel)[..k]].Dir?
    ensures Extract(m, dest, e).0 == Done
    ensures forall k :: 0 <= k <= |dest + rel| ==>
              (dest + rel)[..k] in Extract(m, dest, e).1 && Extract(m, dest, e).1[(dest + rel)[..k]].Dir?
  {
    PiecesOfDest(dest, e.name);
    ResolveNames(dest + rel);
    MkdirsReaches(m, dest + rel);
  }

  lemma SplitOfEscape()
    ensures Split("../evil") == ["..", "evil"]
  {
    assert "../evil" == ".." + "/evil";
    SplitWord("..", "/evil");
    assert "/evil" == [Sep] + "evil";
    SplitSep("evil");
    assert "evil" == "evil" + [];
    SplitWord("evil", []);
  }

  lemma PiecesOfEscape()
    ensures Pieces(["d"], "../evil") == ["d", "..", "evil"]
  {
    SplitOfEscape();
    PiecesOfDest(["d"], "../evil");
  }

  lemma ResolveUp()
    ensures Resolve(["d", ".."]) == []
  {
    var ps: seq<string> := ["d", ".."];
    assert ps[1..] == [".."] && ps[1..][1..] == [];
    assert Step([], "d") == ["d"];
    assert Step(["d"], "..") == [];
  }

  /** "../evil" below "/d" resolves to "/evil", its parent to the root. */
  lemma ResolveEscape()
    ensures var ps := Pieces(["d"], "../evil");
            && ps == ["d", "..", "evil"]
            && Resolve(ps[..2]) == [] && Resolve(ps) == ["evil"]
  {
    PiecesOfEscape();
    var ps: seq<string> := ["d", "..", "evil"];
    assert ps[..2] == ["d", ".."];
    ResolveUp();
    ResolveLast(ps);
  }

  /** The entry name is not checked: "../evil" extracted into "/d" is
      written to "/evil", outside the destination. */
  lemma ZipSlip(data: seq<Byte>)
    ensures var m := map[[] := Dir(["d"]), ["d"] := Dir([])];
            var r := Extract(m, ["d"], Entry("../evil", None, data));
            && r.0 == Done
            && ["evil"] in r.1 && r.1[["evil"]] == File(data, None)
            && !(["d"] <= ["evil"])
  {
    var m := map[[] := Dir(["d"]), ["d"] := Dir([])];
    var e := Entry("../evil", None, data);
    assert !IsDirectory(e);
    ResolveEscape();
    var ps := Pieces(["d"], e.name);
    assert Extract(m, ["d"], e) == ExtractFile(m, ps, data);
    assert Resolve(ps[..|ps| - 1]) == [] && [] in m;
    assert ["evil"] !in m && Creatable(m, ps);
    var m2 := AddNode(m, ["evil"], File([], None));
    assert NewFile(m, ps) == m2;
    assert CanWrite(m2, ["evil"]);
    assert Extract(m, ["d"], e) == (Done, PutFile(m2, ["evil"], File(data, None)));
  }

  // ---------------------------------------------------------------------
  // The loop over the entries.

  lemma {:induction false} ApplyEntriesWellFormed(m: Tree, dest: Path, es: seq<Entry>)
    requires WellFormed(m)
    ensures WellFormed(ApplyEntries(m, dest, es).1)
  {
    if es != [] {
      ApplyEntriesWellFormed(m, dest, es[..|es| - 1]);
      ExtractWellFormed(ApplyEntries(m, dest, es[..|es| - 1]).1, dest, es[|es| - 1]);
    }
  }

  /** One more entry after a prefix that ran to the end. */
  lemma ApplyEntriesStep(m: Tree, dest: Path, es: seq<Entry>, i: nat)
    requires i < |es|
    requires ApplyEntries(m, dest, es[..i]).0 == Done
    ensures ApplyEntries(m, dest, es[..i + 1]) == Extract(ApplyEntries(m, dest, es[..i]).1, dest, es[i])
  {
    assert es[..i + 1][..i] == es[..i];
  }

  /** Once an entry has thrown, the entries after it change nothing. */
  lemma {:induction false} ApplyEntriesStops(m: Tree, dest: Path, a: seq<Entry>, b: seq<Entry>)
    requires ApplyEntries(m, dest, a).0.Raised?
    ensures ApplyEntries(m, dest, a + b) == ApplyEntries(m, dest, a)
    decreases |b|
  {
    if b == [] {
      assert a + b == a;
    } else {
      var init := b[..|b| - 1];
      assert (a + b)[..|a + b| - 1] == a + init;
      ApplyEntriesStops(m, dest, a, init);
    }
  }

  /** The whole extraction only adds, as each entry does. */
  lemma {:induction false} ApplyEntriesOnlyAdds(m: Tree, dest: Path, es: seq<Entry>)
    requires WellFormed(m)
    ensures m.Keys <= ApplyEntries(m, dest, es).1.Keys
    ensures forall q :: q in m && m[q].Dir? ==> ApplyEntries(m, dest, es).1[q].Dir?
  {
    if es != [] {
      var prev := ApplyEntries(m, dest, es[..|es| - 1]);
      ApplyEntriesOnlyAdds(m, dest, es[..|es| - 1]);
      ApplyEntriesWellFormed(m, dest, es[..|es| - 1]);
      ExtractOnlyAdds(prev.1, dest, es[|es| - 1]);
    }
  }
}
