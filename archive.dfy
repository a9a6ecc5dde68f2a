/** A zip archive as the ordered list of its entries (the container format
    and its compression are below this model). */
module Archive {
  import opened Common
  import opened Streams

  /** An entry as `java.util.zip.ZipEntry` sees it: its name, the size
      declared with `setSize` before its content (`None` when it was never
      set) and its content. */
  datatype Entry = Entry(name: string, size: Option<nat>, data: seq<Byte>)

  /** `ZipEntry.isDirectory()`: the name ends with a slash. */
  predicate IsDirectory(e: Entry) {
    |e.name| > 0 && e.name[|e.name| - 1] == '/'
  }

  function Names(es: seq<Entry>): (r: seq<string>)
    ensures |r| == |es| && forall i :: 0 <= i < |es| ==> r[i] == es[i].name
  {
    if es == [] then [] else Names(es[..|es| - 1]) + [es[|es| - 1].name]
  }

  /** Stand-in for the bytes of the archive file: the entry contents in order. */
  function ArchiveBytes(es: seq<Entry>): seq<Byte>
  {
    if es == [] then [] else ArchiveBytes(es[..|es| - 1]) + es[|es| - 1].data
  }

  /** The position of the first name that repeats an earlier one, or the
      length when every name is new: `ZipOutputStream.putNextEntry` throws
      "duplicate entry" there, so the entries before it are all that end up
      in the archive. */
  function FirstRepeat(names: seq<string>): (k: nat)
    ensures k <= |names|
    ensures NoDup(names[..k])
    ensures k < |names| ==> names[k] in names[..k]
  {
    if names == [] then 0
    else
      var init := names[..|names| - 1];
      var k := FirstRepeat(init);
      assert names[..k] == init[..k];
      if k < |init| then k
      else if names[|names| - 1] in init then |init|
      else
        assert names[..|names|] == init + [names[|names| - 1]];
        NoDupAppend(init, names[|names| - 1]);
        |names|
  }

  /** Names without repeats are all accepted. */
  lemma FirstRepeatNoDup(names: seq<string>)
    requires NoDup(names)
    ensures FirstRepeat(names) == |names|
  {
  }

  /** Scanning the names in order, up to the first repeat: position `i` holds
      a name seen before exactly when it is the first repeat. */
  lemma FirstRepeatAt(names: seq<string>, i: nat)
    requires i <= FirstRepeat(names) && i < |names|
    ensures names[i] in names[..i] <==> i == FirstRepeat(names)
  {
    var k := FirstRepeat(names);
    if i < k {
      forall j | 0 <= j < i
        ensures names[..i][j] != names[i]
      {
        assert names[..k][j] == names[..i][j] && names[..k][i] == names[i];
      }
    }
  }

  /** A repeated name is found: the scan stops before the end. */
  lemma FirstRepeatDup(names: seq<string>, i: nat, j: nat)
    requires i < j < |names| && names[i] == names[j]
    ensures FirstRepeat(names) < |names|
  {
    assert names[..|names|] == names;
  }
}
