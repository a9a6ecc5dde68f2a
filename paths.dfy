/** Names and paths: the string side of `FileUtils` (`File.getName`,
    `File.getAbsolutePath`, `getRealName`, the download-name rule) and the way
    a path string is resolved into components. The host separator is one
    abstract character, `Sep`. */
module Paths {
  import opened Common

  const Sep: char := '/'

  /** A component of a resolved path. */
  predicate ValidName(s: string) {
    |s| > 0 && Sep !in s && s != "." && s != ".."
  }

  type Name = s: string | ValidName(s) witness "a"

  /** A resolved absolute path, as its list of components; `[]` is the root. */
  type Path = seq<Name>

  function Parent(p: Path): Path
    requires p != []
  {
    p[..|p| - 1]
  }

  function Last(p: Path): Name
    requires p != []
  {
    p[|p| - 1]
  }

  /** Components separated by `Sep`. */
  function Join(cs: seq<string>): string
  {
    if cs == [] then ""
    else if |cs| == 1 then cs[0]
    else cs[0] + [Sep] + Join(cs[1..])
  }

  /** `File.getAbsolutePath()` of a resolved path. */
  function PathString(p: Path): string
  {
    [Sep] + Join(p)
  }

  /** `File.getName()`: the last component, the empty string for the root. */
  function BaseName(p: Path): (r: string)
    ensures Sep !in r
    ensures p != [] ==> p == Parent(p) + [r]
    ensures p == [] ==> r == ""
  {
    if p == [] then "" else Last(p)
  }

  lemma {:induction false} JoinAppend(a: seq<string>, b: seq<string>)
    requires a != [] && b != []
    ensures Join(a + b) == Join(a) + [Sep] + Join(b)
  {
    if |a| == 1 {
      assert (a + b)[1..] == b;
    } else {
      assert (a + b)[1..] == a[1..] + b;
      JoinAppend(a[1..], b);
    }
  }

  lemma PathStringAppend(p: Path, rel: Path)
    requires p != [] && rel != []
    ensures PathString(p + rel) == PathString(p) + [Sep] + Join(rel)
  {
    JoinAppend(p, rel);
  }

  // ---------------------------------------------------------------------
  // Splitting a path string into components, and resolving "." and "..".

  /** The longest prefix of `s` without a separator. */
  function Word(s: string): (w: string)
    ensures w <= s && Sep !in w
    ensures |w| < |s| ==> s[|w|] == Sep
    ensures s != [] && s[0] != Sep ==> |w| > 0
  {
    if s == [] || s[0] == Sep then [] else [s[0]] + Word(s[1..])
  }

  /** The non-empty `Sep`-separated pieces of `s`, as `java.io.File`
      normalises them (repeated and trailing separators vanish). */
  function Split(s: string): (r: seq<string>)
    ensures forall i :: 0 <= i < |r| ==> |r[i]| > 0 && Sep !in r[i]
    decreases |s|
  {
    if s == [] then []
    else if s[0] == Sep then Split(s[1..])
    else var w := Word(s); [w] + Split(s[|w|..])
  }

  lemma {:induction false} WordOfName(n: string, rest: string)
    requires Sep !in n
    requires rest == [] || rest[0] == Sep
    ensures Word(n + rest) == n
  {
    if n != [] {
      assert (n + rest)[1..] == n[1..] + rest;
      WordOfName(n[1..], rest);
    }
  }

  /** Splitting a joined list of names gives the names back. */
  lemma {:induction false} SplitJoin(cs: seq<Name>)
    ensures Split(Join(cs)) == cs
  {
    if |cs| == 1 {
      WordOfName(cs[0], []);
      assert cs[0] + [] == cs[0];
      assert cs[0][|cs[0]|..] == [];
    } else if |cs| > 1 {
      var s := cs[0] + [Sep] + Join(cs[1..]);
      assert s == Join(cs);
      assert s == cs[0] + ([Sep] + Join(cs[1..]));
      WordOfName(cs[0], [Sep] + Join(cs[1..]));
      assert s[0] == cs[0][0] != Sep;
      assert s[|cs[0]|..] == [Sep] + Join(cs[1..]);
      assert ([Sep] + Join(cs[1..]))[1..] == Join(cs[1..]);
      SplitJoin(cs[1..]);
      calc {
        Split(s);
        [cs[0]] + Split(s[|cs[0]|..]);
        [cs[0]] + Split(Join(cs[1..]));
        [cs[0]] + cs[1..];
      }
      assert [cs[0]] + cs[1..] == cs;
    }
  }

  /** One step of resolving a component: "." stays, ".." climbs (never above
      the root), anything else descends. */
  function Step(base: Path, piece: string): Path
  {
    if piece == "" || piece == "." then base
    else if piece == ".." then (if base == [] then [] else Parent(base))
    else if Sep in piece then base
    else base + [piece]
  }

  /** Lexical resolution of raw components against `base`, as
      `File.getCanonicalFile` does for components that exist. */
  function Normalize(base: Path, pieces: seq<string>): Path
    decreases |pieces|
  {
    if pieces == [] then base else Normalize(Step(base, pieces[0]), pieces[1..])
  }

  /** Resolving proper names only descends: the structure is kept. */
  lemma {:induction false} NormalizeNames(base: Path, cs: seq<Name>)
    ensures Normalize(base, cs) == base + cs
    decreases |cs|
  {
    if cs != [] {
      assert Step(base, cs[0]) == base + [cs[0]];
      NormalizeNames(base + [cs[0]], cs[1..]);
      assert base + [cs[0]] + cs[1..] == base + cs;
    }
  }

  lemma {:induction false} NormalizeAppend(base: Path, a: seq<string>, b: seq<string>)
    ensures Normalize(base, a + b) == Normalize(Normalize(base, a), b)
    decreases |a|
  {
    if a == [] {
      assert a + b == b;
    } else {
      assert (a + b)[0] == a[0];
      assert (a + b)[1..] == a[1..] + b;
      NormalizeAppend(Step(base, a[0]), a[1..], b);
    }
  }

  // ---------------------------------------------------------------------
  // getRealName: two calls of String.replace(target, "").

  /** `pat` occurs somewhere in `s`. */
  predicate Occurs(pat: string, s: string) {
    exists i :: 0 <= i <= |s| && pat <= s[i..]
  }

  /** `s.replace(pat, "")`: every non-overlapping occurrence of `pat`, found
      from left to right, is removed; an empty `pat` leaves `s` as it is. */
  function RemoveAll(s: string, pat: string): (r: string)
    decreases |s|
  {
    if |pat| == 0 || |s| < |pat| then s
    else if pat <= s then RemoveAll(s[|pat|..], pat)
    else [s[0]] + RemoveAll(s[1..], pat)
  }

  /** `getRealName(sourcePath, file)`. */
  function RealName(sourcePath: string, absolute: string): string
  {
    RemoveAll(RemoveAll(absolute, sourcePath + [Sep]), sourcePath)
  }

  /** A string with no occurrence of `pat` is left unchanged. */
  lemma {:induction false} RemoveAllAbsent(s: string, pat: string)
    requires !Occurs(pat, s)
    ensures RemoveAll(s, pat) == s
    decreases |s|
  {
    if |pat| != 0 && |s| >= |pat| {
      assert s[0..] == s;
      assert !Occurs(pat, s[1..]) by {
        forall i | 0 <= i <= |s| - 1
          ensures !(pat <= s[1..][i..])
        {
          assert s[1..][i..] == s[i + 1..];
        }
      }
      RemoveAllAbsent(s[1..], pat);
    }
  }

  lemma OccursLonger(s: string, pat: string, c: char)
    requires Occurs(pat + [c], s)
    ensures Occurs(pat, s)
  {
    var i :| 0 <= i <= |s| && pat + [c] <= s[i..];
    assert pat <= s[i..];
  }

  /** The property the source relies on: for `source + Sep + rel` with no
      occurrence of `source` inside `rel`, the relative name is `rel`. */
  lemma RealNameOfChild(source: string, rel: string)
    requires !Occurs(source, rel)
    ensures RealName(source, source + [Sep] + rel) == rel
  {
    var pat := source + [Sep];
    var s := source + [Sep] + rel;
    assert s[..|pat|] == pat;
    assert s[|pat|..] == rel;
    if Occurs(pat, rel) {
      OccursLonger(rel, source, Sep);
    }
    RemoveAllAbsent(rel, pat);
    RemoveAllAbsent(rel, source);
  }

  /** The relative entry name of a file below a non-root source directory is
      the list of components below it, joined — when that joined list does
      not itself contain the source path string. */
  lemma RelativeNameOfDescendant(source: Path, rel: Path)
    requires source != [] && rel != []
    requires !Occurs(PathString(source), Join(rel))
    ensures RealName(PathString(source), PathString(source + rel)) == Join(rel)
  {
    PathStringAppend(source, rel);
    RealNameOfChild(PathString(source), Join(rel));
  }

  /** Both `replace` calls remove every occurrence, not only the prefix: with
      source "/d", the files "/d/a/d/b" and "/d/ab" get the same name "ab". */
  lemma RealNameInteriorOccurrence()
    ensures RealName("/d", "/d/a/d/b") == "ab"
    ensures RealName("/d", "/d/ab") == "ab"
  {
    assert "/d/" <= "/d/a/d/b" && "/d/a/d/b"[3..] == "a/d/b";
    assert "a/d/b"[0] != "/d/"[0] && "a/d/b"[1..] == "/d/b";
    assert "/d/" <= "/d/b" && "/d/b"[3..] == "b";
    assert RemoveAll("a/d/b", "/d/") == "ab";
    assert "ab"[0] != "/d"[0] && "ab"[1..] == "b";
    assert "b"[0] != "/d"[0] && "b"[1..] == "";
    assert RemoveAll("ab", "/d") == "ab";
    assert "/d/" <= "/d/ab" && "/d/ab"[3..] == "ab";
    assert "ab"[0] != "/d/"[0];
    assert RemoveAll("ab", "/d/") == "ab";
  }

  // ---------------------------------------------------------------------
  // Download name: filePath.substring(filePath.lastIndexOf("/") + 1).

  /** `s.lastIndexOf(c)`: the last position holding `c`, or -1. */
  function LastIndexOf(s: string, c: char): (r: int)
    ensures -1 <= r < |s|
    ensures r >= 0 ==> s[r] == c
    ensures forall j :: r < j < |s| ==> s[j] != c
  {
    if s == [] then -1
    else if s[|s| - 1] == c then |s| - 1
    else LastIndexOf(s[..|s| - 1], c)
  }

  /** The name offered for a resource download: `newFileName` when it is
      given and non-empty, otherwise the part of `filePath` after its last
      `/` (the whole path when it has none). */
  function DownloadName(filePath: string, newFileName: Option<string>): (r: string)
    ensures newFileName.Some? && newFileName.value != "" ==> r == newFileName.value
    ensures !(newFileName.Some? && newFileName.value != "") ==>
      && '/' !in r
      && ('/' !in filePath ==> r == filePath)
      && ('/' in filePath ==> exists k :: 0 <= k < |filePath| && filePath[k] == '/'
                                         && filePath == filePath[..k + 1] + r)
  {
    if newFileName.Some? && newFileName.value != "" then newFileName.value
    else
      var k := LastIndexOf(filePath, '/');
      SplitAt(filePath, k + 1);
      AfterLastIndex(filePath, '/');
      LastIndexFound(filePath, '/');
      filePath[k + 1..]
  }

  /** What follows the last occurrence holds no more of it. */
  lemma {:induction false} AfterLastIndex(s: string, c: char)
    ensures c !in s[LastIndexOf(s, c) + 1..]
  {
    var k := LastIndexOf(s, c);
    var tail := s[k + 1..];
    forall j | 0 <= j < |tail|
      ensures tail[j] != c
    {
      assert tail[j] == s[k + 1 + j];
    }
  }

  /** The last occurrence is found exactly when there is one. */
  lemma {:induction false} LastIndexFound(s: string, c: char)
    ensures LastIndexOf(s, c) >= 0 <==> c in s
  {
    var k := LastIndexOf(s, c);
    if k >= 0 {
      assert s[k] == c;
    }
    if c in s {
      var j :| 0 <= j < |s| && s[j] == c;
      assert k >= j;
    }
  }
}
