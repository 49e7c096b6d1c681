/** Path arithmetic shared by both lineages of the database: the `"\\"` join
    that turns a parent path and a name into a child path, the last segment of
    a path (what `FileInfo.Name` and `DirectoryInfo.Name` report), and the split
    of a file name into its stem and its extension (`FileInfo.Extension`,
    `Path.GetFileNameWithoutExtension`). Nothing here touches the disk. */
module Paths {

  /** The separator every path of the database is built with. */
  const Sep: char := '\\'

  /** The extension of JSON artifacts. */
  const JsonExtension: string := ".json"

  /** The extension of text artifacts. */
  const TextExtension: string := ".txt"

  /** A name a caller may give a category or an artifact: a single,
      non-empty path segment. */
  predicate IsSegment(n: string) {
    |n| > 0 && Sep !in n
  }

  /** An extension as the artifact operations use it: a period followed by
      at least one character, none of them a period or a separator. */
  predicate IsExtension(ext: string) {
    |ext| > 1 && ext[0] == '.' && '.' !in ext[1..] && Sep !in ext
  }

  /** `$"{dir}\\{name}"`: a path strictly beneath `dir` whose part after
      `dir` and one separator is `name`. */
  function Join(dir: string, name: string): (p: string)
    ensures IsBeneath(dir, p) && p[|dir| + 1..] == name
  {
    dir + [Sep] + name
  }

  /** `p` lies strictly beneath the directory `d`. */
  predicate IsBeneath(d: string, p: string) {
    |d| < |p| && p[..|d|] == d && p[|d|] == Sep
  }

  /** `p` is an immediate entry of the directory `d`: beneath it, one
      non-empty segment deeper. */
  predicate IsChild(d: string, p: string) {
    IsBeneath(d, p) && |d| + 1 < |p| && Sep !in p[|d| + 1..]
  }

  /** No element occurs twice. */
  predicate Distinct<T(==)>(s: seq<T>) {
    forall i, j :: 0 <= i < j < |s| ==> s[i] != s[j]
  }

  /** The position of the last occurrence of `c` in `s`, or -1. */
  function LastIndexOf(s: string, c: char): (k: int)
    ensures -1 <= k < |s|
    ensures k >= 0 ==> s[k] == c
    ensures forall i :: k < i < |s| ==> s[i] != c
  {
    if |s| == 0 then -1
    else if s[|s| - 1] == c then |s| - 1
    else LastIndexOf(s[..|s| - 1], c)
  }

  /** The last segment of a path: what follows its last separator. */
  function BaseName(p: string): (n: string)
    ensures Sep !in n
    ensures |n| <= |p| && p[|p| - |n|..] == n
    ensures |n| < |p| ==> p[|p| - |n| - 1] == Sep
  {
    p[LastIndexOf(p, Sep) + 1..]
  }

  /** The extension of a file name: from its last period to its end, or
      empty when it has no period. */
  function Extension(n: string): (ext: string)
    ensures ext == [] <==> '.' !in n
    ensures ext == [] || (ext[0] == '.' && '.' !in ext[1..])
    ensures |ext| <= |n| && n[|n| - |ext|..] == ext
  {
    var k := LastIndexOf(n, '.');
    if k < 0 then [] else n[k..]
  }

  /** A file name without its extension. */
  function Stem(n: string): (s: string)
    ensures s + Extension(n) == n
  {
    var k := LastIndexOf(n, '.');
    if k < 0 then n else n[..k]
  }

  /** `FileInfo.Extension` of a file handle (a path). */
  function FileExtension(p: string): (ext: string)
    ensures ext == [] <==> '.' !in BaseName(p)
    ensures ext == [] || (ext[0] == '.' && '.' !in ext[1..])
    ensures Sep !in ext
  {
    var n := BaseName(p);
    assert Extension(n) == n[|n| - |Extension(n)|..];
    Extension(n)
  }

  /** `Path.GetFileNameWithoutExtension(file.Name)` of a file handle. */
  function FileNameWithoutExtension(p: string): (stem: string)
    ensures stem + FileExtension(p) == BaseName(p)
    ensures Sep !in stem
  {
    var n := BaseName(p);
    assert Stem(n) == (Stem(n) + Extension(n))[..|Stem(n)|];
    Stem(n)
  }

  /** `files.Where(file => file.Extension == ext)`: the handles whose
      extension is exactly `ext`, in their original order. */
  function WithExtension(files: seq<string>, ext: string): (r: seq<string>)
    ensures forall p :: p in r <==> p in files && FileExtension(p) == ext
    ensures |r| <= |files|
  {
    if files == [] then []
    else
      var last := files[|files| - 1];
      WithExtension(files[..|files| - 1], ext) + (if FileExtension(last) == ext then [last] else [])
  }

  /** Filtering a listing without repetitions yields one without repetitions. */
  lemma {:induction false} WithExtensionDistinct(files: seq<string>, ext: string)
    requires Distinct(files)
    ensures Distinct(WithExtension(files, ext))
  {
    if files != [] {
      var init, last := files[..|files| - 1], files[|files| - 1];
      assert Distinct(init) && last !in init;
      WithExtensionDistinct(init, ext);
      if FileExtension(last) == ext {
        DistinctAppend(WithExtension(init, ext), last);
      }
    }
  }

  /** The stems of the handles among `files` whose extension is `ext`: the
      keys the listing operations produce. */
  function Stems(files: set<string>, ext: string): set<string> {
    set p | p in files && FileExtension(p) == ext :: FileNameWithoutExtension(p)
  }

  /** Joining a segment onto a directory yields an immediate entry of that
      directory whose last segment is the name joined. */
  lemma JoinIsChild(d: string, n: string)
    requires IsSegment(n)
    ensures IsChild(d, Join(d, n))
    ensures BaseName(Join(d, n)) == n
  {
    var p := Join(d, n);
    assert p[..|d|] == d && p[|d|] == Sep && p[|d| + 1..] == n;
    var b := BaseName(p);
    if |b| > |n| {
      assert false;
    } else if |b| < |n| {
      assert false;
    }
  }

  /** An immediate entry of `d` is `d` joined with its last segment. */
  lemma ChildIsJoin(d: string, p: string)
    requires IsChild(d, p)
    ensures IsSegment(BaseName(p))
    ensures p == Join(d, BaseName(p))
  {
    var n := p[|d| + 1..];
    assert p == Join(d, n);
    JoinIsChild(d, n);
  }

  /** Two immediate entries of one directory with the same last segment are
      the same path. */
  lemma ChildrenWithSameName(d: string, p: string, q: string)
    requires IsChild(d, p) && IsChild(d, q)
    requires BaseName(p) == BaseName(q)
    ensures p == q
  {
    ChildIsJoin(d, p);
    ChildIsJoin(d, q);
  }

  /** A name followed by an extension splits back into that name and that
      extension. */
  lemma {:induction false} SplitAppended(n: string, ext: string)
    requires IsExtension(ext)
    ensures Extension(n + ext) == ext
    ensures Stem(n + ext) == n
  {
    var s := n + ext;
    var k := LastIndexOf(s, '.');
    assert s[|n|] == '.';
    if k > |n| {
      assert false;
    }
  }

  /** An entry of `d` is `d` joined with its stem followed by its
      extension. */
  lemma ChildSplit(d: string, p: string)
    requires IsChild(d, p)
    ensures p == Join(d, FileNameWithoutExtension(p) + FileExtension(p))
  {
    ChildIsJoin(d, p);
    assert BaseName(p) == FileNameWithoutExtension(p) + FileExtension(p);
  }

  /** Two entries of one directory with the same extension and the same stem
      are the same entry: stripping an extension loses nothing. */
  lemma SameStemSameFile(d: string, p: string, q: string)
    requires IsChild(d, p) && IsChild(d, q)
    requires FileExtension(p) == FileExtension(q)
    ensures FileNameWithoutExtension(p) == FileNameWithoutExtension(q) ==> p == q
  {
    ChildSplit(d, p);
    ChildSplit(d, q);
  }

  /** The elements of a listing, as a set. */
  function Elements(s: seq<string>): set<string> {
    set p | p in s
  }

  /** One more file in a listing adds its stem to the stems when its
      extension is `ext`, and nothing otherwise. */
  lemma StemsAppend(files: seq<string>, file: string, ext: string)
    ensures Stems(Elements(files + [file]), ext)
         == Stems(Elements(files), ext) + (if FileExtension(file) == ext then {FileNameWithoutExtension(file)} else {})
  {
    assert Elements(files + [file]) == Elements(files) + {file};
    StemsUnion(Elements(files), {file}, ext);
    StemsSingle(file, ext);
  }

  /** The stems of a union are the union of the stems. */
  lemma StemsUnion(a: set<string>, b: set<string>, ext: string)
    ensures Stems(a + b, ext) == Stems(a, ext) + Stems(b, ext)
  {
  }

  /** A single file has its stem when its extension is `ext`, and none
      otherwise. */
  lemma StemsSingle(file: string, ext: string)
    ensures Stems({file}, ext) == if FileExtension(file) == ext then {FileNameWithoutExtension(file)} else {}
  {
  }

  /** A file not yet visited contributes a stem not yet listed: the keys a
      listing loop adds for one directory never repeat. */
  lemma NewFileNewStem(d: string, visited: seq<string>, file: string, ext: string)
    requires forall p :: p in visited ==> IsChild(d, p)
    requires IsChild(d, file) && file !in visited && FileExtension(file) == ext
    ensures FileNameWithoutExtension(file) !in Stems(Elements(visited), ext)
  {
    forall q | q in visited && FileExtension(q) == ext
      ensures FileNameWithoutExtension(q) != FileNameWithoutExtension(file)
    {
      SameStemSameFile(d, q, file);
    }
  }

  /** The stems listed for a directory name exactly the artifacts that
      exist: `n` is listed for extension `ext` if and only if the file
      `n + ext` is an entry of the directory. */
  lemma StemListedIffPresent(d: string, entries: set<string>, n: string, ext: string)
    requires forall p :: p in entries ==> IsChild(d, p)
    requires IsExtension(ext) && Sep !in n
    ensures n in Stems(entries, ext) <==> Join(d, n + ext) in entries
  {
    var p := Join(d, n + ext);
    JoinIsChild(d, n + ext);
    SplitAppended(n, ext);
    if n in Stems(entries, ext) {
      var q :| q in entries && FileExtension(q) == ext && FileNameWithoutExtension(q) == n;
      assert BaseName(q) == n + ext;
      ChildrenWithSameName(d, p, q);
    }
    if p in entries {
      assert FileExtension(p) == ext && FileNameWithoutExtension(p) == n;
    }
  }

  /** The stems of the files of a listing whose extension is `ext`, in
      listing order: what the listing loops collect. */
  function StemList(files: seq<string>, ext: string): seq<string> {
    if files == [] then []
    else
      var last := files[|files| - 1];
      StemList(files[..|files| - 1], ext) + (if FileExtension(last) == ext then [FileNameWithoutExtension(last)] else [])
  }

  /** One more file of the listing adds its stem when its extension is
      `ext`, as the loop body does. */
  lemma StemListStep(files: seq<string>, i: nat, ext: string)
    requires i < |files|
    ensures StemList(files[..i + 1], ext) ==
      StemList(files[..i], ext) + (if FileExtension(files[i]) == ext then [FileNameWithoutExtension(files[i])] else [])
  {
    assert files[..i + 1][..i] == files[..i];
  }

  /** A name is collected exactly when some file of the listing has that
      stem and the extension `ext`. */
  lemma {:induction false} StemListMembers(files: seq<string>, ext: string)
    ensures forall n :: n in StemList(files, ext) <==> n in Stems(Elements(files), ext)
  {
    if files != [] {
      var init := files[..|files| - 1];
      StemListMembers(init, ext);
      assert files == init + [files[|files| - 1]];
      assert Elements(files) == Elements(init) + {files[|files| - 1]};
    }
  }

  /** The entries of one directory, listed once each, yield each stem
      once. */
  lemma {:induction false} StemListDistinct(d: string, files: seq<string>, ext: string)
    requires Distinct(files)
    requires forall p :: p in files ==> IsChild(d, p)
    ensures Distinct(StemList(files, ext))
  {
    if files != [] {
      var i := |files| - 1;
      var init, last := files[..i], files[i];
      assert files[..i + 1] == files;
      StemListStep(files, i, ext);
      assert forall p :: p in init ==> p in files;
      StemListDistinct(d, init, ext);
      if FileExtension(last) == ext {
        assert last !in init;
        NewFileNewStem(d, init, last, ext);
        StemListMembers(init, ext);
        DistinctAppend(StemList(init, ext), FileNameWithoutExtension(last));
      }
    }
  }

  /** Appending an element not yet present keeps a sequence without
      repetitions. */
  lemma DistinctAppend<T>(s: seq<T>, x: T)
    requires Distinct(s) && x !in s
    ensures Distinct(s + [x])
  {
  }

  /** A sequence without repetitions has as many elements as its set. */
  lemma {:induction false} DistinctCardinality<T>(s: seq<T>)
    requires Distinct(s)
    ensures |set x | x in s| == |s|
  {
    if s != [] {
      var t := s[..|s| - 1];
      DistinctCardinality(t);
      assert (set x | x in s) == (set x | x in t) + {s[|s| - 1]};
      assert s[|s| - 1] !in t;
    }
  }
}
