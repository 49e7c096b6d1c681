/** The part of `System.IO` the database relies on, as model state: a disk is
    a set of directory paths and a map from file paths to their contents.
    The functions on `Fs` say what each primitive does to a disk; the class
    `FileSystem` is the one mutable disk that every database and category
    handle shares, and its methods are proved against those functions. */
module SystemIO {
  import opened Paths

  newtype byte = b: int | 0 <= b < 256

  datatype Option<T> = None | Some(value: T)

  /** The error kinds the operations surface: a missing directory or file,
      a platform refusal (a file where a directory is wanted or the other
      way round, a non-empty directory), and content the codec rejects. */
  datatype IoError = NotFound | IOFailure | DecodeFailure

  datatype Result<T> = Ok(value: T) | Err(error: IoError) {
    predicate IsFailure() {
      Err?
    }

    function PropagateFailure<U>(): Result<U>
      requires Err?
    {
      Err(error)
    }

    function Extract(): T
      requires Ok?
    {
      value
    }
  }

  /** The result of an operation that returns nothing (a `void` method that
      may throw). */
  datatype Outcome = Done | Fail(error: IoError)

  /** What a file holds: text written by `WriteAllText` or bytes written by
      `WriteAllBytes` and streams. */
  datatype Content = Text(text: string) | Binary(bytes: seq<byte>)

  /** `File.ReadAllText`: text reads back as written; bytes are read one
      character per byte. */
  function AsText(c: Content): (t: string)
    ensures c.Text? ==> t == c.text
    ensures c.Binary? ==> |t| == |c.bytes| && forall i :: 0 <= i < |t| ==> t[i] as int == c.bytes[i] as int
  {
    match c
    case Text(t) => t
    case Binary(b) => seq(|b|, i requires 0 <= i < |b| => b[i] as int as char)
  }

  /** A readable stream: `MemoryStream.ToArray()` gives all of `buffer`,
      `CopyTo` copies what follows `position`. */
  datatype Stream = Stream(isMemoryStream: bool, buffer: seq<byte>, position: nat) {
    function Remaining(): (rest: seq<byte>)
      ensures position <= |buffer| ==> buffer[..position] + rest == buffer
      ensures position > |buffer| ==> rest == []
    {
      if position <= |buffer| then buffer[position..] else []
    }
  }

  datatype Fs = Fs(dirs: set<string>, files: map<string, Content>)

  /** The directories that enclose `p`: every prefix of `p` that ends just
      before one of its separators. */
  function Ancestors(p: string): set<string> {
    set i | 0 < i < |p| && p[i] == Sep :: p[..i]
  }

  /** The directories `Directory.CreateDirectory(p)` makes sure exist. */
  function Chain(p: string): set<string> {
    Ancestors(p) + {p}
  }

  /** A disk as the platform keeps it: no path is both a directory and a
      file, and every directory and file sits inside directories that
      exist. */
  ghost predicate WellFormed(s: Fs) {
    && s.dirs !! s.files.Keys
    && (forall d :: d in s.dirs ==> Ancestors(d) <= s.dirs)
    && (forall f :: f in s.files ==> Ancestors(f) <= s.dirs)
  }

  /** The immediate subdirectories of `d`. */
  function Subdirectories(s: Fs, d: string): set<string> {
    set p | p in s.dirs && IsChild(d, p)
  }

  /** The files directly in `d`. */
  function FilesIn(s: Fs, d: string): set<string> {
    set p | p in s.files && IsChild(d, p)
  }

  /** Nothing lies beneath `d`. */
  predicate IsEmptyDirectory(s: Fs, d: string) {
    (forall p :: p in s.dirs ==> !IsBeneath(d, p)) &&
    (forall p :: p in s.files ==> !IsBeneath(d, p))
  }

  /** The directories strictly beneath `d`. */
  function DirsBeneath(s: Fs, d: string): set<string> {
    set p | p in s.dirs && IsBeneath(d, p)
  }

  /** The files directly in `d` whose extension is `ext`. */
  function FilesWithExtension(s: Fs, d: string, ext: string): set<string> {
    set p | p in FilesIn(s, d) && FileExtension(p) == ext
  }

  /** `value` accepts the contents of every file directly in `d` whose
      extension is `ext`: a listing that decodes each such file does not
      fail. */
  predicate AllAccepted<V>(s: Fs, d: string, ext: string, value: string -> Option<V>) {
    forall p :: p in FilesIn(s, d) && FileExtension(p) == ext ==> value(AsText(s.files[p])).Some?
  }

  /** `Directory.CreateDirectory(p)`: creates `p` and every directory
      enclosing it; already existing ones are kept; a file on the way is an
      error. */
  function CreateDir(s: Fs, p: string): (r: Result<Fs>)
    ensures r.Ok? <==> Chain(p) !! s.files.Keys
    ensures r.Ok? ==> p in r.value.dirs && s.dirs <= r.value.dirs && r.value.dirs - s.dirs <= Chain(p)
    ensures r.Ok? ==> r.value.files == s.files
    ensures r.Err? ==> r.error == IOFailure
  {
    if Chain(p) !! s.files.Keys then Ok(Fs(s.dirs + Chain(p), s.files)) else Err(IOFailure)
  }

  /** `Directory.Delete(p, recursive)`: removes `p`, and with `recursive`
      everything beneath it; without it `p` must be empty. */
  function DeleteDir(s: Fs, p: string, recursive: bool): (r: Result<Fs>)
    ensures r.Ok? <==> p in s.dirs && (recursive || IsEmptyDirectory(s, p))
    ensures r.Err? ==> r.error == (if p in s.dirs then IOFailure else NotFound)
    ensures r.Ok? ==> p !in r.value.dirs
    ensures r.Ok? ==> forall q :: q in r.value.dirs <==> q in s.dirs && q != p && !IsBeneath(p, q)
    ensures r.Ok? ==> forall q :: q in r.value.files <==> q in s.files && !IsBeneath(p, q)
    ensures r.Ok? ==> forall q :: q in r.value.files ==> r.value.files[q] == s.files[q]
  {
    if p !in s.dirs then Err(NotFound)
    else if !recursive && !IsEmptyDirectory(s, p) then Err(IOFailure)
    else Ok(Fs(set q | q in s.dirs && q != p && !IsBeneath(p, q),
               map q | q in s.files && !IsBeneath(p, q) :: s.files[q]))
  }

  /** `File.WriteAllText` / `File.WriteAllBytes` / `File.Create`: the file
      afterwards holds exactly `c`, whatever it held before; its directory
      must exist and the path must not be a directory. */
  function WriteFile(s: Fs, p: string, c: Content): (r: Result<Fs>)
    ensures r.Ok? <==> Ancestors(p) <= s.dirs && p !in s.dirs
    ensures r.Err? ==> r.error == (if Ancestors(p) <= s.dirs then IOFailure else NotFound)
    ensures r.Ok? ==> r.value.dirs == s.dirs && p in r.value.files && r.value.files[p] == c
    ensures r.Ok? ==> forall q :: q != p ==> (q in r.value.files <==> q in s.files)
    ensures r.Ok? ==> forall q :: q != p && q in s.files ==> r.value.files[q] == s.files[q]
  {
    if !(Ancestors(p) <= s.dirs) then Err(NotFound)
    else if p in s.dirs then Err(IOFailure)
    else Ok(Fs(s.dirs, s.files[p := c]))
  }

  /** `File.ReadAllText` / `File.ReadAllBytes`: the contents of an existing
      file. */
  function ReadFile(s: Fs, p: string): (r: Result<Content>)
    ensures r.Ok? <==> p in s.files
    ensures r.Ok? ==> r.value == s.files[p]
    ensures r.Err? ==> r.error == (if p in s.dirs then IOFailure else NotFound)
  {
    if p in s.files then Ok(s.files[p])
    else if p in s.dirs then Err(IOFailure)
    else Err(NotFound)
  }

  /** `File.Delete`: removes the file if it is there, does nothing if it is
      not; its directory must exist and the path must not be a directory. */
  function RemoveFile(s: Fs, p: string): (r: Result<Fs>)
    ensures r.Ok? <==> Ancestors(p) <= s.dirs && p !in s.dirs
    ensures r.Err? ==> r.error == (if Ancestors(p) <= s.dirs then IOFailure else NotFound)
    ensures r.Ok? ==> r.value.dirs == s.dirs && p !in r.value.files
    ensures r.Ok? ==> forall q :: q != p ==> (q in r.value.files <==> q in s.files)
    ensures r.Ok? ==> forall q :: q != p && q in s.files ==> r.value.files[q] == s.files[q]
  {
    if !(Ancestors(p) <= s.dirs) then Err(NotFound)
    else if p in s.dirs then Err(IOFailure)
    else Ok(Fs(s.dirs, s.files - {p}))
  }

  /** The disk after an operation: the new disk on success, the old one on
      failure (a thrown exception changes nothing). */
  function After(s: Fs, r: Result<Fs>): Fs {
    if r.Ok? then r.value else s
  }

  function OutcomeOf(r: Result<Fs>): Outcome {
    if r.Ok? then Done else Fail(r.error)
  }

  // ---------------------------------------------------------------------
  // Facts about the primitives
  // ---------------------------------------------------------------------

  /** An enclosing directory of an enclosing directory encloses. */
  lemma AncestorsNest(p: string, a: string)
    requires a in Ancestors(p)
    ensures Ancestors(a) <= Ancestors(p)
  {
    forall b | b in Ancestors(a) ensures b in Ancestors(p) {
      var i :| 0 < i < |a| && a[i] == Sep && b == a[..i];
      var j :| 0 < j < |p| && p[j] == Sep && a == p[..j];
      assert p[i] == Sep && b == p[..i];
    }
  }

  /** The directories enclosing `Join(d, n)` are `d` and those enclosing
      `d`. */
  lemma AncestorsOfJoin(d: string, n: string)
    requires |d| > 0 && IsSegment(n)
    ensures Ancestors(Join(d, n)) == Ancestors(d) + {d}
  {
    var p := Join(d, n);
    assert p[|d|] == Sep && p[..|d|] == d;
    forall a | a in Ancestors(p) ensures a in Ancestors(d) + {d} {
      var i :| 0 < i < |p| && p[i] == Sep && a == p[..i];
      if i > |d| {
        assert false;
      } else if i < |d| {
        assert d[i] == Sep && a == d[..i];
      }
    }
    forall a | a in Ancestors(d) ensures a in Ancestors(p) {
      var i :| 0 < i < |d| && d[i] == Sep && a == d[..i];
      assert p[i] == Sep && a == p[..i];
    }
  }

  /** On a well-formed disk, the directory of an entry of a category exists
      exactly when the category's directory does. */
  lemma EntryDirectoryExists(s: Fs, d: string, n: string)
    requires WellFormed(s) && |d| > 0 && IsSegment(n)
    ensures Ancestors(Join(d, n)) <= s.dirs <==> d in s.dirs
  {
    AncestorsOfJoin(d, n);
  }

  /** Creating a directory keeps the disk well formed. */
  lemma CreateDirKeepsWellFormed(s: Fs, p: string)
    requires WellFormed(s) && CreateDir(s, p).Ok?
    ensures WellFormed(CreateDir(s, p).value)
  {
    var t := CreateDir(s, p).value;
    forall d | d in t.dirs ensures Ancestors(d) <= t.dirs {
      if d !in s.dirs {
        if d != p {
          AncestorsNest(p, d);
        }
      }
    }
  }

  /** Creating a directory that exists changes nothing. */
  lemma CreateExistingDir(s: Fs, p: string)
    requires WellFormed(s) && p in s.dirs
    ensures CreateDir(s, p) == Ok(s)
  {
    assert Chain(p) <= s.dirs;
    assert Chain(p) !! s.files.Keys;
    assert s.dirs + Chain(p) == s.dirs;
  }

  /** `Directory.CreateDirectory` is idempotent: a second call changes
      nothing and succeeds again. */
  lemma CreateDirIdempotent(s: Fs, p: string)
    requires CreateDir(s, p).Ok?
    ensures CreateDir(CreateDir(s, p).value, p) == CreateDir(s, p)
  {
    var t := CreateDir(s, p).value;
    assert t.dirs + Chain(p) == t.dirs;
  }

  /** Creating a directory puts nothing strictly beneath it: only the
      directory and the ones enclosing it are new. */
  lemma CreateDirAddsNothingBeneath(s: Fs, p: string)
    requires CreateDir(s, p).Ok?
    ensures DirsBeneath(CreateDir(s, p).value, p) == DirsBeneath(s, p)
  {
    var t := CreateDir(s, p).value;
    forall q | q in t.dirs && IsBeneath(p, q) ensures q in s.dirs {
      if q !in s.dirs {
        assert false;
      }
    }
  }

  /** Deleting a directory keeps the disk well formed. */
  lemma DeleteDirKeepsWellFormed(s: Fs, p: string, recursive: bool)
    requires WellFormed(s) && DeleteDir(s, p, recursive).Ok?
    ensures WellFormed(DeleteDir(s, p, recursive).value)
  {
    var t := DeleteDir(s, p, recursive).value;
    forall q, a | q in t.dirs + t.files.Keys && a in Ancestors(q)
      ensures a in t.dirs
    {
      var i :| 0 < i < |q| && q[i] == Sep && a == q[..i];
      if a == p || IsBeneath(p, a) {
        assert false;
      }
    }
  }

  /** Writing a file keeps the disk well formed. */
  lemma WriteFileKeepsWellFormed(s: Fs, p: string, c: Content)
    requires WellFormed(s) && WriteFile(s, p, c).Ok?
    ensures WellFormed(WriteFile(s, p, c).value)
  {
  }

  /** Deleting a file keeps the disk well formed. */
  lemma RemoveFileKeepsWellFormed(s: Fs, p: string)
    requires WellFormed(s) && RemoveFile(s, p).Ok?
    ensures WellFormed(RemoveFile(s, p).value)
  {
  }

  /** What is written reads back unchanged. */
  lemma WriteThenRead(s: Fs, p: string, c: Content)
    requires WriteFile(s, p, c).Ok?
    ensures ReadFile(WriteFile(s, p, c).value, p) == Ok(c)
  {
  }

  /** Deleting an existing file before writing it makes no difference to
      the write. */
  lemma RemoveThenWrite(s: Fs, p: string, c: Content)
    requires WellFormed(s) && p in s.files
    ensures RemoveFile(s, p).Ok?
    ensures WriteFile(RemoveFile(s, p).value, p, c) == WriteFile(s, p, c)
  {
    assert (s.files - {p})[p := c] == s.files[p := c];
  }

  /** Writing an empty file and appending bytes to it leaves the file
      holding those bytes, as writing them at once does. */
  lemma WriteEmptyThenAppend(s: Fs, p: string, bytes: seq<byte>)
    requires WriteFile(s, p, Binary([])).Ok?
    ensures var t := WriteFile(s, p, Binary([])).value;
      Fs(t.dirs, t.files[p := Binary(t.files[p].bytes + bytes)]) == WriteFile(s, p, Binary(bytes)).value
  {
    assert [] + bytes == bytes;
    assert s.files[p := Binary([])][p := Binary(bytes)] == s.files[p := Binary(bytes)];
  }

  /** A deleted file is gone, and deleting it again changes nothing. */
  lemma RemoveThenAbsent(s: Fs, p: string)
    requires RemoveFile(s, p).Ok?
    ensures p !in RemoveFile(s, p).value.files
    ensures RemoveFile(RemoveFile(s, p).value, p) == RemoveFile(s, p)
  {
    var t := RemoveFile(s, p).value;
    assert t.files - {p} == t.files;
  }

  /** A directory strictly beneath `d` has strictly fewer directories
      beneath it than `d`: the measure that bounds the recursive loading of
      a category tree. */
  lemma DirsBeneathShrink(s: Fs, d: string, q: string)
    requires q in s.dirs && IsBeneath(d, q)
    ensures DirsBeneath(s, q) < DirsBeneath(s, d)
    ensures |DirsBeneath(s, q)| < |DirsBeneath(s, d)|
  {
    forall p | p in DirsBeneath(s, q) ensures p in DirsBeneath(s, d) {
      assert p[..|q|] == q;
      assert p[..|d|] == q[..|d|];
    }
    var small, big := DirsBeneath(s, q), DirsBeneath(s, d);
    assert q in big - small;
    assert big == small + (big - small);
  }

  /** After a recursive delete of `Join(d, n)` no immediate subdirectory of
      `d` carries the name `n`. */
  lemma DeletedNameNotListed(s: Fs, d: string, n: string, p: string)
    requires IsSegment(n) && Join(d, n) !in s.dirs
    requires p in Subdirectories(s, d)
    ensures BaseName(p) != n
  {
    ChildIsJoin(d, p);
  }

  // ---------------------------------------------------------------------
  // The shared mutable disk
  // ---------------------------------------------------------------------

  /** An enumeration of a finite set in an order the platform chooses. */
  method Enumerate(s: set<string>) returns (r: seq<string>)
    ensures Distinct(r)
    ensures forall p :: p in r <==> p in s
  {
    r := [];
    var rest := s;
    while rest != {}
      invariant rest <= s
      invariant Distinct(r)
      invariant forall p :: p in r <==> p in s - rest
      decreases |rest|
    {
      var p :| p in rest;
      assert p !in r;
      r := r + [p];
      rest := rest - {p};
    }
  }

  class FileSystem {
    var dirs: set<string>
    var files: map<string, Content>

    function State(): Fs
      reads this
    {
      Fs(dirs, files)
    }

    ghost predicate Valid()
      reads this
    {
      WellFormed(State())
    }

    /** A disk with the given initial contents. */
    constructor (initial: Fs)
      requires WellFormed(initial)
      ensures State() == initial && Valid()
    {
      dirs := initial.dirs;
      files := initial.files;
    }

    method Update(r: Result<Fs>) returns (o: Outcome)
      requires r.Ok? ==> WellFormed(r.value)
      requires Valid()
      modifies this
      ensures Valid()
      ensures State() == After(old(State()), r) && o == OutcomeOf(r)
    {
      if r.Ok? {
        dirs, files := r.value.dirs, r.value.files;
        o := Done;
      } else {
        o := Fail(r.error);
      }
    }

    /** `Directory.CreateDirectory(path)`. */
    method CreateDirectory(path: string) returns (o: Outcome)
      requires Valid()
      modifies this
      ensures Valid()
      ensures State() == After(old(State()), CreateDir(old(State()), path))
      ensures o == OutcomeOf(CreateDir(old(State()), path))
    {
      var r := CreateDir(State(), path);
      if r.Ok? {
        CreateDirKeepsWellFormed(State(), path);
      }
      o := Update(r);
    }

    /** `Directory.Delete(path, recursive)`. */
    method Delete(path: string, recursive: bool) returns (o: Outcome)
      requires Valid()
      modifies this
      ensures Valid()
      ensures State() == After(old(State()), DeleteDir(old(State()), path, recursive))
      ensures o == OutcomeOf(DeleteDir(old(State()), path, recursive))
    {
      var r := DeleteDir(State(), path, recursive);
      if r.Ok? {
        DeleteDirKeepsWellFormed(State(), path, recursive);
      }
      o := Update(r);
    }

    /** `File.WriteAllText(path, text)`. */
    method WriteAllText(path: string, text: string) returns (o: Outcome)
      requires Valid()
      modifies this
      ensures Valid()
      ensures State() == After(old(State()), WriteFile(old(State()), path, Text(text)))
      ensures o == OutcomeOf(WriteFile(old(State()), path, Text(text)))
    {
      var r := WriteFile(State(), path, Text(text));
      if r.Ok? {
        WriteFileKeepsWellFormed(State(), path, Text(text));
      }
      o := Update(r);
    }

    /** `File.WriteAllBytes(path, bytes)`; `File.Create(path)` is the call
        with no bytes. */
    method WriteAllBytes(path: string, bytes: seq<byte>) returns (o: Outcome)
      requires Valid()
      modifies this
      ensures Valid()
      ensures State() == After(old(State()), WriteFile(old(State()), path, Binary(bytes)))
      ensures o == OutcomeOf(WriteFile(old(State()), path, Binary(bytes)))
    {
      var r := WriteFile(State(), path, Binary(bytes));
      if r.Ok? {
        WriteFileKeepsWellFormed(State(), path, Binary(bytes));
      }
      o := Update(r);
    }

    /** `stream.CopyTo(fileStream)` on a file opened by `File.Create`: the
        bytes are appended to the file. */
    method CopyTo(path: string, bytes: seq<byte>)
      requires Valid() && path in files && files[path].Binary?
      modifies this
      ensures Valid() && dirs == old(dirs)
      ensures files == old(files)[path := Binary(old(files[path].bytes) + bytes)]
    {
      files := files[path := Binary(files[path].bytes + bytes)];
    }

    /** `File.Delete(path)`. */
    method DeleteFile(path: string) returns (o: Outcome)
      requires Valid()
      modifies this
      ensures Valid()
      ensures State() == After(old(State()), RemoveFile(old(State()), path))
      ensures o == OutcomeOf(RemoveFile(old(State()), path))
    {
      var r := RemoveFile(State(), path);
      if r.Ok? {
        RemoveFileKeepsWellFormed(State(), path);
      }
      o := Update(r);
    }

    /** `File.ReadAllText(path)`. */
    method ReadAllText(path: string) returns (r: Result<string>)
      ensures r.Ok? <==> path in files
      ensures r.Ok? ==> r.value == AsText(files[path])
      ensures r.Err? ==> r.error == (if path in dirs then IOFailure else NotFound)
    {
      var c :- ReadFile(State(), path);
      r := Ok(AsText(c));
    }

    /** `File.Exists(path)`. */
    method FileExists(path: string) returns (b: bool)
      ensures b <==> path in files
    {
      b := path in files;
    }

    /** `Directory.Exists(path)`. */
    method DirectoryExists(path: string) returns (b: bool)
      ensures b <==> path in dirs
    {
      b := path in dirs;
    }

    /** `new DirectoryInfo(path).GetDirectories()`: a handle (the path) for
        every immediate subdirectory, each once. */
    method GetDirectories(path: string) returns (r: Result<seq<string>>)
      ensures r.Ok? <==> path in dirs
      ensures r.Err? ==> r.error == NotFound
      ensures r.Ok? ==> Distinct(r.value)
      ensures r.Ok? ==> forall p :: p in r.value <==> p in dirs && IsChild(path, p)
    {
      if path !in dirs {
        return Err(NotFound);
      }
      var entries := Enumerate(Subdirectories(State(), path));
      r := Ok(entries);
    }

    /** `new DirectoryInfo(path).GetFiles()`: a handle (the path) for every
        file directly in the directory, each once. */
    method GetFiles(path: string) returns (r: Result<seq<string>>)
      ensures r.Ok? <==> path in dirs
      ensures r.Err? ==> r.error == NotFound
      ensures r.Ok? ==> Distinct(r.value)
      ensures r.Ok? ==> forall p :: p in r.value <==> p in files && IsChild(path, p)
    {
      if path !in dirs {
        return Err(NotFound);
      }
      var entries := Enumerate(FilesIn(State(), path));
      r := Ok(entries);
    }
  }
}
