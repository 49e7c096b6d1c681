/** The `EzDatabase` lineage: a `Database` anchors a root directory named by
    the database and keeps the list `Categories` of its top-level categories;
    a `DatabaseCategory` is a handle on a directory beneath the root, whose
    path is its parent's path, a separator and its name. Categories create,
    look up, list and delete subdirectories, and save, read, check, list and
    delete the files of their directory. Every operation goes to the shared
    disk (`SystemIO.FileSystem`); an exception the platform would throw is
    an `Err`/`Fail` result that leaves the disk as it was. */
module EzDatabase {
  import opened Paths
  import opened CaseFolding
  import opened SystemIO

  /** The names of a list of category handles, in order. */
  function Names(cats: seq<DatabaseCategory>): seq<string> {
    seq(|cats|, i requires 0 <= i < |cats| => cats[i].Name)
  }

  /** The directory paths of a list of category handles, in order. */
  function FullPaths(cats: seq<DatabaseCategory>): seq<string> {
    seq(|cats|, i requires 0 <= i < |cats| => cats[i].FullPath)
  }

  /** Handles built one per listed directory, in order, have exactly the
      listing as their paths. */
  lemma HandlesFollowListing(cats: seq<DatabaseCategory>, directories: seq<string>)
    requires |cats| == |directories|
    requires forall j :: 0 <= j < |cats| ==> cats[j].FullPath == directories[j]
    ensures FullPaths(cats) == directories
  {
  }

  /** `cats` holds one handle per immediate subdirectory of `dir` on the
      disk `s`, each once: what a listing of `dir` builds. */
  ghost predicate Mirrors(s: Fs, dir: string, cats: seq<DatabaseCategory>) {
    Distinct(FullPaths(cats)) && forall p :: p in FullPaths(cats) <==> p in Subdirectories(s, dir)
  }

  /** `m` is the dictionary of the files directly in `dir` whose extension
      is `ext`: its keys are their names without extension, and each key
      maps to the value of the file `dir\key + ext`. */
  ghost predicate Describes<V>(m: map<string, V>, s: Fs, dir: string, ext: string, value: string -> Option<V>) {
    && m.Keys == Stems(FilesIn(s, dir), ext)
    && forall n :: n in m ==>
         Join(dir, n + ext) in s.files && value(AsText(s.files[Join(dir, n + ext)])) == Some(m[n])
  }

  /** Text is taken as it is read. */
  function Accept(text: string): Option<string> {
    Some(text)
  }

  /** What the dictionary-building loops return for a listing of files of
      the disk `s`: each file whose extension is `ext`, keyed by its stem and
      mapped through `value`; None once `value` rejects one. */
  function Collect<V>(s: Fs, files: seq<string>, ext: string, value: string -> Option<V>): (r: Option<map<string, V>>)
    requires forall p :: p in files ==> p in s.files
    ensures r.Some? ==> forall k :: k in r.value ==> k in StemList(files, ext)
  {
    if files == [] then Some(map[])
    else
      var last := files[|files| - 1];
      var init := Collect(s, files[..|files| - 1], ext, value);
      if init.None? || FileExtension(last) != ext then init
      else match value(AsText(s.files[last]))
        case None => None
        case Some(v) => Some(init.value[FileNameWithoutExtension(last) := v])
  }

  /** One more file of the listing extends the dictionary as the loop body
      does. */
  lemma CollectStep<V>(s: Fs, files: seq<string>, i: nat, ext: string, value: string -> Option<V>)
    requires i < |files| && forall p :: p in files ==> p in s.files
    ensures Collect(s, files[..i + 1], ext, value) ==
      var init := Collect(s, files[..i], ext, value);
      if init.None? || FileExtension(files[i]) != ext then init
      else match value(AsText(s.files[files[i]]))
        case None => None
        case Some(v) => Some(init.value[FileNameWithoutExtension(files[i]) := v])
  {
    assert files[..i + 1][..i] == files[..i];
  }

  /** The dictionary exists exactly when `value` accepts every file of the
      listing whose extension is `ext`. */
  lemma {:induction false} CollectAccepted<V>(s: Fs, files: seq<string>, ext: string, value: string -> Option<V>)
    requires forall p :: p in files ==> p in s.files
    ensures Collect(s, files, ext, value).Some? <==>
      forall p :: p in files && FileExtension(p) == ext ==> value(AsText(s.files[p])).Some?
  {
    if files != [] {
      var i := |files| - 1;
      var init, last := files[..i], files[i];
      assert files[..i + 1] == files;
      assert forall p :: p in files <==> p in init || p == last;
      CollectStep(s, files, i, ext, value);
      CollectAccepted(s, init, ext, value);
    }
  }

  /** The keys of the dictionary are the stems of the files of the listing
      whose extension is `ext`. */
  lemma {:induction false} CollectKeys<V>(s: Fs, files: seq<string>, ext: string, value: string -> Option<V>)
    requires forall p :: p in files ==> p in s.files
    ensures Collect(s, files, ext, value).Some? ==>
      Collect(s, files, ext, value).value.Keys == Stems(Elements(files), ext)
  {
    if files != [] {
      var i := |files| - 1;
      var prefix := files[..i];
      assert files[..i + 1] == files && prefix + [files[i]] == files;
      CollectStepKeys(s, files, i, ext, value);
      CollectKeys(s, prefix, ext, value);
      StemsAppend(prefix, files[i], ext);
      var added := if FileExtension(files[i]) == ext then {FileNameWithoutExtension(files[i])} else {};
      if Collect(s, files, ext, value).Some? {
        calc {
          Collect(s, files, ext, value).value.Keys;
          Collect(s, prefix, ext, value).value.Keys + added;
          Stems(Elements(prefix), ext) + added;
          Stems(Elements(files), ext);
        }
      }
    }
  }

  /** One more file of the listing adds its stem to the keys when its
      extension is `ext`, and nothing otherwise. */
  lemma CollectStepKeys<V>(s: Fs, files: seq<string>, i: nat, ext: string, value: string -> Option<V>)
    requires i < |files| && forall p :: p in files ==> p in s.files
    ensures Collect(s, files[..i + 1], ext, value).Some? ==>
      Collect(s, files[..i], ext, value).Some? &&
      Collect(s, files[..i + 1], ext, value).value.Keys ==
        Collect(s, files[..i], ext, value).value.Keys +
        (if FileExtension(files[i]) == ext then {FileNameWithoutExtension(files[i])} else {})
  {
    CollectStep(s, files, i, ext, value);
    var init := Collect(s, files[..i], ext, value);
    if init.Some? && FileExtension(files[i]) == ext {
      assert files[i] in files;
      match value(AsText(s.files[files[i]])) {
        case None =>
        case Some(v) =>
          var key := FileNameWithoutExtension(files[i]);
          assert init.value[key := v].Keys == init.value.Keys + {key};
      }
    }
  }

  /** For the files of one directory, each key of the dictionary maps to
      the value of the file named by that key and `ext`. */
  lemma {:induction false} CollectValues<V>(s: Fs, d: string, files: seq<string>, ext: string, value: string -> Option<V>)
    requires forall p :: p in files ==> p in s.files && IsChild(d, p)
    ensures Collect(s, files, ext, value).Some? ==>
      var m := Collect(s, files, ext, value).value;
      forall n :: n in m ==>
        Join(d, n + ext) in s.files && value(AsText(s.files[Join(d, n + ext)])) == Some(m[n])
  {
    if files != [] {
      var i := |files| - 1;
      var init, last := files[..i], files[i];
      assert files[..i + 1] == files && last in files;
      CollectStep(s, files, i, ext, value);
      CollectValues(s, d, init, ext, value);
      if Collect(s, files, ext, value).Some? {
        var m, m0 := Collect(s, files, ext, value).value, Collect(s, init, ext, value).value;
        forall n | n in m
          ensures Join(d, n + ext) in s.files && value(AsText(s.files[Join(d, n + ext)])) == Some(m[n])
        {
          if FileExtension(last) == ext && n == FileNameWithoutExtension(last) {
            ChildSplit(d, last);
          } else {
            assert n in m0 && m[n] == m0[n];
          }
        }
      }
    }
  }

  /** For a complete listing of the files directly in `d`, the stems
      with extension `ext` are listed once each, and they are exactly the
      stems of those files. */
  lemma StemListListing(s: Fs, d: string, files: seq<string>, ext: string)
    requires Distinct(files)
    requires forall p :: p in files <==> p in s.files && IsChild(d, p)
    ensures Distinct(StemList(files, ext))
    ensures forall n :: n in StemList(files, ext) <==> n in Stems(FilesIn(s, d), ext)
  {
    StemListDistinct(d, files, ext);
    StemListMembers(files, ext);
    assert Elements(files) == FilesIn(s, d);
  }

  /** For a complete listing of the files directly in `d`, the dictionary
      exists exactly when `value` accepts every file with extension `ext`,
      and then it describes them. */
  lemma CollectListing<V>(s: Fs, d: string, files: seq<string>, ext: string, value: string -> Option<V>)
    requires Distinct(files)
    requires forall p :: p in files <==> p in s.files && IsChild(d, p)
    ensures Collect(s, files, ext, value).Some? <==> AllAccepted(s, d, ext, value)
    ensures Collect(s, files, ext, value).Some? ==> Describes(Collect(s, files, ext, value).value, s, d, ext, value)
  {
    CollectAccepted(s, files, ext, value);
    CollectKeys(s, files, ext, value);
    CollectValues(s, d, files, ext, value);
    assert Elements(files) == FilesIn(s, d);
  }

  /** The key a loop adds for the `i`-th file is not yet in the
      dictionary: `Dictionary.Add` never meets a duplicate. */
  lemma CollectAddsNewKey<V>(s: Fs, d: string, files: seq<string>, i: nat, ext: string, value: string -> Option<V>)
    requires Distinct(files)
    requires forall p :: p in files ==> p in s.files && IsChild(d, p)
    requires i < |files| && FileExtension(files[i]) == ext
    ensures Collect(s, files[..i], ext, value).Some? ==>
      FileNameWithoutExtension(files[i]) !in Collect(s, files[..i], ext, value).value
  {
    CollectKeys(s, files[..i], ext, value);
    NewFileNewStem(d, files[..i], files[i], ext);
  }

  class Database {
    /** The name of the database, which is also the path of its root
        directory. */
    const Name: string
    /** The top-level categories known to this handle. */
    var Categories: seq<DatabaseCategory>
    /** The disk the database lives on. */
    const fs: FileSystem

    ghost predicate Valid()
      reads this, fs
    {
      && fs.Valid()
      && |Name| > 0
      && forall c :: c in Categories ==> c.IsTopLevelIn(this)
    }

    /** `new Database(name)`: the root directory exists afterwards and
        `Categories` lists its immediate subdirectories. */
    constructor (disk: FileSystem, name: string)
      requires disk.Valid() && |name| > 0 && CreateDir(disk.State(), name).Ok?
      modifies disk
      ensures fs == disk && Name == name && Valid()
      ensures name in disk.dirs
      ensures disk.State() == CreateDir(old(disk.State()), name).value
      ensures Mirrors(disk.State(), name, Categories)
      ensures forall c :: c in Categories ==> fresh(c)
    {
      Name := name;
      fs := disk;
      Categories := [];
      new;
      Initialize();
    }

    /** Creates the root directory and loads the categories. */
    method Initialize()
      requires Valid() && CreateDir(fs.State(), Name).Ok?
      modifies this`Categories, fs
      ensures Valid() && Name in fs.dirs
      ensures fs.State() == CreateDir(old(fs.State()), Name).value
      ensures Mirrors(fs.State(), Name, Categories)
      ensures forall c :: c in Categories ==> fresh(c)
    {
      var _ := fs.CreateDirectory(Name);
      var listed := GetCategories();
      assert listed.Ok?;
    }

    /** Gets or creates the category `name`: its directory exists
        afterwards, and it is appended to `Categories` unless a category
        whose name equals it ignoring case is already listed. */
    method CreateCategory(name: string) returns (r: Result<DatabaseCategory>)
      requires Valid() && IsSegment(name)
      modifies this`Categories, fs
      ensures Valid()
      ensures fs.State() == old(After(fs.State(), CreateDir(fs.State(), Join(Name, name))))
      ensures r.Ok? <==> old(CreateDir(fs.State(), Join(Name, name))).Ok?
      ensures r.Err? ==> r.error == IOFailure && Categories == old(Categories)
      ensures r.Ok? ==> fresh(r.value) && r.value.Name == name && r.value.IsTopLevelIn(this)
      ensures r.Ok? ==> r.value.FullPath in fs.dirs
      ensures r.Ok? ==> Names(Categories) == AddIfAbsent(old(Names(Categories)), name)
      ensures r.Ok? ==> Categories == old(Categories) || Categories == old(Categories) + [r.value]
      ensures old(DistinctIgnoringCase(Names(Categories))) ==> DistinctIgnoringCase(Names(Categories))
      ensures |Categories| <= old(|Categories|) + 1
    {
      if DistinctIgnoringCase(Names(Categories)) {
        AddIfAbsentKeepsDistinct(Names(Categories), name);
      }
      if CreateDir(fs.State(), Join(Name, name)).Err? {
        return Err(IOFailure);
      }
      var category := new DatabaseCategory(this, name);
      if !ContainsIgnoringCase(Names(Categories), name) {
        assert Names(Categories + [category]) == Names(Categories) + [name];
        Categories := Categories + [category];
      }
      r := Ok(category);
    }

    /** `GetCategory` does what `CreateCategory` does: a missing category is
        created, not reported. */
    method GetCategory(name: string) returns (r: Result<DatabaseCategory>)
      requires Valid() && IsSegment(name)
      modifies this`Categories, fs
      ensures Valid()
      ensures fs.State() == old(After(fs.State(), CreateDir(fs.State(), Join(Name, name))))
      ensures r.Ok? <==> old(CreateDir(fs.State(), Join(Name, name))).Ok?
      ensures r.Err? ==> r.error == IOFailure && Categories == old(Categories)
      ensures r.Ok? ==> fresh(r.value) && r.value.Name == name && r.value.IsTopLevelIn(this)
      ensures r.Ok? ==> r.value.FullPath in fs.dirs
      ensures r.Ok? ==> Names(Categories) == AddIfAbsent(old(Names(Categories)), name)
      ensures r.Ok? ==> Categories == old(Categories) || Categories == old(Categories) + [r.value]
      ensures old(DistinctIgnoringCase(Names(Categories))) ==> DistinctIgnoringCase(Names(Categories))
      ensures |Categories| <= old(|Categories|) + 1
    {
      if DistinctIgnoringCase(Names(Categories)) {
        AddIfAbsentKeepsDistinct(Names(Categories), name);
      }
      if CreateDir(fs.State(), Join(Name, name)).Err? {
        return Err(IOFailure);
      }
      var category := new DatabaseCategory(this, name);
      if !ContainsIgnoringCase(Names(Categories), name) {
        assert Names(Categories + [category]) == Names(Categories) + [name];
        Categories := Categories + [category];
      }
      r := Ok(category);
    }

    /** Replaces `Categories` by a fresh list with one handle per immediate
        subdirectory of the root; the disk is left as it was. */
    method GetCategories() returns (r: Result<seq<DatabaseCategory>>)
      requires Valid()
      modifies this`Categories, fs
      ensures Valid() && fs.State() == old(fs.State())
      ensures r.Ok? <==> Name in fs.dirs
      ensures r.Err? ==> r.error == NotFound && Categories == old(Categories)
      ensures r.Ok? ==> Categories == r.value && Mirrors(fs.State(), Name, Categories)
      ensures r.Ok? ==> forall c :: c in Categories ==> fresh(c)
    {
      var directories :- fs.GetDirectories(Name);
      ghost var disk := fs.State();
      var result: seq<DatabaseCategory> := [];
      for i := 0 to |directories|
        invariant fs.Valid() && fs.State() == disk
        invariant |result| == i
        invariant forall j :: 0 <= j < i ==> fresh(result[j]) && result[j].IsTopLevelIn(this) && result[j].FullPath == directories[j]
      {
        var category := CategoryAt(directories[i]);
        result := result + [category];
      }
      HandlesFollowListing(result, directories);
      Categories := result;
      r := Ok(result);
    }

    /** The body of that loop: a fresh handle on the existing directory
        `directory`, leaving the disk as it was. */
    method CategoryAt(directory: string) returns (category: DatabaseCategory)
      requires fs.Valid() && directory in Subdirectories(fs.State(), Name)
      modifies fs
      ensures fs.Valid() && fs.State() == old(fs.State())
      ensures fresh(category) && category.IsTopLevelIn(this) && category.FullPath == directory
    {
      ChildIsJoin(Name, directory);
      CreateExistingDir(fs.State(), directory);
      category := new DatabaseCategory(this, BaseName(directory));
    }

    /** Deletes the category `name` with everything beneath it and reloads
        `Categories`, which then lists no category of that name. */
    method DeleteCategory(name: string) returns (r: Outcome)
      requires Valid() && IsSegment(name)
      modifies this`Categories, fs
      ensures Valid()
      ensures fs.State() == old(After(fs.State(), DeleteDir(fs.State(), Join(Name, name), true)))
      ensures r == old(OutcomeOf(DeleteDir(fs.State(), Join(Name, name), true)))
      ensures r.Fail? ==> Categories == old(Categories)
      ensures r.Done? ==> Mirrors(fs.State(), Name, Categories) && name !in Names(Categories)
    {
      AncestorsOfJoin(Name, name);
      r := fs.Delete(Join(Name, name), true);
      if r.Fail? {
        return;
      }
      var listed := GetCategories();
      assert listed.Ok?;
      forall i | 0 <= i < |Categories|
        ensures Categories[i].Name != name
      {
        var c := Categories[i];
        assert FullPaths(Categories)[i] == c.FullPath;
        assert c in Categories && c.IsTopLevelIn(this);
        JoinIsChild(Name, c.Name);
        DeletedNameNotListed(fs.State(), Name, name, c.FullPath);
      }
    }
  }

  class DatabaseCategory {
    const Name: string
    const BaseDatabase: Database
    /** The path of the category's directory. */
    const FullPath: string
    /** The handle on the category's directory (its path). */
    const BaseDirectory: string
    /** The enclosing category, or null for a top-level category. */
    const ParentCategory: DatabaseCategory?

    /** The disk the category lives on. */
    function Disk(): FileSystem {
      BaseDatabase.fs
    }

    /** A top-level category of `db`: its path is the root's path, a
        separator and its name. */
    predicate IsTopLevelIn(db: Database) {
      && BaseDatabase == db && ParentCategory == null
      && IsSegment(Name) && FullPath == Join(db.Name, Name) && BaseDirectory == FullPath
    }

    /** A subcategory of `parent`: its path is the parent's path, a
        separator and its name. */
    predicate IsSubCategoryOf(parent: DatabaseCategory) {
      && BaseDatabase == parent.BaseDatabase && ParentCategory == parent
      && IsSegment(Name) && FullPath == Join(parent.FullPath, Name) && BaseDirectory == FullPath
    }

    ghost predicate Valid()
      reads Disk()
    {
      && Disk().Valid()
      && (if ParentCategory == null then IsTopLevelIn(BaseDatabase) else IsSubCategoryOf(ParentCategory))
    }

    /** A top-level category of `database`; its directory is created if
        missing. */
    constructor (database: Database, name: string)
      requires database.fs.Valid() && IsSegment(name)
      requires CreateDir(database.fs.State(), Join(database.Name, name)).Ok?
      modifies database.fs
      ensures Name == name && IsTopLevelIn(database) && Valid()
      ensures FullPath in Disk().dirs
      ensures Disk().State() == CreateDir(old(database.fs.State()), FullPath).value
    {
      Name := name;
      BaseDatabase := database;
      ParentCategory := null;
      FullPath := Join(database.Name, name);
      BaseDirectory := Join(database.Name, name);
      new;
      var _ := database.fs.CreateDirectory(FullPath);
    }

    /** A subcategory of `category`; its directory is created if missing. */
    constructor Sub(category: DatabaseCategory, name: string)
      requires category.Disk().Valid() && IsSegment(name)
      requires CreateDir(category.Disk().State(), Join(category.FullPath, name)).Ok?
      modifies category.Disk()
      ensures Name == name && IsSubCategoryOf(category) && Valid()
      ensures FullPath in Disk().dirs
      ensures Disk().State() == CreateDir(old(category.Disk().State()), FullPath).value
    {
      Name := name;
      BaseDatabase := category.BaseDatabase;
      ParentCategory := category;
      FullPath := Join(category.FullPath, name);
      BaseDirectory := Join(category.FullPath, name);
      new;
      var _ := category.Disk().CreateDirectory(FullPath);
    }

    // -------------------------------------------------------------------
    // Subcategories
    // -------------------------------------------------------------------

    /** Creates (or opens) the subcategory `name`. */
    method CreateSubCategory(name: string) returns (r: Result<DatabaseCategory>)
      requires Valid() && IsSegment(name)
      modifies Disk()
      ensures Valid()
      ensures Disk().State() == old(After(Disk().State(), CreateDir(Disk().State(), Join(FullPath, name))))
      ensures r.Ok? <==> old(CreateDir(Disk().State(), Join(FullPath, name))).Ok?
      ensures r.Err? ==> r.error == IOFailure
      ensures r.Ok? ==> fresh(r.value) && r.value.Name == name && r.value.IsSubCategoryOf(this)
      ensures r.Ok? ==> r.value.FullPath in Disk().dirs
    {
      if CreateDir(Disk().State(), Join(FullPath, name)).Err? {
        return Err(IOFailure);
      }
      var category := new DatabaseCategory.Sub(this, name);
      r := Ok(category);
    }

    /** A handle on the subcategory `name` if its directory exists, null
        otherwise; the disk is left as it was either way. */
    method GetSubCategory(name: string) returns (r: DatabaseCategory?)
      requires Valid() && IsSegment(name)
      modifies Disk()
      ensures Valid() && Disk().State() == old(Disk().State())
      ensures r == null <==> Join(FullPath, name) !in Disk().dirs
      ensures r != null ==> fresh(r) && r.Name == name && r.IsSubCategoryOf(this)
    {
      var found := Disk().DirectoryExists(Join(FullPath, name));
      if !found {
        return null;
      }
      CreateExistingDir(Disk().State(), Join(FullPath, name));
      r := new DatabaseCategory.Sub(this, name);
    }

    /** One fresh handle per immediate subdirectory; the disk is left as it
        was. */
    method GetSubCategories() returns (r: Result<seq<DatabaseCategory>>)
      requires Valid()
      modifies Disk()
      ensures Valid() && Disk().State() == old(Disk().State())
      ensures r.Ok? <==> FullPath in Disk().dirs
      ensures r.Err? ==> r.error == NotFound
      ensures r.Ok? ==> Mirrors(Disk().State(), FullPath, r.value)
      ensures r.Ok? ==> forall c :: c in r.value ==> fresh(c) && c.IsSubCategoryOf(this)
    {
      var directories :- Disk().GetDirectories(FullPath);
      var result := LoadSubCategories(directories);
      r := Ok(result);
    }

    /** The loop of `GetSubCategories`: one fresh handle per listed
        subdirectory, in listing order; the disk is left as it was. */
    method LoadSubCategories(directories: seq<string>) returns (result: seq<DatabaseCategory>)
      requires Valid()
      requires forall p :: p in directories ==> p in Subdirectories(Disk().State(), FullPath)
      modifies Disk()
      ensures Valid() && Disk().State() == old(Disk().State())
      ensures FullPaths(result) == directories
      ensures forall c :: c in result ==> fresh(c) && c.IsSubCategoryOf(this)
    {
      ghost var disk := Disk().State();
      result := [];
      for i := 0 to |directories|
        invariant Valid() && Disk().State() == disk
        invariant |result| == i
        invariant forall j :: 0 <= j < i ==> fresh(result[j]) && result[j].IsSubCategoryOf(this) && result[j].FullPath == directories[j]
      {
        var category := SubCategoryAt(directories[i]);
        result := result + [category];
      }
      HandlesFollowListing(result, directories);
    }

    /** The body of that loop: a fresh handle on the existing subdirectory
        `directory`, leaving the disk as it was. */
    method SubCategoryAt(directory: string) returns (category: DatabaseCategory)
      requires Valid() && directory in Subdirectories(Disk().State(), FullPath)
      modifies Disk()
      ensures Valid() && Disk().State() == old(Disk().State())
      ensures fresh(category) && category.IsSubCategoryOf(this) && category.FullPath == directory
    {
      ChildIsJoin(FullPath, directory);
      CreateExistingDir(Disk().State(), directory);
      category := new DatabaseCategory.Sub(this, BaseName(directory));
    }

    /** Deletes the subcategory `name` and everything beneath it; fails
        when there is no such directory. */
    method DeleteSubCategory(name: string) returns (r: Outcome)
      requires Valid() && IsSegment(name)
      modifies Disk()
      ensures Valid()
      ensures Disk().State() == old(After(Disk().State(), DeleteDir(Disk().State(), Join(FullPath, name), true)))
      ensures r == old(OutcomeOf(DeleteDir(Disk().State(), Join(FullPath, name), true)))
      ensures r.Done? <==> old(Join(FullPath, name) in Disk().dirs)
    {
      r := Disk().Delete(Join(FullPath, name), true);
    }

    // -------------------------------------------------------------------
    // JSON artifacts: `name.json`
    // -------------------------------------------------------------------

    /** Writes `serialize(data)` to `name.json`, replacing what was there;
        succeeds exactly when the category's directory exists and the path
        is not a directory. */
    method SaveJson<T>(name: string, data: T, serialize: T -> string) returns (r: Outcome)
      requires Valid() && IsSegment(name)
      modifies Disk()
      ensures Valid()
      ensures Disk().State() == old(After(Disk().State(), WriteFile(Disk().State(), Join(FullPath, name + JsonExtension), Text(serialize(data)))))
      ensures r == old(OutcomeOf(WriteFile(Disk().State(), Join(FullPath, name + JsonExtension), Text(serialize(data)))))
      ensures r.Done? <==> old(FullPath in Disk().dirs && Join(FullPath, name + JsonExtension) !in Disk().dirs)
      ensures r.Fail? ==> r.error == (if old(FullPath in Disk().dirs) then IOFailure else NotFound)
    {
      EntryDirectoryExists(Disk().State(), FullPath, name + JsonExtension);
      r := Disk().WriteAllText(Join(FullPath, name + JsonExtension), serialize(data));
    }

    /** Reads `name.json` and decodes it. */
    method GetJson<T>(name: string, deserialize: string -> Option<T>) returns (r: Result<T>)
      requires IsSegment(name)
      ensures var p := Join(FullPath, name + JsonExtension);
        r.Ok? <==> p in Disk().files && deserialize(AsText(Disk().files[p])).Some?
      ensures var p := Join(FullPath, name + JsonExtension);
        r.Ok? ==> deserialize(AsText(Disk().files[p])) == Some(r.value)
      ensures var p := Join(FullPath, name + JsonExtension);
        r.Err? ==> r.error == (if p in Disk().files then DecodeFailure else if p in Disk().dirs then IOFailure else NotFound)
    {
      var text :- Disk().ReadAllText(Join(FullPath, name + JsonExtension));
      var decoded := deserialize(text);
      if decoded.None? {
        return Err(DecodeFailure);
      }
      r := Ok(decoded.value);
    }

    /** The handle on `name.json`: an entry of the category's directory
        whose stem is `name` and whose extension is `.json`. */
    function GetJsonInfo(name: string): (p: string)
      requires IsSegment(name)
      ensures IsChild(FullPath, p)
      ensures FileNameWithoutExtension(p) == name && FileExtension(p) == JsonExtension
    {
      JoinIsChild(FullPath, name + JsonExtension);
      SplitAppended(name, JsonExtension);
      Join(FullPath, name + JsonExtension)
    }

    /** Whether `name.json` exists. */
    method HasJson(name: string) returns (b: bool)
      ensures b <==> Join(FullPath, name + JsonExtension) in Disk().files
    {
      b := Disk().FileExists(Join(FullPath, name + JsonExtension));
    }

    /** The names, without extension, of the files directly in the
        directory whose extension is `.json`, each once; files with other
        extensions and subdirectories are not listed. */
    method GetAllJson() returns (r: Result<seq<string>>)
      ensures r.Ok? <==> FullPath in Disk().dirs
      ensures r.Err? ==> r.error == NotFound
      ensures r.Ok? ==> Distinct(r.value)
      ensures r.Ok? ==> forall n :: n in r.value <==> n in Stems(FilesIn(Disk().State(), FullPath), JsonExtension)
    {
      var files :- Disk().GetFiles(FullPath);
      var filenames: seq<string> := [];
      for i := 0 to |files|
        invariant filenames == StemList(files[..i], JsonExtension)
      {
        var file := files[i];
        StemListStep(files, i, JsonExtension);
        if FileExtension(file) == JsonExtension {
          filenames := filenames + [FileNameWithoutExtension(file)];
        }
      }
      assert files[..|files|] == files;
      StemListListing(Disk().State(), FullPath, files, JsonExtension);
      r := Ok(filenames);
    }

    /** Every `.json` file directly in the directory, decoded, keyed by its
        name without extension; no key is added twice. Fails when a file
        does not decode. */
    method GetAllJsonValues<T>(deserialize: string -> Option<T>) returns (r: Result<map<string, T>>)
      ensures r.Ok? <==> FullPath in Disk().dirs && AllAccepted(Disk().State(), FullPath, JsonExtension, deserialize)
      ensures r.Err? ==> r.error == (if FullPath in Disk().dirs then DecodeFailure else NotFound)
      ensures r.Ok? ==> Describes(r.value, Disk().State(), FullPath, JsonExtension, deserialize)
    {
      var files :- Disk().GetFiles(FullPath);
      ghost var disk := Disk().State();
      var dictionary: map<string, T> := map[];
      for i := 0 to |files|
        invariant Collect(disk, files[..i], JsonExtension, deserialize) == Some(dictionary)
      {
        var file := files[i];
        CollectStep(disk, files, i, JsonExtension, deserialize);
        if FileExtension(file) == JsonExtension {
          var key := FileNameWithoutExtension(file);
          CollectAddsNewKey(disk, FullPath, files, i, JsonExtension, deserialize);
          assert key !in dictionary;
          var text := Disk().ReadAllText(file);
          var decoded := deserialize(text.value);
          if decoded.None? {
            assert file in FilesIn(disk, FullPath);
            return Err(DecodeFailure);
          }
          dictionary := dictionary[key := decoded.value];
        }
      }
      assert files[..|files|] == files;
      CollectListing(disk, FullPath, files, JsonExtension, deserialize);
      r := Ok(dictionary);
    }

    /** Deletes `name.json` if it is there. */
    method DeleteJson(name: string) returns (r: Outcome)
      requires Valid() && IsSegment(name)
      modifies Disk()
      ensures Valid()
      ensures Disk().State() == old(After(Disk().State(), RemoveFile(Disk().State(), Join(FullPath, name + JsonExtension))))
      ensures r == old(OutcomeOf(RemoveFile(Disk().State(), Join(FullPath, name + JsonExtension))))
      ensures r.Done? <==> old(FullPath in Disk().dirs && Join(FullPath, name + JsonExtension) !in Disk().dirs)
      ensures r.Done? ==> Join(FullPath, name + JsonExtension) !in Disk().files
    {
      EntryDirectoryExists(Disk().State(), FullPath, name + JsonExtension);
      r := Disk().DeleteFile(Join(FullPath, name + JsonExtension));
    }

    // -------------------------------------------------------------------
    // Text artifacts: `name.txt`
    // -------------------------------------------------------------------

    /** Writes `text` to `name.txt`, replacing what was there. */
    method SaveText(name: string, text: string) returns (r: Outcome)
      requires Valid() && IsSegment(name)
      modifies Disk()
      ensures Valid()
      ensures Disk().State() == old(After(Disk().State(), WriteFile(Disk().State(), Join(FullPath, name + TextExtension), Text(text))))
      ensures r == old(OutcomeOf(WriteFile(Disk().State(), Join(FullPath, name + TextExtension), Text(text))))
      ensures r.Done? <==> old(FullPath in Disk().dirs && Join(FullPath, name + TextExtension) !in Disk().dirs)
      ensures r.Fail? ==> r.error == (if old(FullPath in Disk().dirs) then IOFailure else NotFound)
    {
      EntryDirectoryExists(Disk().State(), FullPath, name + TextExtension);
      r := Disk().WriteAllText(Join(FullPath, name + TextExtension), text);
    }

    /** The text of `name.txt`. */
    method GetText(name: string) returns (r: Result<string>)
      ensures var p := Join(FullPath, name + TextExtension);
        r.Ok? <==> p in Disk().files
      ensures var p := Join(FullPath, name + TextExtension);
        r.Ok? ==> r.value == AsText(Disk().files[p])
      ensures var p := Join(FullPath, name + TextExtension);
        r.Err? ==> r.error == (if p in Disk().dirs then IOFailure else NotFound)
    {
      r := Disk().ReadAllText(Join(FullPath, name + TextExtension));
    }

    /** Whether `name.txt` exists. */
    method HasText(name: string) returns (b: bool)
      ensures b <==> Join(FullPath, name + TextExtension) in Disk().files
    {
      b := Disk().FileExists(Join(FullPath, name + TextExtension));
    }

    /** The text of every `.txt` file directly in the directory, keyed by
        its name without extension; no key is added twice. */
    method GetAllText() returns (r: Result<map<string, string>>)
      ensures r.Ok? <==> FullPath in Disk().dirs
      ensures r.Err? ==> r.error == NotFound
      ensures r.Ok? ==> Describes(r.value, Disk().State(), FullPath, TextExtension, Accept)
    {
      var files :- Disk().GetFiles(FullPath);
      ghost var disk := Disk().State();
      var dictionary: map<string, string> := map[];
      for i := 0 to |files|
        invariant Collect(disk, files[..i], TextExtension, Accept) == Some(dictionary)
      {
        var file := files[i];
        CollectStep(disk, files, i, TextExtension, Accept);
        if FileExtension(file) == TextExtension {
          var key := FileNameWithoutExtension(file);
          CollectAddsNewKey(disk, FullPath, files, i, TextExtension, Accept);
          assert key !in dictionary;
          var text := Disk().ReadAllText(file);
          assert Accept(AsText(disk.files[file])) == Some(text.value);
          dictionary := dictionary[key := text.value];
        }
      }
      assert files[..|files|] == files;
      CollectListing(disk, FullPath, files, TextExtension, Accept);
      r := Ok(dictionary);
    }

    /** Deletes `name.txt` if it is there. */
    method DeleteText(name: string) returns (r: Outcome)
      requires Valid() && IsSegment(name)
      modifies Disk()
      ensures Valid()
      ensures Disk().State() == old(After(Disk().State(), RemoveFile(Disk().State(), Join(FullPath, name + TextExtension))))
      ensures r == old(OutcomeOf(RemoveFile(Disk().State(), Join(FullPath, name + TextExtension))))
      ensures r.Done? <==> old(FullPath in Disk().dirs && Join(FullPath, name + TextExtension) !in Disk().dirs)
      ensures r.Done? ==> Join(FullPath, name + TextExtension) !in Disk().files
    {
      EntryDirectoryExists(Disk().State(), FullPath, name + TextExtension);
      r := Disk().DeleteFile(Join(FullPath, name + TextExtension));
    }

    // -------------------------------------------------------------------
    // Files with a caller-supplied extension: `name + extension`
    // -------------------------------------------------------------------

    /** Writes the text `data` to `name + extension`, replacing what was
        there. */
    method SaveFile(name: string, extension: string, data: string) returns (r: Outcome)
      requires Valid() && IsSegment(name) && Sep !in extension
      modifies Disk()
      ensures Valid()
      ensures Disk().State() == old(After(Disk().State(), WriteFile(Disk().State(), Join(FullPath, name + extension), Text(data))))
      ensures r == old(OutcomeOf(WriteFile(Disk().State(), Join(FullPath, name + extension), Text(data))))
      ensures r.Done? <==> old(FullPath in Disk().dirs && Join(FullPath, name + extension) !in Disk().dirs)
    {
      EntryDirectoryExists(Disk().State(), FullPath, name + extension);
      r := Disk().WriteAllText(Join(FullPath, name + extension), data);
    }

    /** Writes the bytes `data` to `name + extension`, replacing what was
        there. */
    method SaveFileBytes(name: string, extension: string, data: seq<byte>) returns (r: Outcome)
      requires Valid() && IsSegment(name) && Sep !in extension
      modifies Disk()
      ensures Valid()
      ensures Disk().State() == old(After(Disk().State(), WriteFile(Disk().State(), Join(FullPath, name + extension), Binary(data))))
      ensures r == old(OutcomeOf(WriteFile(Disk().State(), Join(FullPath, name + extension), Binary(data))))
      ensures r.Done? <==> old(FullPath in Disk().dirs && Join(FullPath, name + extension) !in Disk().dirs)
    {
      EntryDirectoryExists(Disk().State(), FullPath, name + extension);
      r := Disk().WriteAllBytes(Join(FullPath, name + extension), data);
    }

    /** Deletes `name + extension` if it exists, creates it empty and
        copies the rest of the stream into it: the file then holds exactly
        the stream's remaining bytes, as `SaveFileBytes` would leave it. */
    method SaveFileStream(name: string, extension: string, data: Stream) returns (r: Outcome)
      requires Valid() && IsSegment(name) && Sep !in extension
      modifies Disk()
      ensures Valid()
      ensures Disk().State() == old(After(Disk().State(), WriteFile(Disk().State(), Join(FullPath, name + extension), Binary(data.Remaining()))))
      ensures r == old(OutcomeOf(WriteFile(Disk().State(), Join(FullPath, name + extension), Binary(data.Remaining()))))
    {
      var path := Join(FullPath, name + extension);
      ghost var before := Disk().State();
      var found := Disk().FileExists(path);
      if found {
        RemoveThenWrite(before, path, Binary([]));
        RemoveThenWrite(before, path, Binary(data.Remaining()));
        var _ := Disk().DeleteFile(path);
      }
      r := Disk().WriteAllBytes(path, []);
      if r.Fail? {
        return;
      }
      WriteEmptyThenAppend(before, path, data.Remaining());
      Disk().CopyTo(path, data.Remaining());
    }

    /** The handle on `name + extension`: the entry of the category's
        directory whose last segment is `name + extension`. */
    function GetFile(name: string, extension: string): (p: string)
      requires IsSegment(name) && Sep !in extension
      ensures IsChild(FullPath, p) && BaseName(p) == name + extension
    {
      JoinIsChild(FullPath, name + extension);
      Join(FullPath, name + extension)
    }

    /** Whether `name + extension` exists. */
    method HasFile(name: string, extension: string) returns (b: bool)
      ensures b <==> Join(FullPath, name + extension) in Disk().files
    {
      b := Disk().FileExists(Join(FullPath, name + extension));
    }

    /** Every file directly in the directory, each once. */
    method GetAllFiles() returns (r: Result<seq<string>>)
      ensures r.Ok? <==> FullPath in Disk().dirs
      ensures r.Err? ==> r.error == NotFound
      ensures r.Ok? ==> Distinct(r.value)
      ensures r.Ok? ==> forall p :: p in r.value <==> p in FilesIn(Disk().State(), FullPath)
    {
      r := Disk().GetFiles(FullPath);
    }

    /** The files directly in the directory whose extension is exactly
        `extension`: the subset of `GetAllFiles` it selects, each once. */
    method GetAllFilesWithExtension(extension: string) returns (r: Result<seq<string>>)
      ensures r.Ok? <==> FullPath in Disk().dirs
      ensures r.Err? ==> r.error == NotFound
      ensures r.Ok? ==> Distinct(r.value)
      ensures r.Ok? ==> forall p :: p in r.value <==> p in FilesIn(Disk().State(), FullPath) && FileExtension(p) == extension
    {
      var files :- Disk().GetFiles(FullPath);
      WithExtensionDistinct(files, extension);
      r := Ok(WithExtension(files, extension));
    }

    /** Deletes `name + extension` if it is there. */
    method DeleteFile(name: string, extension: string) returns (r: Outcome)
      requires Valid() && IsSegment(name) && Sep !in extension
      modifies Disk()
      ensures Valid()
      ensures Disk().State() == old(After(Disk().State(), RemoveFile(Disk().State(), Join(FullPath, name + extension))))
      ensures r == old(OutcomeOf(RemoveFile(Disk().State(), Join(FullPath, name + extension))))
      ensures r.Done? <==> old(FullPath in Disk().dirs && Join(FullPath, name + extension) !in Disk().dirs)
      ensures r.Done? ==> Join(FullPath, name + extension) !in Disk().files
    {
      EntryDirectoryExists(Disk().State(), FullPath, name + extension);
      r := Disk().DeleteFile(Join(FullPath, name + extension));
    }
  }

  // ---------------------------------------------------------------------
  // Properties across several calls
  // ---------------------------------------------------------------------

  /** Creating the same subcategory twice leaves the disk as creating it
      once, and the two handles name the same directory. */
  method CreateSubCategoryTwice(category: DatabaseCategory, name: string)
    returns (first: Result<DatabaseCategory>, second: Result<DatabaseCategory>)
    requires category.Valid() && IsSegment(name)
    modifies category.Disk()
    ensures category.Disk().State() == old(After(category.Disk().State(), CreateDir(category.Disk().State(), Join(category.FullPath, name))))
    ensures first.Ok? <==> second.Ok?
    ensures first.Ok? ==> first.value.FullPath == second.value.FullPath == Join(category.FullPath, name)
  {
    ghost var before := category.Disk().State();
    first := category.CreateSubCategory(name);
    if first.Ok? {
      CreateDirIdempotent(before, Join(category.FullPath, name));
    }
    second := category.CreateSubCategory(name);
  }

  /** Text saved under a name reads back unchanged and is reported present;
      once deleted it is reported absent. */
  method TextRoundTrip(category: DatabaseCategory, name: string, text: string)
    returns (saved: Outcome, read: Result<string>, present: bool, deleted: Outcome, presentAfter: bool)
    requires category.Valid() && IsSegment(name)
    modifies category.Disk()
    ensures saved.Done? <==> old(category.FullPath in category.Disk().dirs && Join(category.FullPath, name + TextExtension) !in category.Disk().dirs)
    ensures saved.Done? ==> read == Ok(text) && present && deleted.Done? && !presentAfter
  {
    ghost var path := Join(category.FullPath, name + TextExtension);
    saved := category.SaveText(name, text);
    assert saved.Done? ==> path in category.Disk().files && category.Disk().files[path] == Text(text);
    read := category.GetText(name);
    present := category.HasText(name);
    deleted := category.DeleteText(name);
    presentAfter := category.HasText(name);
  }
}
