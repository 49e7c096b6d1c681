/** The `EasyDatabase` lineage, the older form of the same design: a
    `Database` anchors a root directory and keeps the list `Categories`; an
    `EasyDatabaseCategory` is a handle on a directory beneath it whose path
    is its parent's path, a separator and its name. Unlike the `EzDatabase`
    handle, it keeps the list `SubCategories`, loaded when the handle is made
    and therefore recursively for the whole subtree, and appended to without
    any duplicate check. Its subcategory delete is not recursive. */
module EasyDatabase {
  import opened Paths
  import opened CaseFolding
  import opened SystemIO

  /** The names of a list of category handles, in order. */
  function Names(cats: seq<EasyDatabaseCategory>): seq<string> {
    seq(|cats|, i requires 0 <= i < |cats| => cats[i].Name)
  }

  /** The directory paths of a list of category handles, in order. */
  function CategoryPaths(cats: seq<EasyDatabaseCategory>): seq<string> {
    seq(|cats|, i requires 0 <= i < |cats| => cats[i].Path)
  }

  /** `cats` holds one handle per immediate subdirectory of `dir` on the
      disk `s`, each once. */
  ghost predicate Mirrors(s: Fs, dir: string, cats: seq<EasyDatabaseCategory>) {
    Distinct(CategoryPaths(cats)) && forall p :: p in CategoryPaths(cats) <==> p in Subdirectories(s, dir)
  }

  /** The bytes `SaveFile` takes from a stream: all of a memory stream's
      buffer (`ToArray`), or what is left of any other stream after copying
      it into a memory stream. */
  function StreamBytes(data: Stream): (bytes: seq<byte>)
    ensures data.isMemoryStream ==> bytes == data.buffer
    ensures |bytes| <= |data.buffer| && bytes == data.buffer[|data.buffer| - |bytes|..]
  {
    if data.isMemoryStream then data.buffer else data.Remaining()
  }

  /** What the decoding loop of `GetAllJson<T>` returns for a listing of
      files of the disk `s`: the value of each file whose extension is
      `ext`, in listing order; None once `value` rejects one. */
  function DecodeAll<V>(s: Fs, files: seq<string>, ext: string, value: string -> Option<V>): (r: Option<seq<V>>)
    requires forall p :: p in files ==> p in s.files
    ensures r.Some? ==> |r.value| == |WithExtension(files, ext)|
  {
    if files == [] then Some([])
    else
      var last := files[|files| - 1];
      var init := DecodeAll(s, files[..|files| - 1], ext, value);
      if init.None? || FileExtension(last) != ext then init
      else match value(AsText(s.files[last]))
        case None => None
        case Some(v) => Some(init.value + [v])
  }

  /** One more file of the listing extends the result as the loop body
      does. */
  lemma DecodeAllStep<V>(s: Fs, files: seq<string>, i: nat, ext: string, value: string -> Option<V>)
    requires i < |files| && forall p :: p in files ==> p in s.files
    ensures DecodeAll(s, files[..i + 1], ext, value) ==
      var init := DecodeAll(s, files[..i], ext, value);
      if init.None? || FileExtension(files[i]) != ext then init
      else match value(AsText(s.files[files[i]]))
        case None => None
        case Some(v) => Some(init.value + [v])
  {
    assert files[..i + 1][..i] == files[..i];
  }

  /** The decoding succeeds exactly when `value` accepts every file of the
      listing whose extension is `ext`. */
  lemma {:induction false} DecodeAllAccepted<V>(s: Fs, files: seq<string>, ext: string, value: string -> Option<V>)
    requires forall p :: p in files ==> p in s.files
    ensures DecodeAll(s, files, ext, value).Some? <==>
      forall p :: p in files && FileExtension(p) == ext ==> value(AsText(s.files[p])).Some?
  {
    if files != [] {
      var i := |files| - 1;
      var init, last := files[..i], files[i];
      assert files[..i + 1] == files;
      assert forall p :: p in files <==> p in init || p == last;
      DecodeAllStep(s, files, i, ext, value);
      DecodeAllAccepted(s, init, ext, value);
    }
  }

  /** When it succeeds, the `k`-th value is the value of the `k`-th file
      of the listing whose extension is `ext`: one value per such file. */
  lemma {:induction false} DecodeAllValues<V>(s: Fs, files: seq<string>, ext: string, value: string -> Option<V>)
    requires forall p :: p in files ==> p in s.files
    ensures DecodeAll(s, files, ext, value).Some? ==>
      var vs := DecodeAll(s, files, ext, value).value;
      var selected := WithExtension(files, ext);
      |vs| == |selected| &&
      forall k :: 0 <= k < |vs| ==> selected[k] in s.files && value(AsText(s.files[selected[k]])) == Some(vs[k])
  {
    if files != [] {
      var i := |files| - 1;
      assert files[..i + 1] == files;
      DecodeAllStep(s, files, i, ext, value);
      DecodeAllValues(s, files[..i], ext, value);
    }
  }

  class Database {
    /** The name of the database, which is also the path of its root
        directory. */
    const Name: string
    /** The top-level categories known to this handle. */
    var Categories: seq<EasyDatabaseCategory>
    /** The disk the database lives on. */
    const fs: FileSystem

    ghost predicate Valid()
      reads this, fs
    {
      && fs.Valid()
      && |Name| > 0
      && forall c :: c in Categories ==> c.IsTopLevelIn(this)
    }

    /** `new Database(name)`: the root directory exists afterwards and
        `Categories` lists its immediate subdirectories, each loaded with
        its whole subtree. */
    constructor (disk: FileSystem, name: string)
      requires disk.Valid() && |name| > 0 && CreateDir(disk.State(), name).Ok?
      modifies disk
      ensures fs == disk && Name == name && Valid()
      ensures name in disk.dirs
      ensures disk.State() == CreateDir(old(disk.State()), name).value
      ensures Mirrors(disk.State(), name, Categories)
      ensures forall c :: c in Categories ==> fresh(c) && c.MirrorsTree(disk.State())
    {
      Name := name;
      fs := disk;
      Categories := [];
      new;
      Initialize();
    }

    /** Creates the root directory and loads the categories. */
    method Initialize()
      requires Valid() && CreateDir(fs.State(), Name).Ok?
      modifies this`Categories, fs
      ensures Valid() && Name in fs.dirs
      ensures fs.State() == CreateDir(old(fs.State()), Name).value
      ensures Mirrors(fs.State(), Name, Categories)
      ensures forall c :: c in Categories ==> fresh(c) && c.MirrorsTree(fs.State())
    {
      var _ := fs.CreateDirectory(Name);
      var listed := GetCategories();
      assert listed.Ok?;
    }

    /** Gets or creates the category `name`: its directory exists
        afterwards, and it is appended to `Categories` unless a category
        whose name equals it ignoring case is already listed. */
    method CreateCategory(name: string) returns (r: Result<EasyDatabaseCategory>)
      requires Valid() && IsSegment(name)
      modifies this`Categories, fs
      ensures Valid()
      ensures fs.State() == old(After(fs.State(), CreateDir(fs.State(), Join(Name, name))))
      ensures r.Ok? <==> old(CreateDir(fs.State(), Join(Name, name))).Ok?
      ensures r.Err? ==> r.error == IOFailure && Categories == old(Categories)
      ensures r.Ok? ==> fresh(r.value) && r.value.Name == name && r.value.IsTopLevelIn(this)
      ensures r.Ok? ==> r.value.Path in fs.dirs && r.value.MirrorsTree(fs.State())
      ensures r.Ok? ==> Names(Categories) == AddIfAbsent(old(Names(Categories)), name)
      ensures r.Ok? ==> Categories == old(Categories) || Categories == old(Categories) + [r.value]
      ensures old(DistinctIgnoringCase(Names(Categories))) ==> DistinctIgnoringCase(Names(Categories))
      ensures |Categories| <= old(|Categories|) + 1
    {
      if DistinctIgnoringCase(Names(Categories)) {
        AddIfAbsentKeepsDistinct(Names(Categories), name);
      }
      if CreateDir(fs.State(), Join(Name, name)).Err? {
        return Err(IOFailure);
      }
      var category := new EasyDatabaseCategory(this, name);
      if !ContainsIgnoringCase(Names(Categories), name) {
        assert Names(Categories + [category]) == Names(Categories) + [name];
        Categories := Categories + [category];
      }
      r := Ok(category);
    }

    /** `GetCategory` does what `CreateCategory` does: a missing category is
        created, not reported. */
    method GetCategory(name: string) returns (r: Result<EasyDatabaseCategory>)
      requires Valid() && IsSegment(name)
      modifies this`Categories, fs
      ensures Valid()
      ensures fs.State() == old(After(fs.State(), CreateDir(fs.State(), Join(Name, name))))
      ensures r.Ok? <==> old(CreateDir(fs.State(), Join(Name, name))).Ok?
      ensures r.Err? ==> r.error == IOFailure && Categories == old(Categories)
      ensures r.Ok? ==> fresh(r.value) && r.value.Name == name && r.value.IsTopLevelIn(this)
      ensures r.Ok? ==> r.value.Path in fs.dirs && r.value.MirrorsTree(fs.State())
      ensures r.Ok? ==> Names(Categories) == AddIfAbsent(old(Names(Categories)), name)
      ensures r.Ok? ==> Categories == old(Categories) || Categories == old(Categories) + [r.value]
      ensures old(DistinctIgnoringCase(Names(Categories))) ==> DistinctIgnoringCase(Names(Categories))
      ensures |Categories| <= old(|Categories|) + 1
    {
      if DistinctIgnoringCase(Names(Categories)) {
        AddIfAbsentKeepsDistinct(Names(Categories), name);
      }
      if CreateDir(fs.State(), Join(Name, name)).Err? {
        return Err(IOFailure);
      }
      var category := new EasyDatabaseCategory(this, name);
      if !ContainsIgnoringCase(Names(Categories), name) {
        assert Names(Categories + [category]) == Names(Categories) + [name];
        Categories := Categories + [category];
      }
      r := Ok(category);
    }

    /** Replaces `Categories` by a fresh list with one handle per immediate
        subdirectory of the root, each loaded with its subtree; the disk is
        left as it was. */
    method GetCategories() returns (r: Result<seq<EasyDatabaseCategory>>)
      requires Valid()
      modifies this`Categories, fs
      ensures Valid() && fs.State() == old(fs.State())
      ensures r.Ok? <==> Name in fs.dirs
      ensures r.Err? ==> r.error == NotFound && Categories == old(Categories)
      ensures r.Ok? ==> Categories == r.value && Mirrors(fs.State(), Name, Categories)
      ensures r.Ok? ==> forall c :: c in Categories ==> fresh(c) && c.MirrorsTree(fs.State())
    {
      var directories :- fs.GetDirectories(Name);
      ghost var disk := fs.State();
      var result: seq<EasyDatabaseCategory> := [];
      for i := 0 to |directories|
        invariant fs.Valid() && fs.State() == disk
        invariant |result| == i
        invariant forall j :: 0 <= j < i ==> result[j].IsTopLevelIn(this) && result[j].Path == directories[j]
        invariant forall c :: c in result ==> fresh(c) && c.MirrorsTree(disk)
      {
        var category := CategoryAt(directories[i]);
        result := result + [category];
      }
      assert CategoryPaths(result) == directories;
      Categories := result;
      r := Ok(result);
    }

    /** The body of that loop: a fresh category on the existing directory
        `directory`, loaded with its subtree, leaving the disk as it was. */
    method CategoryAt(directory: string) returns (category: EasyDatabaseCategory)
      requires fs.Valid() && directory in Subdirectories(fs.State(), Name)
      modifies fs
      ensures fs.Valid() && fs.State() == old(fs.State())
      ensures fresh(category) && category.IsTopLevelIn(this) && category.Path == directory
      ensures category.MirrorsTree(fs.State())
    {
      ChildIsJoin(Name, directory);
      CreateExistingDir(fs.State(), directory);
      category := new EasyDatabaseCategory(this, BaseName(directory));
    }

    /** Deletes the category `name` with everything beneath it and reloads
        `Categories`, which then lists no category of that name. */
    method DeleteCategory(name: string) returns (r: Outcome)
      requires Valid() && IsSegment(name)
      modifies this`Categories, fs
      ensures Valid()
      ensures fs.State() == old(After(fs.State(), DeleteDir(fs.State(), Join(Name, name), true)))
      ensures r == old(OutcomeOf(DeleteDir(fs.State(), Join(Name, name), true)))
      ensures r.Fail? ==> Categories == old(Categories)
      ensures r.Done? ==> Mirrors(fs.State(), Name, Categories) && name !in Names(Categories)
    {
      AncestorsOfJoin(Name, name);
      r := fs.Delete(Join(Name, name), true);
      if r.Fail? {
        return;
      }
      var listed := GetCategories();
      assert listed.Ok?;
      forall i | 0 <= i < |Categories|
        ensures Categories[i].Name != name
      {
        var c := Categories[i];
        assert CategoryPaths(Categories)[i] == c.Path;
        assert c in Categories && c.IsTopLevelIn(this);
        JoinIsChild(Name, c.Name);
        DeletedNameNotListed(fs.State(), Name, name, c.Path);
      }
    }
  }

  class EasyDatabaseCategory {
    const Name: string
    const BaseDatabase: Database
    /** The path of the category's directory. */
    const Path: string
    /** The enclosing category, or null for a top-level category. */
    const ParentCategory: EasyDatabaseCategory?
    /** The subcategories known to this handle. */
    var SubCategories: seq<EasyDatabaseCategory>
    /** This handle and every handle reachable through `SubCategories`. */
    ghost var Repr: set<EasyDatabaseCategory>

    /** The disk the category lives on. */
    function Disk(): FileSystem {
      BaseDatabase.fs
    }

    /** A top-level category of `db`: its path is the root's path, a
        separator and its name. */
    predicate IsTopLevelIn(db: Database) {
      && BaseDatabase == db && ParentCategory == null
      && IsSegment(Name) && Path == Join(db.Name, Name)
    }

    /** A subcategory of `parent`: its path is the parent's path, a
        separator and its name. */
    predicate IsSubCategoryOf(parent: EasyDatabaseCategory) {
      && BaseDatabase == parent.BaseDatabase && ParentCategory == parent
      && IsSegment(Name) && Path == Join(parent.Path, Name)
    }

    /** The handle's path has the shape its parent (or the database, for a
        top-level category) gives it. */
    predicate Placed() {
      if ParentCategory == null then IsTopLevelIn(BaseDatabase) else IsSubCategoryOf(ParentCategory)
    }

    /** The handle tree rooted here is well formed: every path has its
        shape, every subcategory points back to this handle, and the tree is
        finite and acyclic. */
    ghost predicate Valid()
      reads this, Repr
      decreases Repr
    {
      && this in Repr
      && Placed()
      && forall c :: c in SubCategories ==>
           && c in Repr && c.Repr <= Repr && this !in c.Repr
           && c.IsSubCategoryOf(this) && c.Valid()
    }

    /** The handle tree rooted here mirrors the directory tree beneath
        `Path` on the disk `s`: at every level `SubCategories` holds one
        handle per immediate subdirectory, each once. */
    ghost predicate MirrorsTree(s: Fs)
      reads this, Repr
      decreases Repr
    {
      && Valid()
      && Mirrors(s, Path, SubCategories)
      && forall c :: c in SubCategories ==> c.MirrorsTree(s)
    }

    /** A top-level category of `database`: its directory is created if
        missing and its subtree is loaded. */
    constructor (database: Database, name: string)
      requires database.fs.Valid() && IsSegment(name)
      requires CreateDir(database.fs.State(), Join(database.Name, name)).Ok?
      modifies database.fs
      ensures Name == name && IsTopLevelIn(database)
      ensures Valid() && fresh(Repr) && MirrorsTree(Disk().State())
      ensures Disk().Valid() && Path in Disk().dirs
      ensures Disk().State() == CreateDir(old(database.fs.State()), Path).value
    {
      Name := name;
      BaseDatabase := database;
      ParentCategory := null;
      Path := Join(database.Name, name);
      SubCategories := [];
      Repr := {this};
      new;
      CreateDirAddsNothingBeneath(Disk().State(), Path);
      var _ := Disk().CreateDirectory(Path);
      var listed := GetSubCategories();
      assert listed.Ok?;
    }

    /** A subcategory of `category`: its directory is created if missing
        and its subtree is loaded. */
    constructor Sub(category: EasyDatabaseCategory, name: string)
      requires category.Disk().Valid() && IsSegment(name)
      requires CreateDir(category.Disk().State(), Join(category.Path, name)).Ok?
      modifies category.Disk()
      decreases |DirsBeneath(category.Disk().State(), Join(category.Path, name))|, 2
      ensures Name == name && IsSubCategoryOf(category)
      ensures Valid() && fresh(Repr) && MirrorsTree(Disk().State())
      ensures Disk().Valid() && Path in Disk().dirs
      ensures Disk().State() == CreateDir(old(category.Disk().State()), Path).value
    {
      Name := name;
      BaseDatabase := category.BaseDatabase;
      ParentCategory := category;
      Path := Join(category.Path, name);
      SubCategories := [];
      Repr := {this};
      new;
      CreateDirAddsNothingBeneath(Disk().State(), Path);
      var _ := Disk().CreateDirectory(Path);
      var listed := GetSubCategories();
      assert listed.Ok?;
    }

    // -------------------------------------------------------------------
    // Subcategories
    // -------------------------------------------------------------------

    /** Creates (or opens) the subcategory `name` and appends it to
        `SubCategories`, whether or not a handle of that name is already
        listed. */
    method CreateSubCategory(name: string) returns (r: Result<EasyDatabaseCategory>)
      requires Placed() && Disk().Valid() && IsSegment(name)
      modifies this, Disk()
      ensures Disk().Valid() && (old(Valid()) ==> Valid())
      ensures Disk().State() == old(After(Disk().State(), CreateDir(Disk().State(), Join(Path, name))))
      ensures r.Ok? <==> old(CreateDir(Disk().State(), Join(Path, name))).Ok?
      ensures r.Err? ==> r.error == IOFailure && SubCategories == old(SubCategories)
      ensures r.Ok? ==> SubCategories == old(SubCategories) + [r.value]
      ensures r.Ok? ==> fresh(r.value) && r.value.Name == name && r.value.IsSubCategoryOf(this)
      ensures r.Ok? ==> r.value.Path in Disk().dirs && r.value.MirrorsTree(Disk().State())
      ensures fresh(Repr - old(Repr))
    {
      if CreateDir(Disk().State(), Join(Path, name)).Err? {
        return Err(IOFailure);
      }
      var subcategory := new EasyDatabaseCategory.Sub(this, name);
      SubCategories := SubCategories + [subcategory];
      Repr := Repr + subcategory.Repr;
      r := Ok(subcategory);
    }

    /** `GetSubCategory` does what `CreateSubCategory` does: the directory
        is created if missing and a handle is appended. */
    method GetSubCategory(name: string) returns (r: Result<EasyDatabaseCategory>)
      requires Placed() && Disk().Valid() && IsSegment(name)
      modifies this, Disk()
      ensures Disk().Valid() && (old(Valid()) ==> Valid())
      ensures Disk().State() == old(After(Disk().State(), CreateDir(Disk().State(), Join(Path, name))))
      ensures r.Ok? <==> old(CreateDir(Disk().State(), Join(Path, name))).Ok?
      ensures r.Err? ==> r.error == IOFailure && SubCategories == old(SubCategories)
      ensures r.Ok? ==> SubCategories == old(SubCategories) + [r.value]
      ensures r.Ok? ==> fresh(r.value) && r.value.Name == name && r.value.IsSubCategoryOf(this)
      ensures r.Ok? ==> r.value.Path in Disk().dirs && r.value.MirrorsTree(Disk().State())
      ensures fresh(Repr - old(Repr))
    {
      if CreateDir(Disk().State(), Join(Path, name)).Err? {
        return Err(IOFailure);
      }
      var subcategory := new EasyDatabaseCategory.Sub(this, name);
      SubCategories := SubCategories + [subcategory];
      Repr := Repr + subcategory.Repr;
      r := Ok(subcategory);
    }

    /** Replaces `SubCategories` by fresh handles, one per immediate
        subdirectory, each loaded with its own subtree; the disk is left as
        it was. */
    method GetSubCategories() returns (r: Result<seq<EasyDatabaseCategory>>)
      requires Placed() && Disk().Valid()
      modifies this, Disk()
      decreases |DirsBeneath(Disk().State(), Path)|, 1
      ensures Disk().Valid() && (old(Valid()) ==> Valid()) && Disk().State() == old(Disk().State())
      ensures r.Ok? <==> Path in Disk().dirs
      ensures r.Err? ==> r.error == NotFound && SubCategories == old(SubCategories) && Repr == old(Repr)
      ensures r.Ok? ==> SubCategories == r.value && MirrorsTree(Disk().State())
      ensures r.Ok? ==> fresh(Repr - {this})
    {
      var directories :- Disk().GetDirectories(Path);
      var result, built := LoadSubCategories(directories);
      SubCategories := result;
      Repr := {this} + built;
      AdoptedTree(Disk().State(), built);
      r := Ok(result);
    }

    /** The loop of `GetSubCategories`: one fresh subcategory per listed
        subdirectory, in listing order, each loaded with its own subtree;
        the disk is left as it was. */
    method LoadSubCategories(directories: seq<string>) returns (result: seq<EasyDatabaseCategory>, ghost built: set<EasyDatabaseCategory>)
      requires Disk().Valid()
      requires forall p :: p in directories ==> p in Subdirectories(Disk().State(), Path)
      modifies Disk()
      decreases |DirsBeneath(Disk().State(), Path)|, 0
      ensures Disk().Valid() && Disk().State() == old(Disk().State())
      ensures CategoryPaths(result) == directories
      ensures forall c :: c in result ==> c.IsSubCategoryOf(this) && c.Repr <= built && c.MirrorsTree(Disk().State())
      ensures fresh(built)
    {
      ghost var disk := Disk().State();
      result := [];
      built := {};
      for i := 0 to |directories|
        invariant Disk().Valid() && Disk().State() == disk
        invariant |result| == i
        invariant forall j :: 0 <= j < i ==> result[j].Path == directories[j]
        invariant forall c :: c in result ==> c.IsSubCategoryOf(this) && c.Repr <= built && c.MirrorsTree(disk)
        invariant fresh(built)
      {
        var directory := directories[i];
        assert directory in Subdirectories(disk, Path);
        DirsBeneathShrink(disk, Path, directory);
        var category := SubCategoryAt(directory);
        result := result + [category];
        built := built + category.Repr;
      }
      assert CategoryPaths(result) == directories;
    }

    /** The body of that loop: a fresh subcategory on the existing
        subdirectory `directory`, loaded with its subtree, leaving the disk
        as it was. */
    method SubCategoryAt(directory: string) returns (category: EasyDatabaseCategory)
      requires Disk().Valid() && directory in Subdirectories(Disk().State(), Path)
      modifies Disk()
      decreases |DirsBeneath(Disk().State(), directory)|, 3
      ensures Disk().Valid() && Disk().State() == old(Disk().State())
      ensures fresh(category.Repr) && category.IsSubCategoryOf(this) && category.Path == directory
      ensures category.Valid() && category.MirrorsTree(Disk().State())
    {
      ChildIsJoin(Path, directory);
      CreateExistingDir(Disk().State(), directory);
      category := new EasyDatabaseCategory.Sub(this, BaseName(directory));
    }

    /** Handles loaded by `LoadSubCategories` and adopted as this handle's
        subcategories make a tree that mirrors the disk. */
    lemma AdoptedTree(s: Fs, built: set<EasyDatabaseCategory>)
      requires Placed() && Repr == {this} + built && this !in built
      requires Mirrors(s, Path, SubCategories)
      requires forall c :: c in SubCategories ==> c.IsSubCategoryOf(this) && c.Repr <= built && c.MirrorsTree(s)
      ensures Valid() && MirrorsTree(s)
    {
    }

    /** Deletes the empty subdirectory `name` and reloads `SubCategories`;
        fails, changing nothing, when the directory is missing or not
        empty. */
    method DeleteSubCategory(name: string) returns (r: Outcome)
      requires Placed() && Disk().Valid() && IsSegment(name)
      modifies this, Disk()
      ensures Disk().Valid() && (old(Valid()) ==> Valid())
      ensures Disk().State() == old(After(Disk().State(), DeleteDir(Disk().State(), Join(Path, name), false)))
      ensures r == old(OutcomeOf(DeleteDir(Disk().State(), Join(Path, name), false)))
      ensures r.Done? <==> old(Join(Path, name) in Disk().dirs && IsEmptyDirectory(Disk().State(), Join(Path, name)))
      ensures r.Fail? ==> SubCategories == old(SubCategories)
      ensures r.Done? ==> MirrorsTree(Disk().State()) && name !in Names(SubCategories)
    {
      AncestorsOfJoin(Path, name);
      r := Disk().Delete(Join(Path, name), false);
      if r.Fail? {
        return;
      }
      var listed := GetSubCategories();
      assert listed.Ok?;
      forall i | 0 <= i < |SubCategories|
        ensures SubCategories[i].Name != name
      {
        var c := SubCategories[i];
        assert CategoryPaths(SubCategories)[i] == c.Path;
        assert c in SubCategories && c.IsSubCategoryOf(this);
        JoinIsChild(Path, c.Name);
        DeletedNameNotListed(Disk().State(), Path, name, c.Path);
      }
    }

    // -------------------------------------------------------------------
    // JSON artifacts: `name.json`
    // -------------------------------------------------------------------

    /** Writes `serialize(data)` to `name.json`, replacing what was there. */
    method SaveJson<T>(name: string, data: T, serialize: T -> string) returns (r: Outcome)
      requires Disk().Valid() && Placed() && IsSegment(name)
      modifies Disk()
      ensures Disk().Valid()
      ensures Disk().State() == old(After(Disk().State(), WriteFile(Disk().State(), Join(Path, name + JsonExtension), Text(serialize(data)))))
      ensures r == old(OutcomeOf(WriteFile(Disk().State(), Join(Path, name + JsonExtension), Text(serialize(data)))))
      ensures r.Done? <==> old(Path in Disk().dirs && Join(Path, name + JsonExtension) !in Disk().dirs)
    {
      EntryDirectoryExists(Disk().State(), Path, name + JsonExtension);
      r := Disk().WriteAllText(Join(Path, name + JsonExtension), serialize(data));
    }

    /** Reads `name.json` and decodes it. */
    method GetJson<T>(name: string, deserialize: string -> Option<T>) returns (r: Result<T>)
      ensures var p := Join(Path, name + JsonExtension);
        r.Ok? <==> p in Disk().files && deserialize(AsText(Disk().files[p])).Some?
      ensures var p := Join(Path, name + JsonExtension);
        r.Ok? ==> deserialize(AsText(Disk().files[p])) == Some(r.value)
      ensures var p := Join(Path, name + JsonExtension);
        r.Err? ==> r.error == (if p in Disk().files then DecodeFailure else if p in Disk().dirs then IOFailure else NotFound)
    {
      var text :- Disk().ReadAllText(Join(Path, name + JsonExtension));
      var decoded := deserialize(text);
      if decoded.None? {
        return Err(DecodeFailure);
      }
      r := Ok(decoded.value);
    }

    /** The handles on the files directly in the directory whose extension
        is `.json`, each once. */
    method GetAllJson() returns (r: Result<seq<string>>)
      ensures r.Ok? <==> Path in Disk().dirs
      ensures r.Err? ==> r.error == NotFound
      ensures r.Ok? ==> Distinct(r.value)
      ensures r.Ok? ==> forall p :: p in r.value <==> p in FilesWithExtension(Disk().State(), Path, JsonExtension)
    {
      var files :- Disk().GetFiles(Path);
      WithExtensionDistinct(files, JsonExtension);
      r := Ok(WithExtension(files, JsonExtension));
    }

    /** One decoded value per `.json` file directly in the directory: the
        `k`-th value comes from the `k`-th of the listed files `sources`,
        which are those files, each once. Fails when a file does not
        decode. */
    method GetAllJsonValues<T>(deserialize: string -> Option<T>) returns (r: Result<seq<T>>, ghost sources: seq<string>)
      ensures r.Ok? <==> Path in Disk().dirs && AllAccepted(Disk().State(), Path, JsonExtension, deserialize)
      ensures r.Err? ==> r.error == (if Path in Disk().dirs then DecodeFailure else NotFound)
      ensures r.Ok? ==> |r.value| == |FilesWithExtension(Disk().State(), Path, JsonExtension)|
      ensures r.Ok? ==> Distinct(sources) && |sources| == |r.value|
      ensures r.Ok? ==> forall p :: p in sources <==> p in FilesWithExtension(Disk().State(), Path, JsonExtension)
      ensures r.Ok? ==> forall k :: 0 <= k < |r.value| ==>
        sources[k] in Disk().files && deserialize(AsText(Disk().files[sources[k]])) == Some(r.value[k])
    {
      sources := [];
      var files :- Disk().GetFiles(Path);
      ghost var disk := Disk().State();
      var result: seq<T> := [];
      for i := 0 to |files|
        invariant DecodeAll(disk, files[..i], JsonExtension, deserialize) == Some(result)
      {
        var file := files[i];
        DecodeAllStep(disk, files, i, JsonExtension, deserialize);
        if FileExtension(file) == JsonExtension {
          var text := Disk().ReadAllText(file);
          var decoded := deserialize(text.value);
          if decoded.None? {
            assert file in FilesIn(disk, Path);
            return Err(DecodeFailure), sources;
          }
          result := result + [decoded.value];
        }
      }
      assert files[..|files|] == files;
      DecodeAllAccepted(disk, files, JsonExtension, deserialize);
      DecodeAllValues(disk, files, JsonExtension, deserialize);
      sources := WithExtension(files, JsonExtension);
      WithExtensionDistinct(files, JsonExtension);
      assert Elements(sources) == FilesWithExtension(disk, Path, JsonExtension);
      DistinctCardinality(sources);
      r := Ok(result);
    }

    /** Deletes `name.json` if it is there. */
    method DeleteJson(name: string) returns (r: Outcome)
      requires Disk().Valid() && Placed() && IsSegment(name)
      modifies Disk()
      ensures Disk().Valid()
      ensures Disk().State() == old(After(Disk().State(), RemoveFile(Disk().State(), Join(Path, name + JsonExtension))))
      ensures r == old(OutcomeOf(RemoveFile(Disk().State(), Join(Path, name + JsonExtension))))
      ensures r.Done? <==> old(Path in Disk().dirs && Join(Path, name + JsonExtension) !in Disk().dirs)
      ensures r.Done? ==> Join(Path, name + JsonExtension) !in Disk().files
    {
      EntryDirectoryExists(Disk().State(), Path, name + JsonExtension);
      r := Disk().DeleteFile(Join(Path, name + JsonExtension));
    }

    // -------------------------------------------------------------------
    // Files with a caller-supplied extension: `name + extension`
    // -------------------------------------------------------------------

    /** Writes the text `data` to `name + extension`, replacing what was
        there. */
    method SaveFile(name: string, extension: string, data: string) returns (r: Outcome)
      requires Disk().Valid() && Placed() && IsSegment(name) && Sep !in extension
      modifies Disk()
      ensures Disk().Valid()
      ensures Disk().State() == old(After(Disk().State(), WriteFile(Disk().State(), Join(Path, name + extension), Text(data))))
      ensures r == old(OutcomeOf(WriteFile(Disk().State(), Join(Path, name + extension), Text(data))))
      ensures r.Done? <==> old(Path in Disk().dirs && Join(Path, name + extension) !in Disk().dirs)
    {
      EntryDirectoryExists(Disk().State(), Path, name + extension);
      r := Disk().WriteAllText(Join(Path, name + extension), data);
    }

    /** Writes the bytes `data` to `name + extension`, replacing what was
        there. */
    method SaveFileBytes(name: string, extension: string, data: seq<byte>) returns (r: Outcome)
      requires Disk().Valid() && Placed() && IsSegment(name) && Sep !in extension
      modifies Disk()
      ensures Disk().Valid()
      ensures Disk().State() == old(After(Disk().State(), WriteFile(Disk().State(), Join(Path, name + extension), Binary(data))))
      ensures r == old(OutcomeOf(WriteFile(Disk().State(), Join(Path, name + extension), Binary(data))))
      ensures r.Done? <==> old(Path in Disk().dirs && Join(Path, name + extension) !in Disk().dirs)
    {
      EntryDirectoryExists(Disk().State(), Path, name + extension);
      r := Disk().WriteAllBytes(Join(Path, name + extension), data);
    }

    /** Writes the bytes of the stream to `name + extension`: the file then
        holds exactly what `SaveFileBytes` would leave for those bytes. */
    method SaveFileStream(name: string, extension: string, data: Stream) returns (r: Outcome)
      requires Disk().Valid() && Placed() && IsSegment(name) && Sep !in extension
      modifies Disk()
      ensures Disk().Valid()
      ensures Disk().State() == old(After(Disk().State(), WriteFile(Disk().State(), Join(Path, name + extension), Binary(StreamBytes(data)))))
      ensures r == old(OutcomeOf(WriteFile(Disk().State(), Join(Path, name + extension), Binary(StreamBytes(data)))))
    {
      if data.isMemoryStream {
        r := Disk().WriteAllBytes(Join(Path, name + extension), data.buffer);
      } else {
        var ms := data.Remaining();
        r := Disk().WriteAllBytes(Join(Path, name + extension), ms);
      }
    }

    /** The handle on `name + extension`: the entry of the category's
        directory whose last segment is `name + extension`. */
    function GetFile(name: string, extension: string): (p: string)
      requires IsSegment(name) && Sep !in extension
      ensures IsChild(Path, p) && BaseName(p) == name + extension
    {
      JoinIsChild(Path, name + extension);
      Join(Path, name + extension)
    }

    /** Every file directly in the directory, each once. */
    method GetAllFiles() returns (r: Result<seq<string>>)
      ensures r.Ok? <==> Path in Disk().dirs
      ensures r.Err? ==> r.error == NotFound
      ensures r.Ok? ==> Distinct(r.value)
      ensures r.Ok? ==> forall p :: p in r.value <==> p in FilesIn(Disk().State(), Path)
    {
      r := Disk().GetFiles(Path);
    }

    /** The files directly in the directory whose extension is exactly
        `extension`: the subset of `GetAllFiles` it selects, each once. */
    method GetAllFilesWithExtension(extension: string) returns (r: Result<seq<string>>)
      ensures r.Ok? <==> Path in Disk().dirs
      ensures r.Err? ==> r.error == NotFound
      ensures r.Ok? ==> Distinct(r.value)
      ensures r.Ok? ==> forall p :: p in r.value <==> p in FilesWithExtension(Disk().State(), Path, extension)
    {
      var files :- Disk().GetFiles(Path);
      WithExtensionDistinct(files, extension);
      r := Ok(WithExtension(files, extension));
    }

    /** Deletes `name + extension` if it is there. */
    method DeleteFile(name: string, extension: string) returns (r: Outcome)
      requires Disk().Valid() && Placed() && IsSegment(name) && Sep !in extension
      modifies Disk()
      ensures Disk().Valid()
      ensures Disk().State() == old(After(Disk().State(), RemoveFile(Disk().State(), Join(Path, name + extension))))
      ensures r == old(OutcomeOf(RemoveFile(Disk().State(), Join(Path, name + extension))))
      ensures r.Done? <==> old(Path in Disk().dirs && Join(Path, name + extension) !in Disk().dirs)
      ensures r.Done? ==> Join(Path, name + extension) !in Disk().files
    {
      EntryDirectoryExists(Disk().State(), Path, name + extension);
      r := Disk().DeleteFile(Join(Path, name + extension));
    }
  }

  /** Creating the same subcategory twice creates its directory once but
      appends two distinct handles on it: `SubCategories` keeps no check for
      duplicates. */
  method CreateSubCategoryTwice(category: EasyDatabaseCategory, name: string)
    returns (first: Result<EasyDatabaseCategory>, second: Result<EasyDatabaseCategory>)
    requires category.Placed() && category.Disk().Valid() && IsSegment(name)
    modifies category, category.Disk()
    ensures category.Disk().State() == old(After(category.Disk().State(), CreateDir(category.Disk().State(), Join(category.Path, name))))
    ensures first.Ok? <==> second.Ok?
    ensures first.Ok? ==> first.value != second.value && first.value.Path == second.value.Path == Join(category.Path, name)
    ensures first.Ok? ==> category.SubCategories == old(category.SubCategories) + [first.value, second.value]
  {
    ghost var before := category.Disk().State();
    first := category.CreateSubCategory(name);
    if first.Ok? {
      CreateDirIdempotent(before, Join(category.Path, name));
    }
    second := category.CreateSubCategory(name);
  }

  /** A value saved as JSON reads back as itself when the codec round-trips
      it; once deleted, reading it reports that it is missing. */
  method JsonRoundTrip<T>(category: EasyDatabaseCategory, name: string, data: T,
                          serialize: T -> string, deserialize: string -> Option<T>)
    returns (saved: Outcome, read: Result<T>, deleted: Outcome, readAfter: Result<T>)
    requires category.Placed() && category.Disk().Valid() && IsSegment(name)
    requires deserialize(serialize(data)) == Some(data)
    modifies category.Disk()
    ensures saved.Done? <==> old(category.Path in category.Disk().dirs && Join(category.Path, name + JsonExtension) !in category.Disk().dirs)
    ensures saved.Done? ==> read == Ok(data) && deleted.Done? && readAfter == Err(NotFound)
  {
    ghost var path := Join(category.Path, name + JsonExtension);
    saved := category.SaveJson(name, data, serialize);
    read := category.GetJson(name, deserialize);
    deleted := category.DeleteJson(name);
    readAfter := category.GetJson(name, deserialize);
  }

  /** A parent whose child has grown a subcategory of its own is still
      usable: reloading it rebuilds a tree that mirrors the disk, with the
      new subcategory in the child's place. */
  method NestedCreateThenReload(parent: EasyDatabaseCategory, child: string, grandchild: string)
    returns (c: Result<EasyDatabaseCategory>, g: Result<EasyDatabaseCategory>, reloaded: Result<seq<EasyDatabaseCategory>>)
    requires parent.Placed() && parent.Disk().Valid() && IsSegment(child) && IsSegment(grandchild)
    modifies parent, parent.Disk()
    ensures c.Ok? ==> c.value.IsSubCategoryOf(parent)
    ensures c.Ok? && g.Ok? ==> Join(Join(parent.Path, child), grandchild) in parent.Disk().dirs
    ensures reloaded.Ok? <==> parent.Path in parent.Disk().dirs
    ensures reloaded.Ok? ==> parent.MirrorsTree(parent.Disk().State())
  {
    g := Err(NotFound);
    c := parent.CreateSubCategory(child);
    if c.Ok? {
      g := c.value.CreateSubCategory(grandchild);
    }
    reloaded := parent.GetSubCategories();
  }
}
