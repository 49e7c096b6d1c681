# EzDatabase / EasyDatabase — a verified model of the category tree

EzDatabase is a small C# library that stores application data as plain files.
A `Database` owns a root directory named after it and keeps a list of
`Categories`. A category is a handle on a directory. A subcategory's path is
its parent's path, then `\`, then its name. In its directory a category
saves, reads, checks, lists and deletes artifacts:

- JSON files `name.json`, written with a JSON serializer;
- text files `name.txt`;
- files `name + extension` holding text, bytes or the contents of a stream.

The repository holds two lineages of the same design:

- `EzDatabase`: `Database` and `DatabaseCategory`. It has no cached
  subcategory list, a recursive subcategory delete, text artifacts and
  `Has*` checks.
- `EasyDatabase`, the older one: `Database` and `EasyDatabaseCategory`. Its
  handles keep a `SubCategories` list, which is filled when a handle is made
  and so loads the whole subtree. `CreateSubCategory` and `GetSubCategory`
  append to it without a duplicate check. `DeleteSubCategory` deletes an
  empty directory only.

The model is imperative, like the library.

- **The disk.** `SystemIO.FileSystem` is one mutable object shared by every
  handle. It holds a set of directory paths and a map from file paths to
  contents.
- **Primitives.** Each `System.IO` primitive the library calls is a method
  of `FileSystem`. Each method is proved against a function on the value
  `Fs` (`CreateDir`, `DeleteDir`, `WriteFile`, `ReadFile`, `RemoveFile`). A
  thrown exception is a `Fail`/`Err` result that leaves the disk as it was.
- **Handles.** The library's classes are Dafny classes. Their methods state
  the new disk as one of those functions applied to the old disk. They state
  the new `Categories` / `SubCategories` list in terms of the directory
  listing or of the old list.
- **Lemmas.** They prove the facts about those functions that the code relies on:
  - idempotent directory creation;
  - write-then-read;
  - delete-then-absent;
  - injective extension stripping;
  - case-insensitive de-duplication;
  - the measure that makes the recursive subtree loading terminate.

Modules, one file each:

| file | module | contents |
|---|---|---|
| `paths.dfy` | `Paths` | the `\` join, last segment, extension / stem split, extension filter, stem listing |
| `case_folding.dfy` | `CaseFolding` | ASCII `ToLower`, the case-insensitive add-if-absent bookkeeping |
| `system_io.dfy` | `SystemIO` | the disk: `Fs`, the primitive functions and their lemmas, `class FileSystem` |
| `ez_database.dfy` | `EzDatabase` | `Database`, `DatabaseCategory` and the listing loops' specification `Collect` |
| `easy_database.dfy` | `EasyDatabase` | `Database`, `EasyDatabaseCategory` and the listing loop's specification `DecodeAll` |

Behaviour of the code that the model keeps as written:

- `GetCategory` creates a missing category; it does not report one.
- `Categories` is de-duplicated by names compared ignoring case.
- In `EasyDatabase`, `DeleteSubCategory` is not recursive, and
  `GetSubCategory` creates and appends just as `CreateSubCategory` does.
- `EzDatabase/DatabaseCategory.cs:60` builds a top-level category's path
  from `BaseDatabase.FullPath`. `Database` declares no such member; it has
  only `Name` and `Categories` (`EzDatabase/Database.cs:16-21`). The model
  roots a top-level category at `Database.Name`, the directory
  `Database.Initialize` creates (`EzDatabase/Database.cs:36`). That is also
  what `EasyDatabase/EasyDatabaseCategory.cs:60` does.
- A stream is saved differently by the two lineages:
  - `EzDatabase` copies what follows the stream's position
    (`data.CopyTo`, `EzDatabase/DatabaseCategory.cs:305`).
  - `EasyDatabase` writes the whole buffer of a `MemoryStream` (`ToArray`)
    and what follows the position of any other stream
    (`EasyDatabase/EasyDatabaseCategory.cs:216-225`).

  `SaveFileStream` models each as written.

## Model

| member | source | states |
|---|---|---|
| Paths.LastIndexOf | EzDatabase/DatabaseCategory.cs:177 | the last occurrence of a character, or -1: the index is in range, holds the character, and no later index does |
| Paths.Join | EzDatabase/DatabaseCategory.cs:68 | `$"{dir}\\{name}"`: the path lies strictly beneath `dir`, and what follows `dir` and the separator is exactly `name` |
| Paths.BaseName | EzDatabase/DatabaseCategory.cs:106 | `DirectoryInfo.Name` / `FileInfo.Name`: a suffix of the path that contains no separator and follows one (or is the whole path) |
| Paths.Extension | EzDatabase/DatabaseCategory.cs:175 | `FileInfo.Extension`: empty exactly when the name has no period; otherwise a suffix of the name that starts with a period and has no further period, so it starts at the last period |
| Paths.Stem | EzDatabase/DatabaseCategory.cs:177 | `Path.GetFileNameWithoutExtension`: the stem followed by the extension is the name again |
| Paths.FileExtension | EzDatabase/DatabaseCategory.cs:175 | `file.Extension` of a listed file: empty exactly when the file's name has no period, otherwise a period followed by no further period; never contains a separator |
| Paths.FileNameWithoutExtension | EzDatabase/DatabaseCategory.cs:177 | `Path.GetFileNameWithoutExtension(file.Name)`: followed by the file's extension it is the file's name again, and it contains no separator |
| Paths.WithExtension | EzDatabase/DatabaseCategory.cs:347 | `files.Where(file => file.Extension == ext)`: a handle is kept if and only if it is listed and has exactly that extension; never longer than the listing |
| Paths.WithExtensionDistinct | EasyDatabase/EasyDatabaseCategory.cs:256 | filtering a listing without repetitions yields one without repetitions |
| Paths.JoinIsChild | EzDatabase/DatabaseCategory.cs:68 | a joined path is an immediate entry of the directory, whose last segment is the name joined |
| Paths.ChildIsJoin | EzDatabase/DatabaseCategory.cs:106 | an immediate entry is its directory joined with its last segment, which is a valid name |
| Paths.ChildrenWithSameName | EzDatabase/DatabaseCategory.cs:106 | two entries of one directory with the same last segment are the same path |
| Paths.SplitAppended | EzDatabase/DatabaseCategory.cs:129 | `name + ".json"` (any extension) splits back into that name and that extension |
| Paths.ChildSplit | EzDatabase/DatabaseCategory.cs:196 | an entry is its directory joined with its stem followed by its extension |
| Paths.SameStemSameFile | EzDatabase/DatabaseCategory.cs:196 | stripping one extension is injective on the entries of one directory |
| Paths.StemsAppend | EzDatabase/DatabaseCategory.cs:192-198 | one more listed file adds its stem to the listed stems exactly when it has the extension |
| Paths.NewFileNewStem | EzDatabase/DatabaseCategory.cs:196 | a file not yet visited contributes a key not yet in the dictionary, so `Dictionary.Add` never meets a duplicate |
| Paths.StemListedIffPresent | EzDatabase/DatabaseCategory.cs:159-181 | a name is listed by `GetAllJson` if and only if `HasJson` would find `name.json`: both directions |
| Paths.StemListMembers | EzDatabase/DatabaseCategory.cs:168-181 | the names the listing loop collects are exactly the stems of the listed files with the extension |
| Paths.StemListStep | EzDatabase/DatabaseCategory.cs:173-179 | one iteration of the listing loop adds the file's stem exactly when its extension matches |
| Paths.StemListDistinct | EzDatabase/DatabaseCategory.cs:168-181 | the listing loop collects each name once |
| Paths.DistinctCardinality | EasyDatabase/EasyDatabaseCategory.cs:163-177 | a listing without repetitions has as many elements as the set it lists, which ties the counts of the JSON listing and of the decoded values |
| CaseFolding.ToLower | EzDatabase/Database.cs:48 | `string.ToLower` on ASCII: same length, each letter lower-cased |
| CaseFolding.AddIfAbsent | EzDatabase/Database.cs:48-51 | the names after a create: the name is present afterwards; the list is unchanged exactly when a name equal to it ignoring case was there, and otherwise grows by that name at the end |
| CaseFolding.AddIfAbsentKeepsDistinct | EasyDatabase/Database.cs:63-66 | no two names equal ignoring case stays true across a create, and the list grows by at most one |
| SystemIO.CreateDir | EzDatabase/Database.cs:36 | `Directory.CreateDirectory`: succeeds exactly when no file is on the way; afterwards the directory exists, only it and its enclosing directories are new, and the files are untouched |
| SystemIO.DeleteDir | EzDatabase/DatabaseCategory.cs:118 | `Directory.Delete(path, recursive)`: succeeds exactly when the directory exists and, without `recursive`, is empty; fails with NotFound or IOFailure otherwise; removes the directory and everything beneath it and keeps every other path and its contents |
| SystemIO.WriteFile | EzDatabase/DatabaseCategory.cs:218 | `File.WriteAllText` / `WriteAllBytes`: succeeds exactly when the directory exists and the path is not a directory; afterwards the file holds exactly the payload and every other file is unchanged |
| SystemIO.ReadFile | EzDatabase/DatabaseCategory.cs:228 | `File.ReadAllText`: the contents of an existing file; NotFound for a missing path, IOFailure for a directory |
| SystemIO.AsText | EzDatabase/DatabaseCategory.cs:254 | what `File.ReadAllText` yields for a file: text reads back as written; bytes read back one character per byte, same length |
| SystemIO.Stream.Remaining | EzDatabase/DatabaseCategory.cs:305 | what `CopyTo` copies: the buffer is what precedes the position followed by these bytes; nothing when the position is past the end |
| SystemIO.RemoveFile | EzDatabase/DatabaseCategory.cs:266 | `File.Delete`: a missing file is not an error; afterwards the file is absent and every other file is unchanged |
| SystemIO.AncestorsOfJoin | EzDatabase/DatabaseCategory.cs:68 | the directories enclosing `dir\name` are `dir` and those enclosing it |
| SystemIO.EntryDirectoryExists | EzDatabase/DatabaseCategory.cs:129 | on a well-formed disk an artifact's directory exists exactly when its category's directory does |
| SystemIO.CreateDirKeepsWellFormed | EzDatabase/Database.cs:36 | creating a directory keeps the disk well formed |
| SystemIO.CreateExistingDir | EzDatabase/DatabaseCategory.cs:106 | creating an existing directory changes nothing |
| SystemIO.CreateDirIdempotent | EzDatabase/DatabaseCategory.cs:66-72 | a second `CreateDirectory` of the same path succeeds and changes nothing |
| SystemIO.CreateDirAddsNothingBeneath | EasyDatabase/EasyDatabaseCategory.cs:68-69 | creating a directory puts nothing beneath it, so the subtree about to be loaded is the one already on disk |
| SystemIO.DeleteDirKeepsWellFormed | EzDatabase/DatabaseCategory.cs:118 | deleting a directory keeps the disk well formed |
| SystemIO.WriteFileKeepsWellFormed | EzDatabase/DatabaseCategory.cs:218 | writing a file keeps the disk well formed |
| SystemIO.RemoveFileKeepsWellFormed | EzDatabase/DatabaseCategory.cs:266 | deleting a file keeps the disk well formed |
| SystemIO.WriteThenRead | EzDatabase/DatabaseCategory.cs:216-229 | what is written reads back unchanged |
| SystemIO.RemoveThenAbsent | EzDatabase/DatabaseCategory.cs:264-267 | a deleted file is absent, and deleting it again changes nothing |
| SystemIO.RemoveThenWrite | EzDatabase/DatabaseCategory.cs:299-304 | deleting an existing file before creating it makes no difference to the write |
| SystemIO.WriteEmptyThenAppend | EzDatabase/DatabaseCategory.cs:304-305 | `File.Create` followed by `CopyTo` leaves the disk that writing the copied bytes at once leaves |
| SystemIO.DirsBeneathShrink | EasyDatabase/EasyDatabaseCategory.cs:105-108 | a subdirectory has strictly fewer directories beneath it than its parent: the recursive loading of a subtree terminates |
| SystemIO.DeletedNameNotListed | EzDatabase/Database.cs:94-95 | after `dir\name` is deleted no subdirectory of `dir` is called `name` |
| SystemIO.Enumerate | EzDatabase/Database.cs:77 | a listing in the platform's order: each element once, exactly the elements of the set |
| SystemIO.FileSystem.CreateDirectory | EzDatabase/Database.cs:36 | the disk becomes `CreateDir` of the old disk (unchanged on failure) and stays well formed |
| SystemIO.FileSystem.Delete | EzDatabase/DatabaseCategory.cs:118 | the disk becomes `DeleteDir` of the old disk (unchanged on failure) and stays well formed |
| SystemIO.FileSystem.WriteAllText | EzDatabase/DatabaseCategory.cs:218 | the disk becomes `WriteFile` of the old disk with the text |
| SystemIO.FileSystem.WriteAllBytes | EzDatabase/DatabaseCategory.cs:287 | the disk becomes `WriteFile` of the old disk with the bytes; `File.Create` is the call with no bytes |
| SystemIO.FileSystem.CopyTo | EzDatabase/DatabaseCategory.cs:305 | the bytes are appended to the open file; nothing else changes |
| SystemIO.FileSystem.DeleteFile | EzDatabase/DatabaseCategory.cs:266 | the disk becomes `RemoveFile` of the old disk |
| SystemIO.FileSystem.ReadAllText | EzDatabase/DatabaseCategory.cs:228 | the text of an existing file; NotFound or IOFailure otherwise |
| SystemIO.FileSystem.FileExists | EzDatabase/DatabaseCategory.cs:238 | true exactly when the path is a file |
| SystemIO.FileSystem.DirectoryExists | EzDatabase/DatabaseCategory.cs:91 | true exactly when the path is a directory |
| SystemIO.FileSystem.GetDirectories | EzDatabase/DatabaseCategory.cs:101-102 | a handle for each immediate subdirectory, each once; NotFound for a missing directory |
| SystemIO.FileSystem.GetFiles | EzDatabase/DatabaseCategory.cs:170-171 | a handle for each file directly in the directory, each once; NotFound for a missing directory |
| EzDatabase.CollectStep | EzDatabase/DatabaseCategory.cs:192-198 | one iteration of the dictionary-building loop extends the collected dictionary by the file's stem and decoded value, or stops at a rejected file |
| EzDatabase.Collect | EzDatabase/DatabaseCategory.cs:187-200 | the dictionary the loop builds: every key is one of the names the listing loop of `GetAllJson` would collect for the same files |
| EzDatabase.CollectStepKeys | EzDatabase/DatabaseCategory.cs:192-198 | one iteration adds the file's stem to the keys exactly when its extension matches |
| EzDatabase.CollectAccepted | EzDatabase/DatabaseCategory.cs:187-200 | the loop completes exactly when the decoder accepts every listed file with the extension |
| EzDatabase.CollectKeys | EzDatabase/DatabaseCategory.cs:187-200 | the keys are exactly the stems of the listed files with the extension |
| EzDatabase.CollectValues | EzDatabase/DatabaseCategory.cs:187-200 | the value under each key is the decoded contents of `key + ext` in the directory |
| EzDatabase.CollectListing | EzDatabase/DatabaseCategory.cs:187-200 | over a complete listing of a directory the dictionary is built exactly when every such file decodes, and then maps each stem to its file's value and nothing else |
| EzDatabase.CollectAddsNewKey | EzDatabase/DatabaseCategory.cs:196 | the key `Dictionary.Add` receives is never already present |
| EzDatabase.StemListListing | EzDatabase/DatabaseCategory.cs:168-181 | over a complete listing of a directory the loop's names are each listed once and are exactly the stems of its files with the extension |
| EzDatabase.Database.constructor | EzDatabase/Database.cs:27-32 | the root directory exists afterwards (the disk is `CreateDir` of the old one) and `Categories` has one handle per immediate subdirectory |
| EzDatabase.Database.Initialize | EzDatabase/Database.cs:34-38 | creates the root directory, then `Categories` mirrors its subdirectories |
| EzDatabase.Database.CreateCategory | EzDatabase/Database.cs:45-53 | the directory is created (disk = `CreateDir`); the names become `AddIfAbsent` of the old names; the list grows by at most one and keeps no case-insensitive duplicates; a failed create changes nothing |
| EzDatabase.Database.GetCategory | EzDatabase/Database.cs:60-68 | exactly the contract of `CreateCategory`: a missing category is created |
| EzDatabase.Database.GetCategories | EzDatabase/Database.cs:74-85 | `Categories` is replaced by fresh handles, one per immediate subdirectory of the root, each once; the disk is unchanged |
| EzDatabase.Database.CategoryAt | EzDatabase/Database.cs:81 | one iteration: a fresh top-level handle whose path is the listed directory; the disk is unchanged |
| EzDatabase.Database.DeleteCategory | EzDatabase/Database.cs:92-96 | the disk becomes the recursive `DeleteDir`; afterwards `Categories` mirrors the subdirectories and has no category of that name |
| EzDatabase.DatabaseCategory.constructor | EzDatabase/DatabaseCategory.cs:40-47 | the path is the root, `\` and the name (lines 58-64); the directory exists afterwards |
| EzDatabase.DatabaseCategory.Sub | EzDatabase/DatabaseCategory.cs:49-56 | the path is the parent's path, `\` and the name (lines 66-72); the directory exists afterwards |
| EzDatabase.DatabaseCategory.CreateSubCategory | EzDatabase/DatabaseCategory.cs:79-82 | the disk becomes `CreateDir` of the subcategory's path; the handle's path has the subcategory shape |
| EzDatabase.DatabaseCategory.GetSubCategory | EzDatabase/DatabaseCategory.cs:89-93 | null exactly when the subdirectory is missing; the disk is unchanged either way |
| EzDatabase.DatabaseCategory.GetSubCategories | EzDatabase/DatabaseCategory.cs:99-109 | one fresh handle per immediate subdirectory, each once; the disk is unchanged |
| EzDatabase.DatabaseCategory.LoadSubCategories | EzDatabase/DatabaseCategory.cs:104-107 | the loop: handles whose paths are exactly the listed directories, in order, each a fresh subcategory of this one; the disk is unchanged |
| EzDatabase.DatabaseCategory.SubCategoryAt | EzDatabase/DatabaseCategory.cs:106 | one iteration: a fresh subcategory handle whose path is the listed directory; the disk is unchanged |
| EzDatabase.DatabaseCategory.DeleteSubCategory | EzDatabase/DatabaseCategory.cs:116-119 | the disk becomes the recursive `DeleteDir`; succeeds exactly when the subdirectory exists |
| EzDatabase.DatabaseCategory.SaveJson | EzDatabase/DatabaseCategory.cs:126-130 | `name.json` holds exactly the serialized value afterwards; succeeds exactly when the directory exists and the path is not a directory |
| EzDatabase.DatabaseCategory.GetJson | EzDatabase/DatabaseCategory.cs:138-143 | the decoded contents of `name.json`; NotFound, IOFailure or DecodeFailure otherwise |
| EzDatabase.DatabaseCategory.GetJsonInfo | EzDatabase/DatabaseCategory.cs:149-152 | the handle on `name.json`: an entry of the directory whose stem is the name and whose extension is `.json` |
| EzDatabase.DatabaseCategory.HasJson | EzDatabase/DatabaseCategory.cs:159-162 | true exactly when `name.json` is a file |
| EzDatabase.DatabaseCategory.GetAllJson | EzDatabase/DatabaseCategory.cs:168-181 | exactly the stems of the `.json` files directly in the directory, each once; other extensions and subdirectories excluded |
| EzDatabase.DatabaseCategory.GetAllJsonValues | EzDatabase/DatabaseCategory.cs:187-200 | succeeds exactly when the directory exists and every `.json` file decodes; the dictionary maps each stem to its file's value and has no other key |
| EzDatabase.DatabaseCategory.DeleteJson | EzDatabase/DatabaseCategory.cs:206-209 | the disk becomes `RemoveFile` of `name.json`, which is absent afterwards |
| EzDatabase.DatabaseCategory.SaveText | EzDatabase/DatabaseCategory.cs:216-219 | `name.txt` holds exactly the text afterwards |
| EzDatabase.DatabaseCategory.GetText | EzDatabase/DatabaseCategory.cs:226-229 | the text of `name.txt`; NotFound or IOFailure otherwise |
| EzDatabase.DatabaseCategory.HasText | EzDatabase/DatabaseCategory.cs:236-239 | true exactly when `name.txt` is a file |
| EzDatabase.DatabaseCategory.GetAllText | EzDatabase/DatabaseCategory.cs:245-258 | the dictionary maps each stem of a `.txt` file to that file's text and has no other key |
| EzDatabase.DatabaseCategory.DeleteText | EzDatabase/DatabaseCategory.cs:264-267 | the disk becomes `RemoveFile` of `name.txt`, which is absent afterwards |
| EzDatabase.DatabaseCategory.SaveFile | EzDatabase/DatabaseCategory.cs:275-278 | `name + extension` holds exactly the text afterwards |
| EzDatabase.DatabaseCategory.SaveFileBytes | EzDatabase/DatabaseCategory.cs:285-288 | `name + extension` holds exactly the bytes afterwards |
| EzDatabase.DatabaseCategory.SaveFileStream | EzDatabase/DatabaseCategory.cs:295-306 | delete, create and copy leave exactly the disk `SaveFileBytes` leaves for the bytes after the stream's position |
| EzDatabase.DatabaseCategory.GetFile | EzDatabase/DatabaseCategory.cs:313-316 | the handle on `name + extension`: an entry of the directory with that last segment |
| EzDatabase.DatabaseCategory.HasFile | EzDatabase/DatabaseCategory.cs:324-327 | true exactly when `name + extension` is a file |
| EzDatabase.DatabaseCategory.GetAllFiles | EzDatabase/DatabaseCategory.cs:333-337 | every file directly in the directory, each once |
| EzDatabase.DatabaseCategory.GetAllFilesWithExtension | EzDatabase/DatabaseCategory.cs:343-348 | exactly the files of `GetAllFiles` whose extension is the one given, each once |
| EzDatabase.DatabaseCategory.DeleteFile | EzDatabase/DatabaseCategory.cs:355-358 | the disk becomes `RemoveFile` of `name + extension`, which is absent afterwards |
| EzDatabase.CreateSubCategoryTwice | EzDatabase/DatabaseCategory.cs:79-82 | creating a subcategory twice leaves the disk as one create does, and both handles have the same path |
| EzDatabase.TextRoundTrip | EzDatabase/DatabaseCategory.cs:216-267 | after a successful `SaveText`, `GetText` returns the text and `HasText` is true; after `DeleteText`, `HasText` is false |
| EasyDatabase.DecodeAllStep | EasyDatabase/EasyDatabaseCategory.cs:168-175 | one iteration of the decoding loop appends the file's decoded value, skips another extension, or stops at a rejected file |
| EasyDatabase.DecodeAll | EasyDatabase/EasyDatabaseCategory.cs:163-177 | the list the decoding loop builds: when it completes, it has one value per listed file with the extension |
| EasyDatabase.StreamBytes | EasyDatabase/EasyDatabaseCategory.cs:216-225 | the bytes saved from a stream: a memory stream's whole buffer (`ToArray`), otherwise a suffix of the buffer (what `CopyTo` copies) |
| EasyDatabase.DecodeAllAccepted | EasyDatabase/EasyDatabaseCategory.cs:163-177 | the loop completes exactly when every listed `.json` file decodes |
| EasyDatabase.DecodeAllValues | EasyDatabase/EasyDatabaseCategory.cs:163-177 | one value per listed file with the extension, in listing order, each the decoded contents of its file |
| EasyDatabase.Database.constructor | EasyDatabase/Database.cs:27-32 | the root directory exists afterwards, and `Categories` mirrors its subdirectories, each handle loaded with its own subtree |
| EasyDatabase.Database.Initialize | EasyDatabase/Database.cs:34-38 | creates the root directory, then loads the categories |
| EasyDatabase.Database.CreateCategory | EasyDatabase/Database.cs:45-53 | the directory is created; the names become `AddIfAbsent` of the old names; the list grows by at most one and keeps no case-insensitive duplicates; the handle mirrors its subtree |
| EasyDatabase.Database.GetCategory | EasyDatabase/Database.cs:60-68 | exactly the contract of `CreateCategory` |
| EasyDatabase.Database.GetCategories | EasyDatabase/Database.cs:74-85 | `Categories` is replaced by fresh handles, one per immediate subdirectory, each mirroring its subtree; the disk is unchanged |
| EasyDatabase.Database.CategoryAt | EasyDatabase/Database.cs:81 | one iteration: a fresh top-level category whose path is the listed directory and whose handle tree mirrors it; the disk is unchanged |
| EasyDatabase.Database.DeleteCategory | EasyDatabase/Database.cs:92-96 | the disk becomes the recursive `DeleteDir`; afterwards no category of that name is listed |
| EasyDatabase.EasyDatabaseCategory.constructor | EasyDatabase/EasyDatabaseCategory.cs:40-47 | the path is the root, `\` and the name (lines 58-63); the directory exists; the handle tree mirrors the directory subtree |
| EasyDatabase.EasyDatabaseCategory.Sub | EasyDatabase/EasyDatabaseCategory.cs:49-56 | the path is the parent's path, `\` and the name (lines 65-70); the directory exists; the handle tree mirrors the directory subtree, and the recursion terminates |
| EasyDatabase.EasyDatabaseCategory.CreateSubCategory | EasyDatabase/EasyDatabaseCategory.cs:77-82 | callable on any handle: the directory is created and exactly one handle, mirroring its subtree, is appended to `SubCategories`, with no duplicate check; a well-formed handle tree stays well formed |
| EasyDatabase.EasyDatabaseCategory.GetSubCategory | EasyDatabase/EasyDatabaseCategory.cs:89-94 | exactly the contract of `CreateSubCategory` |
| EasyDatabase.EasyDatabaseCategory.GetSubCategories | EasyDatabase/EasyDatabaseCategory.cs:100-111 | callable on any handle: `SubCategories` is replaced by fresh handles, one per immediate subdirectory, and the whole handle tree mirrors the directory tree; the disk is unchanged |
| EasyDatabase.EasyDatabaseCategory.LoadSubCategories | EasyDatabase/EasyDatabaseCategory.cs:104-108 | the loop builds one fresh subcategory per listed directory, in order, each mirroring its own subtree |
| EasyDatabase.EasyDatabaseCategory.SubCategoryAt | EasyDatabase/EasyDatabaseCategory.cs:107 | one iteration: a fresh subcategory whose path is the listed directory and whose handle tree mirrors it; the disk is unchanged |
| EasyDatabase.EasyDatabaseCategory.AdoptedTree | EasyDatabase/EasyDatabaseCategory.cs:109 | handles so built, once adopted as `SubCategories`, form a finite acyclic tree that mirrors the disk |
| EasyDatabase.EasyDatabaseCategory.DeleteSubCategory | EasyDatabase/EasyDatabaseCategory.cs:117-121 | callable on any handle; non-recursive delete: succeeds exactly when the subdirectory exists and is empty; then `SubCategories` is rebuilt, mirrors the disk and lists no such name |
| EasyDatabase.EasyDatabaseCategory.SaveJson | EasyDatabase/EasyDatabaseCategory.cs:128-132 | `name.json` holds exactly the serialized value afterwards |
| EasyDatabase.EasyDatabaseCategory.GetJson | EasyDatabase/EasyDatabaseCategory.cs:140-145 | the decoded contents of `name.json`; NotFound, IOFailure or DecodeFailure otherwise |
| EasyDatabase.EasyDatabaseCategory.GetAllJson | EasyDatabase/EasyDatabaseCategory.cs:151-156 | exactly the `.json` files directly in the directory, each once |
| EasyDatabase.EasyDatabaseCategory.GetAllJsonValues | EasyDatabase/EasyDatabaseCategory.cs:163-177 | succeeds exactly when every `.json` file decodes; one value per such file, so the count equals the number of `.json` files, and the k-th value is the decoded k-th file |
| EasyDatabase.EasyDatabaseCategory.DeleteJson | EasyDatabase/EasyDatabaseCategory.cs:183-186 | the disk becomes `RemoveFile` of `name.json`, which is absent afterwards |
| EasyDatabase.EasyDatabaseCategory.SaveFile | EasyDatabase/EasyDatabaseCategory.cs:194-197 | `name + extension` holds exactly the text afterwards |
| EasyDatabase.EasyDatabaseCategory.SaveFileBytes | EasyDatabase/EasyDatabaseCategory.cs:204-207 | `name + extension` holds exactly the bytes afterwards |
| EasyDatabase.EasyDatabaseCategory.SaveFileStream | EasyDatabase/EasyDatabaseCategory.cs:214-226 | the disk is what `SaveFileBytes` leaves for the stream's bytes: a memory stream's whole buffer, otherwise what follows the position |
| EasyDatabase.EasyDatabaseCategory.GetFile | EasyDatabase/EasyDatabaseCategory.cs:233-236 | the handle on `name + extension`: an entry of the directory with that last segment |
| EasyDatabase.EasyDatabaseCategory.GetAllFiles | EasyDatabase/EasyDatabaseCategory.cs:242-246 | every file directly in the directory, each once |
| EasyDatabase.EasyDatabaseCategory.GetAllFilesWithExtension | EasyDatabase/EasyDatabaseCategory.cs:252-257 | exactly the files of `GetAllFiles` with the given extension, each once |
| EasyDatabase.EasyDatabaseCategory.DeleteFile | EasyDatabase/EasyDatabaseCategory.cs:264-267 | the disk becomes `RemoveFile` of `name + extension`, which is absent afterwards |
| EasyDatabase.CreateSubCategoryTwice | EasyDatabase/EasyDatabaseCategory.cs:77-82 | creating a subcategory twice creates the directory once but appends two distinct handles with the same path |
| EasyDatabase.JsonRoundTrip | EasyDatabase/EasyDatabaseCategory.cs:128-145 | with a codec that round-trips the value, a saved value reads back as itself; after `DeleteJson`, reading reports NotFound |
| EasyDatabase.NestedCreateThenReload | EasyDatabase/EasyDatabaseCategory.cs:77-111 | after a child handle creates a subcategory of its own, the parent can still be reloaded, and the reloaded tree mirrors the disk including the new directory |

## Left out

- The `async` wrappers (`AsyncExtension`) are not part of this model.
  Most of them run the same operations as the synchronous methods. One
  differs: `SaveFileAsync(Stream)`
  (`EzDatabase/AsyncExtension/AsyncExtensions.cs:138-149`) writes the whole
  buffer of a `MemoryStream` (`ToArray`), where the synchronous
  `EzDatabase` `SaveFile(Stream)` copies only what follows the stream's
  position. That asynchronous behaviour is the one `EasyDatabase`'s
  `SaveFileStream` models, but no `EzDatabase` member models it.
- Newtonsoft.Json is not part of this model. Serialization is a function
  parameter `T -> string`. Deserialization is a parameter
  `string -> Option<T>`, where `None` is a thrown exception. A JSON
  round trip is proved only where the caller supplies it as a
  precondition (`JsonRoundTrip`).
- A `DeserializeObject` that returns `null` (for the text `null`) is not
  distinguished from any other decoded value.
- Path normalisation is not modelled: `directory.FullName`
  (`EzDatabase/DatabaseCategory.cs:62`), relative paths resolved against
  the working directory, and the platform's case-insensitive file names.
  Paths are compared as strings.
- Permission, disk-full and path-length errors are not modelled. Neither
  is text encoding: text is stored as written, and bytes read as text are
  one character per byte.
- Concurrency and other processes changing the disk are not modelled.
- `string.ToLower` is modelled on ASCII letters only. Its culture rules
  are left out.
- The model assumes `\` separates directories, as on Windows. The
  library hard-codes `\`; on other platforms .NET reads it as an ordinary
  character, so `db\cat` is one flat directory and the category lists
  would mirror nothing. That behaviour is not modelled.
- Names are single non-empty path segments (`IsSegment`). Extensions
  contain no separator. The library does not validate either, and a name
  containing `\` reaches a different directory.
- Streams are values. Saving one does not advance its position, and a
  stream that fails while being read is not modelled.
- List aliasing is not modelled. `GetCategories` and `GetSubCategories`
  return the same `List` object they store in `Categories` /
  `SubCategories` (`EzDatabase/Database.cs:83-84`,
  `EasyDatabase/EasyDatabaseCategory.cs:109-110`). So a later
  `CreateCategory`, `GetCategory`, `CreateSubCategory` or `GetSubCategory`
  (`Add`) also changes the list a caller already holds. The model returns
  a `seq` value, which later calls never change.
- The handle-tree bookkeeping (`Repr`, a proof-only field) of a parent is
  not updated when one of its descendants appends a subcategory. The
  parent's tree is then not known to be well formed (`Valid`) until it is
  reloaded. Every operation is still callable on such a parent, and
  `GetSubCategories` and `DeleteSubCategory` restore the invariant
  (`NestedCreateThenReload`).
- EzDatabase.DatabaseCategory.constructor: requires that creating the
  directory succeeds. A failure there is a thrown exception out of `new`,
  which callers such as `CreateSubCategory` model as their `Err` result.
- EzDatabase.DatabaseCategory.Sub: same requirement as the constructor.
- EasyDatabase.EasyDatabaseCategory.constructor: same requirement. It also
  assumes the disk is not changed by another handle while the subtree
  loads.
- EasyDatabase.EasyDatabaseCategory.Sub: same requirement as the
  constructor.
- EzDatabase.Database.constructor: requires a non-empty name and a
  creatable root directory.
- EasyDatabase.Database.constructor: requires a non-empty name and a
  creatable root directory.
- EzDatabase.DatabaseCategory.constructor: the path is set once. The
  C# code sets `FullPath` before `CreateDirectory` and again to
  `directory.FullName` after it. Without normalisation both are the same
  string, so the model holds the path in a constant.
- EzDatabase.DatabaseCategory.GetAllJsonValues: a rejected file ends the
  listing with `DecodeFailure` and no partial dictionary.
- EasyDatabase.EasyDatabaseCategory.GetAllJsonValues: a rejected file ends
  the listing with `DecodeFailure` and no partial list.
