# JavaFileUtils `FileManager`: directory-tree handling, modelled in Dafny

`FileManager` is a class of static helpers around `java.io.File`. This
project models the helpers that read or change a directory tree:

- `getDirectorySize`: a recursive walk that adds up the lengths of regular files;
- `deleteDirectory`: a shallow delete;
- `createDirectory` with `overwrite`;
- `deleteFile`, `fileExists`, `isDirectory`, `getFileSize`, `listFiles` and `listDirectories`.

The host filesystem is an abstract, in-memory tree: a finite map from paths
to nodes, held in the field `entries` of the class `FileSystem.Disk`. A path
is the sequence of names from the root, so `new File(parent, name)` is
`parent + [name]`. A node is `File(length)` or `Dir`. The entries of a
directory are the paths one name longer that the map holds. Paths are name
sequences, so a walk only goes to longer paths and always terminates;
`WellFormed` additionally keeps every parent an existing directory.

The methods of `Disk` model the `java.io.File` calls the helpers make:

- `exists`, `isDirectory`, `isFile` and `length` are lookups;
- `list` / `listFiles` return `None` where Java returns `null`;
- `delete` succeeds on a regular file or an empty directory, and only then changes anything;
- `mkdirs` creates the path and its missing ancestors, and answers false when the path exists or an ancestor is a regular file.

The helpers work on the `Disk` they are given, in module `FileManager`:

- `GetDirectorySize` is the loop with its running total. It is proved equal to the recursive definition `DirectorySize.Size`.
- `Size` is then proved equal to the total length of all regular files below the path.
- `DeleteDirectory` is proved to leave exactly `DirectoryDelete.ShallowDeleted`. The lemmas of that module say what that state is.
- Java's exceptions are the `Threw` case of `FileManager.Outcome`.

Module layout: `file_system.dfy` (the tree and `Disk`),
`directory_size.dfy` (the recursive size definition), `directory_delete.dfy` (the
state a shallow delete leaves), `file_manager.dfy` (the helpers and the lemmas
about them), `scenarios.dfy` (a worked example: `/tmp/t` holds `a.txt` of 5
bytes and `sub/b.txt` of 7 bytes).

On a path that `File.list` cannot list, `deleteDirectory` never reaches its
final `delete`: the `for` at line 139 of `FileManager.java` runs over `null`
and throws `NullPointerException` before anything is deleted. The model
returns `Threw(NullPointerException)` and leaves the filesystem unchanged. As a
result, `createDirectory(p, true)` on an existing regular file throws as well.

## Model

| member | source | states |
|---|---|---|
| `FileSystem.ChildNames` | src/com/raylabz/javafileutils/FileManager.java:137-140 | every name that `File.list` returns for `p` is an existing entry `p + [name]` |
| `FileSystem.ChildNamesMembership` | src/com/raylabz/javafileutils/FileManager.java:138-140 | a name is listed in `p` if and only if `new File(p, name)` exists |
| `FileSystem.BelowShrinks` | src/com/raylabz/javafileutils/FileManager.java:174 | recursing into an existing entry strictly shrinks the set of entries still below, so the walk terminates on a tree |
| `FileSystem.RemoveKeepsWellFormed` | src/com/raylabz/javafileutils/FileManager.java:74 | a `File.delete` that succeeds (regular file or empty directory) keeps the filesystem a tree |
| `FileSystem.WithDirsKeepsWellFormed` | src/com/raylabz/javafileutils/FileManager.java:128 | a `mkdirs` that succeeds keeps the filesystem a tree, and afterwards the path is a directory |
| `FileSystem.Disk.Delete` | src/com/raylabz/javafileutils/FileManager.java:74 | `File.delete` answers true exactly for a regular file or an empty directory; it removes only that path, and nothing changes when it answers false |
| `FileSystem.Disk.Mkdirs` | src/com/raylabz/javafileutils/FileManager.java:128 | `File.mkdirs` answers true exactly when the path is missing and no ancestor is a regular file; it then adds the path and its missing ancestors as directories; otherwise nothing changes |
| `DirectorySize.SumEntriesPick` | src/com/raylabz/javafileutils/FileManager.java:169-176 | the accumulated sum is the same whichever listed entry comes first, so the size does not depend on listing order |
| `DirectorySize.SizeUnfold` | src/com/raylabz/javafileutils/FileManager.java:169-176 | recursion equation: the size of a directory is the contribution of any one entry plus the sum over the other entries |
| `DirectorySize.ContributionCases` | src/com/raylabz/javafileutils/FileManager.java:170-175 | a regular-file entry contributes its length; a subdirectory entry contributes its own recursive size (definitional) |
| `DirectorySize.SizeWithoutEntries` | src/com/raylabz/javafileutils/FileManager.java:166-168 | fail open: a path that cannot be listed (missing or not a directory), or an empty directory, has size 0 |
| `DirectorySize.SizeIsFileBytes` | src/com/raylabz/javafileutils/FileManager.java:162-179 | on a tree, the size of `p` equals the total length of the regular files anywhere below `p`; directories count nothing |
| `DirectorySize.SumEntriesIsFileBytes` | src/com/raylabz/javafileutils/FileManager.java:169-177 | the running total over any part of a listing equals the total length of the regular files in those entries' subtrees |
| `DirectorySize.ContributionIsFileBytes` | src/com/raylabz/javafileutils/FileManager.java:170-175 | what one entry adds is the length of the regular files in that entry and, if it is a directory, below it |
| `DirectoryDelete.RemainingEntries` | src/com/raylabz/javafileutils/FileManager.java:139-142 | after the loop, the directory lists exactly its former non-empty subdirectories |
| `DirectoryDelete.ShallowDeleteSucceedsIff` | src/com/raylabz/javafileutils/FileManager.java:143 | the final `delete` of the directory succeeds if and only if no entry was a non-empty directory, that is, if and only if the loop emptied it |
| `DirectoryDelete.ShallowDeleteResultIsGone` | src/com/raylabz/javafileutils/FileManager.java:134-143 | the result is true if and only if the directory no longer exists afterwards |
| `DirectoryDelete.ShallowDeleteEntries` | src/com/raylabz/javafileutils/FileManager.java:139-142 | an entry survives if and only if it is a non-empty directory, and a survivor is unchanged; every regular file and every empty subdirectory is removed |
| `DirectoryDelete.ShallowDeleteFrame` | src/com/raylabz/javafileutils/FileManager.java:136-144 | nothing changes except the directory and its direct entries; everything inside a non-empty subdirectory stays as it was |
| `DirectoryDelete.ShallowDeleteKeepsWellFormed` | src/com/raylabz/javafileutils/FileManager.java:136-144 | the shallow delete leaves a tree |
| `FileManager.DeleteFile` | src/com/raylabz/javafileutils/FileManager.java:72-75 | the result is true if and only if the path existed and is gone; only that path can change, and only when it is a regular file or an empty directory |
| `FileManager.GetDirectorySize` | src/com/raylabz/javafileutils/FileManager.java:162-179 | the loop with its running total, recursing into every entry that is not a regular file, returns exactly `Size` for any listing order |
| `FileManager.DeleteDirectory` | src/com/raylabz/javafileutils/FileManager.java:136-144 | a path that cannot be listed throws `NullPointerException` and changes nothing; otherwise the new state is `ShallowDeleted` and the result is `ShallowDeleteSucceeds`; the tree shape is kept |
| `FileManager.DeleteStep` | src/com/raylabz/javafileutils/FileManager.java:139-142 | each `delete` in the loop succeeds exactly as it would on the original tree, because siblings deleted earlier do not matter |
| `FileManager.FinalDelete` | src/com/raylabz/javafileutils/FileManager.java:143 | after the loop, `index.delete()` succeeds exactly when `ShallowDeleteSucceeds` holds, and leaves `ShallowDeleted` |
| `FileManager.CreateDirectory` | src/com/raylabz/javafileutils/FileManager.java:121-129 | with overwrite on an existing regular file it throws and changes nothing; otherwise it shallow-deletes an existing path (only with overwrite), then runs `mkdirs` and returns its answer |
| `FileManager.OverwriteRecreates` | src/com/raylabz/javafileutils/FileManager.java:122-128 | on an existing directory, overwrite answers true if and only if the shallow delete removed it; `p` is then an empty directory |
| `FileManager.ListFilesSelects` | src/com/raylabz/javafileutils/FileManager.java:82-91 | `listFiles` is non-null exactly for directories, and lists exactly the entries that exist and are not directories (definitional) |
| `FileManager.ListDirectoriesSelects` | src/com/raylabz/javafileutils/FileManager.java:151-159 | `listDirectories` is non-null exactly for directories, and lists exactly the entries that are directories (definitional) |
| `FileManager.ListingPartition` | src/com/raylabz/javafileutils/FileManager.java:153-158 | together with `listFiles`, every entry of a directory is listed exactly once |
| `FileManager.FileExistsIffListed` | src/com/raylabz/javafileutils/FileManager.java:62-65 | on a tree, a path other than the root exists if and only if its parent is a directory whose `File.list` holds the path's last name |
| `FileManager.IsDirectoryCases` | src/com/raylabz/javafileutils/FileManager.java:110-113 | a directory exists, and directories are exactly the paths `File.list` answers for (definitional) |
| `FileManager.FileSizeCases` | src/com/raylabz/javafileutils/FileManager.java:98-101 | `getFileSize` is the length of a regular file, and 0 for a missing path or a directory (definitional) |
| `Scenarios.SampleSize` | src/com/raylabz/javafileutils/FileManager.java:162-179 | `/tmp/t` holding `a.txt` (5 bytes) and `sub/b.txt` (7 bytes) has size 12 |
| `Scenarios.SampleDeleteKeepsSub` | src/com/raylabz/javafileutils/FileManager.java:136-144 | `deleteDirectory("/tmp/t")` removes only `a.txt` and answers false, because `sub` is not empty |
| `Scenarios.SampleDeleteSub` | src/com/raylabz/javafileutils/FileManager.java:136-144 | `deleteDirectory("/tmp/t/sub")`, which holds only a regular file, removes everything under it and answers true |

## Left out

- `writeFile` (both overloads), `readTextFile` and `readBinaryFile` pass bytes to and from the OS and have no tree logic.
- File contents are not represented at all, only lengths.
- `GetDirectorySize` does not model Java `long` overflow of the running total: lengths and sums are unbounded `nat`.
- `GetFileSize` on a directory returns 0. Java leaves `File.length()` unspecified for directories.
- Permissions are not modelled. An unreadable directory, for which `File.list` also returns `null`, is not represented. `delete` and `mkdirs` fail only for the reasons given above.
- Symbolic links and link cycles are not modelled. The model assumes a tree, and the cycle-free recursion relies on that.
- Path strings are not modelled: no parsing, joining, canonicalisation or relative paths. A path is a sequence of names from the root.
- Listing order: `File.list` and `File.listFiles` return arrays in no specified order, and the model uses sets. The loops take the entries in an arbitrary order, and the results are proved independent of that order.
- `listFiles` and `listDirectories` return sets of names, not arrays.
- FileSystem.Disk.Mkdirs: models only the documented outcome of `File.mkdirs`. It does not model a partial creation that then fails, which can happen only through permissions or races.
- Concurrent changes to the filesystem during a walk or a delete are not modelled. All calls are sequential.
- The "Search files" and "Search directories" TODOs have no code, so they are not modelled.
