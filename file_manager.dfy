/**
 The static utilities of `FileManager`, over the abstract filesystem `Disk`.
 Each one makes the same `java.io.File` calls, in the same order, as
 `FileManager.java`; the host filesystem is passed in as `disk`.
 */
module FileManager {
  import opened FileSystem
  import opened DirectorySize
  import opened DirectoryDelete

  /** The one exception a modelled utility can raise. */
  datatype Exception = NullPointerException

  /** How a Java call ends: it returns a value or it throws. */
  datatype Outcome<T> = Returned(value: T) | Threw(exception: Exception)

  /** `fileExists`. */
  function FileExists(disk: Disk, path: Path): bool
    reads disk
  {
    disk.Exists(path)
  }

  /** `isDirectory`. */
  function IsDirectory(disk: Disk, path: Path): bool
    reads disk
  {
    disk.IsDirectory(path)
  }

  /** `getFileSize`. */
  function GetFileSize(disk: Disk, path: Path): nat
    reads disk
  {
    disk.Length(path)
  }

  /** `listFiles`: the listed names whose entry is not a directory; `None` plays `null`. */
  function ListFiles(disk: Disk, path: Path): Option<set<Name>>
    reads disk
  {
    match disk.List(path)
    case None => None
    case Some(names) => Some(set n | n in names && !disk.IsDirectory(path + [n]))
  }

  /** `listDirectories`: the listed names whose entry is a directory; `None` plays `null`. */
  function ListDirectories(disk: Disk, path: Path): Option<set<Name>>
    reads disk
  {
    match disk.List(path)
    case None => None
    case Some(names) => Some(set n | n in names && disk.IsDirectory(path + [n]))
  }

  /** `deleteFile`: one `File.delete`; true exactly when `path` was there and is now gone. */
  method DeleteFile(disk: Disk, path: Path) returns (ok: bool)
    requires disk.Valid()
    modifies disk
    ensures disk.Valid()
    ensures ok <==> old(FileExists(disk, path)) && !FileExists(disk, path)
    ensures ok == Removable(old(disk.entries), path)
    ensures disk.entries == if ok then old(disk.entries) - {path} else old(disk.entries)
  {
    ok := disk.Delete(path);
  }

  /**
   `getDirectorySize`: the recursive walk with its running total. It returns
   the size the recursive definition `Size` gives, whatever order the listing
   yields the entries in.
   */
  method GetDirectorySize(disk: Disk, path: Path) returns (length: nat)
    ensures length == Size(disk.entries, path)
    decreases Below(disk.entries, path)
  {
    length := 0;
    var files := disk.List(path);
    if files.Some? {
      var rest := files.value;
      while rest != {}
        invariant rest <= ChildNames(disk.entries, path)
        invariant length + SumEntries(disk.entries, path, rest) == Size(disk.entries, path)
        decreases rest
      {
        var name :| name in rest;
        var file := path + [name];
        SumEntriesPick(disk.entries, path, rest, name);
        if disk.IsRegularFile(file) {
          length := length + disk.Length(file);
        } else {
          BelowShrinks(disk.entries, path, name);
          var sub := GetDirectorySize(disk, file);
          length := length + sub;
        }
        rest := rest - {name};
      }
    }
  }

  /**
   `deleteDirectory`: `File.delete` on every listed entry, then on `path`,
   reporting only the last. When `path` cannot be listed the loop runs over
   `null` and Java throws before anything is deleted.
   */
  method DeleteDirectory(disk: Disk, path: Path) returns (r: Outcome<bool>)
    requires disk.Valid()
    modifies disk
    ensures disk.Valid()
    ensures disk.entries == ShallowDeleted(old(disk.entries), path)
    ensures !IsDir(old(disk.entries), path) ==> r == Threw(NullPointerException)
    ensures IsDir(old(disk.entries), path) ==> r == Returned(ShallowDeleteSucceeds(old(disk.entries), path))
  {
    ghost var fs0 := disk.entries;
    var entries := disk.List(path);
    if entries.None? {
      return Threw(NullPointerException);
    }
    var rest := entries.value;
    ghost var done: set<Name> := {};
    while rest != {}
      invariant disk.Valid()
      invariant rest !! done && rest + done == ChildNames(fs0, path)
      invariant disk.entries == fs0 - RemovedAmong(fs0, path, done)
      decreases rest
    {
      var s :| s in rest;
      var currentFile := path + [s];
      DeleteStep(fs0, path, done, s);
      var _ := disk.Delete(currentFile);
      rest := rest - {s};
      done := done + {s};
    }
    FinalDelete(fs0, path);
    var ok := disk.Delete(path);
    r := Returned(ok);
  }

  /**
   One turn of the loop: whether `File.delete` accepts the entry is decided as
   on the original tree (the siblings removed before do not matter), and the
   removed set grows by that entry exactly when it is accepted.
   */
  lemma DeleteStep(fs: Entries, p: Path, done: set<Name>, s: Name)
    requires s !in done
    ensures var current := fs - RemovedAmong(fs, p, done);
            && Removable(current, p + [s]) == Removable(fs, p + [s])
            && (if Removable(fs, p + [s]) then current - {p + [s]} else current)
               == fs - RemovedAmong(fs, p, done + {s})
  {
    var c := p + [s];
    var gone := RemovedAmong(fs, p, done);
    forall d | d in gone
      ensures |d| <= |c| && d != c
    {
      RemovedAmongMembership(fs, p, done, d);
      assert c[|p|] == s;
    }
    ChildNamesUnaffected(fs, gone, c);
    assert RemovedAmong(fs, p, done + {s}) == gone + (if Removable(fs, c) then {c} else {});
  }

  /** After the loop: the last `File.delete` succeeds exactly as `ShallowDeleteSucceeds` says, leaving `ShallowDeleted`. */
  lemma FinalDelete(fs: Entries, p: Path)
    requires IsDir(fs, p)
    ensures var current := fs - RemovedEntries(fs, p);
            && Removable(current, p) == ShallowDeleteSucceeds(fs, p)
            && (if Removable(current, p) then current - {p} else current) == ShallowDeleted(fs, p)
  {
    ShallowDeleteSucceedsIff(fs, p);
    RemovedAmongMembership(fs, p, ChildNames(fs, p), p);
  }

  /**
   `createDirectory`: with `overwrite` and an existing `path`, first
   `deleteDirectory(path)` (its result ignored, its exception not), then
   `File.mkdirs`.
   */
  method CreateDirectory(disk: Disk, path: Path, overwrite: bool) returns (r: Outcome<bool>)
    requires disk.Valid()
    modifies disk
    ensures disk.Valid()
    ensures overwrite && IsFile(old(disk.entries), path) ==>
              r == Threw(NullPointerException) && disk.entries == old(disk.entries)
    ensures !(overwrite && IsFile(old(disk.entries), path)) ==>
              var cleared := if overwrite then ShallowDeleted(old(disk.entries), path) else old(disk.entries);
              r == Returned(CanMkdirs(cleared, path))
              && disk.entries == if CanMkdirs(cleared, path) then WithDirs(cleared, path) else cleared
  {
    if overwrite {
      if disk.Exists(path) {
        var deleted := DeleteDirectory(disk, path);
        if deleted.Threw? {
          return Threw(deleted.exception);
        }
      }
    }
    var ok := disk.Mkdirs(path);
    r := Returned(ok);
  }

  // ---------------------------------------------------------------------------
  // How the queries relate
  // ---------------------------------------------------------------------------

  /** `listFiles` answers exactly for directories, and lists the entries that are not directories. */
  lemma ListFilesSelects(disk: Disk, path: Path)
    ensures ListFiles(disk, path).Some? <==> IsDirectory(disk, path)
    ensures ListFiles(disk, path).Some? ==>
              forall n :: n in ListFiles(disk, path).value
                      <==> FileExists(disk, path + [n]) && !IsDirectory(disk, path + [n])
  {
    forall n
      ensures n in ChildNames(disk.entries, path) <==> FileExists(disk, path + [n])
    {
      ChildNamesMembership(disk.entries, path, n);
    }
  }

  /** `listDirectories` answers exactly for directories, and lists the entries that are directories. */
  lemma ListDirectoriesSelects(disk: Disk, path: Path)
    ensures ListDirectories(disk, path).Some? <==> IsDirectory(disk, path)
    ensures ListDirectories(disk, path).Some? ==>
              forall n :: n in ListDirectories(disk, path).value <==> IsDirectory(disk, path + [n])
  {
    forall n
      ensures n in ChildNames(disk.entries, path) <==> FileExists(disk, path + [n])
    {
      ChildNamesMembership(disk.entries, path, n);
    }
  }

  /** Between them, `listFiles` and `listDirectories` list every entry of a directory exactly once. */
  lemma ListingPartition(disk: Disk, path: Path)
    requires IsDirectory(disk, path)
    ensures ListFiles(disk, path).value !! ListDirectories(disk, path).value
    ensures ListFiles(disk, path).value + ListDirectories(disk, path).value
         == ChildNames(disk.entries, path)
  {
  }

  /**
   `fileExists`: in a tree, a path other than the root exists exactly when its
   parent is a directory whose listing holds the path's last name.
   */
  lemma FileExistsIffListed(disk: Disk, p: Path)
    requires disk.Valid() && |p| > 0
    ensures FileExists(disk, p) <==>
              IsDirectory(disk, Parent(p)) && p[|p| - 1] in disk.List(Parent(p)).value
  {
    assert Parent(p) + [p[|p| - 1]] == p;
    ChildNamesMembership(disk.entries, Parent(p), p[|p| - 1]);
  }

  /** A directory exists, and is what `File.list` answers for. */
  lemma IsDirectoryCases(disk: Disk, path: Path)
    ensures IsDirectory(disk, path) ==> FileExists(disk, path)
    ensures IsDirectory(disk, path) <==> disk.List(path).Some?
  {
  }

  /** `getFileSize`: the length of a regular file; 0 for a directory and for a missing path. */
  lemma FileSizeCases(disk: Disk, path: Path)
    ensures !FileExists(disk, path) ==> GetFileSize(disk, path) == 0
    ensures IsDirectory(disk, path) ==> GetFileSize(disk, path) == 0
    ensures FileExists(disk, path) && !IsDirectory(disk, path) ==>
              GetFileSize(disk, path) == disk.entries[path].length
  {
  }

  /**
   `createDirectory(p, true)` on an existing directory answers true exactly
   when the shallow delete removed it, and then leaves `p` an empty
   directory in the same place.
   */
  lemma OverwriteRecreates(fs: Entries, p: Path)
    requires WellFormed(fs) && IsDir(fs, p)
    ensures CanMkdirs(ShallowDeleted(fs, p), p) <==> ShallowDeleteSucceeds(fs, p)
    ensures ShallowDeleteSucceeds(fs, p) ==>
              var after := WithDirs(ShallowDeleted(fs, p), p);
              IsDir(after, p) && ChildNames(after, p) == {}
  {
    var cleared := ShallowDeleted(fs, p);
    ShallowDeleteResultIsGone(fs, p);
    if ShallowDeleteSucceeds(fs, p) {
      forall i | 0 <= i < |p|
        ensures IsDir(cleared, p[..i])
      {
        AncestorIsDir(fs, p, i);
        ShallowDeleteFrame(fs, p, p[..i]);
      }
      var after := WithDirs(cleared, p);
      assert p == p[..|p|] && p in Prefixes(p);
      forall n | n in ChildNames(after, p)
        ensures false
      {
        var c := p + [n];
        if c in cleared {
          ShallowDeleteEntries(fs, p, n);
          ShallowDeleteSucceedsIff(fs, p);
          ChildNamesMembership(fs, p, n);
        }
      }
    }
  }
}
