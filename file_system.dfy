/**
 An abstract, in-memory model of the part of `java.io.File` that the
 FileManager utilities rely on.

 A filesystem is a finite map from paths to nodes. A path is the sequence of
 names from the root, so `new File(parent, name)` is `parent + [name]` and no
 string parsing is involved. A node is a regular file with a length in bytes,
 or a directory whose entries are the paths one name longer that the map holds.
 The map is kept tree-shaped (no links, hence no cycles): the parent of every
 entry exists and is a directory.
 */
module FileSystem {

  type Name = string
  type Path = seq<Name>

  datatype Node = File(length: nat) | Dir

  type Entries = map<Path, Node>

  /** The directory that contains `q`. */
  function Parent(q: Path): Path
    requires |q| > 0
  {
    q[..|q| - 1]
  }

  /** Tree shape: every entry other than the root sits in an existing directory. */
  ghost predicate WellFormed(fs: Entries)
  {
    forall q | q in fs && |q| > 0 :: Parent(q) in fs && fs[Parent(q)].Dir?
  }

  predicate IsDir(fs: Entries, p: Path)
  {
    p in fs && fs[p].Dir?
  }

  predicate IsFile(fs: Entries, p: Path)
  {
    p in fs && fs[p].File?
  }

  /** The names listed in directory `p`: the last names of the entries one level below `p`. */
  function ChildNames(fs: Entries, p: Path): (names: set<Name>)
    ensures forall n | n in names :: p + [n] in fs
  {
    var names := set q | q in fs.Keys && |q| == |p| + 1 && q[..|p|] == p :: q[|p|];
    assert forall n | n in names :: p + [n] in fs by {
      forall n | n in names
        ensures p + [n] in fs
      {
        var q :| q in fs.Keys && |q| == |p| + 1 && q[..|p|] == p && q[|p|] == n;
        assert q == p + [n];
      }
    }
    names
  }

  /** The number of bytes `File.length` reports: the length of a regular file, 0 for anything else. */
  function LengthOf(fs: Entries, p: Path): nat
  {
    if IsFile(fs, p) then fs[p].length else 0
  }

  /** Every entry strictly below `p`; it shrinks on the way down, which is what makes walks terminate. */
  function Below(fs: Entries, p: Path): set<Path>
  {
    set q | q in fs.Keys && |q| > |p| && q[..|p|] == p
  }

  /** The `java.io.File.delete` precondition for success: a regular file, or an empty directory. */
  predicate Removable(fs: Entries, q: Path)
  {
    q in fs && (fs[q].File? || ChildNames(fs, q) == {})
  }

  /** `p` together with every prefix of it, the root included. */
  function Prefixes(p: Path): set<Path>
  {
    set i | 0 <= i <= |p| :: p[..i]
  }

  /** When `java.io.File.mkdirs` creates `p`: `p` is missing and no prefix of it is a regular file. */
  predicate CanMkdirs(fs: Entries, p: Path)
  {
    p !in fs && forall i | 0 <= i < |p| :: !IsFile(fs, p[..i])
  }

  /** `fs` with `p` and every missing ancestor of `p` added as directories; existing entries are kept. */
  function WithDirs(fs: Entries, p: Path): Entries
  {
    (map q | q in Prefixes(p) :: Dir) + fs
  }

  // ---------------------------------------------------------------------------
  // Facts about the tree shape
  // ---------------------------------------------------------------------------

  /** A name is listed in `p` exactly when `p + [name]` exists. */
  lemma ChildNamesMembership(fs: Entries, p: Path, n: Name)
    ensures n in ChildNames(fs, p) <==> p + [n] in fs
  {
    var c := p + [n];
    if c in fs {
      assert |c| == |p| + 1 && c[..|p|] == p && c[|p|] == n;
    }
    if n in ChildNames(fs, p) {
      var q :| q in fs.Keys && |q| == |p| + 1 && q[..|p|] == p && q[|p|] == n;
      assert q == c;
    }
  }

  /** In a tree, every proper prefix of an entry is an existing directory. */
  lemma {:induction false} AncestorIsDir(fs: Entries, q: Path, i: nat)
    requires WellFormed(fs)
    requires q in fs && i < |q|
    ensures IsDir(fs, q[..i])
    decreases |q| - i
  {
    if i == |q| - 1 {
      assert Parent(q) == q[..i];
    } else {
      AncestorIsDir(fs, q, i + 1);
      var a := q[..i + 1];
      assert Parent(a) == q[..i];
    }
  }

  /** Going down to an existing child strictly shrinks the set of entries below. */
  lemma BelowShrinks(fs: Entries, p: Path, n: Name)
    requires p + [n] in fs
    ensures Below(fs, p + [n]) < Below(fs, p)
  {
    var c := p + [n];
    assert c[..|p|] == p;
    assert c in Below(fs, p) && c !in Below(fs, c);
    forall q | q in Below(fs, c)
      ensures q in Below(fs, p)
    {
      assert q[..|p|] == q[..|c|][..|p|];
    }
  }

  /** In a tree, nothing lies below a path that is missing or a regular file. */
  lemma NothingBelowNonDir(fs: Entries, p: Path)
    requires WellFormed(fs)
    requires !IsDir(fs, p)
    ensures Below(fs, p) == {}
  {
    forall q | q in Below(fs, p)
      ensures false
    {
      AncestorIsDir(fs, q, |p|);
    }
  }

  /** Removing entries no longer than `q` leaves the listing of `q` as it was. */
  lemma ChildNamesUnaffected(fs: Entries, gone: set<Path>, q: Path)
    requires forall d | d in gone :: |d| <= |q|
    ensures ChildNames(fs - gone, q) == ChildNames(fs, q)
  {
    forall n
      ensures n in ChildNames(fs - gone, q) <==> n in ChildNames(fs, q)
    {
      ChildNamesMembership(fs - gone, q, n);
      ChildNamesMembership(fs, q, n);
      assert |q + [n]| > |q|;
    }
  }

  /** Removing an entry that `java.io.File.delete` accepts keeps the tree shape. */
  lemma RemoveKeepsWellFormed(fs: Entries, q: Path)
    requires WellFormed(fs)
    requires Removable(fs, q)
    ensures WellFormed(fs - {q})
  {
    forall r | r in fs - {q} && |r| > 0
      ensures Parent(r) in fs - {q} && fs[Parent(r)].Dir?
    {
      assert Parent(r) + [r[|r| - 1]] == r;
      ChildNamesMembership(fs, Parent(r), r[|r| - 1]);
    }
  }

  /** `mkdirs` on a path it can create keeps the tree shape and adds `p` as a directory. */
  lemma WithDirsKeepsWellFormed(fs: Entries, p: Path)
    requires WellFormed(fs)
    requires CanMkdirs(fs, p)
    ensures WellFormed(WithDirs(fs, p))
    ensures IsDir(WithDirs(fs, p), p)
  {
    var fs' := WithDirs(fs, p);
    assert p == p[..|p|] && p in Prefixes(p);
    forall r | r in fs' && |r| > 0
      ensures Parent(r) in fs' && fs'[Parent(r)].Dir?
    {
      if r !in fs {
        var i :| 0 <= i <= |p| && r == p[..i];
        assert Parent(r) == p[..i - 1];
        assert Parent(r) in Prefixes(p);
        assert !IsFile(fs, p[..i - 1]);
      }
    }
  }

  // ---------------------------------------------------------------------------
  // The filesystem state that the utilities observe and change
  // ---------------------------------------------------------------------------

  /** The host filesystem; `entries` is changed in place by `Delete` and `Mkdirs`. */
  class Disk {
    var entries: Entries

    ghost predicate Valid()
      reads this
    {
      WellFormed(entries)
    }

    constructor (initial: Entries)
      requires WellFormed(initial)
      ensures Valid() && entries == initial
    {
      entries := initial;
    }

    /** `File.exists`. */
    function Exists(p: Path): bool
      reads this
    {
      p in entries
    }

    /** `File.isDirectory`. */
    function IsDirectory(p: Path): bool
      reads this
    {
      IsDir(entries, p)
    }

    /** `File.isFile`. */
    function IsRegularFile(p: Path): bool
      reads this
    {
      IsFile(entries, p)
    }

    /** `File.length`: the byte count of a regular file, 0 for anything else. */
    function Length(p: Path): nat
      reads this
    {
      LengthOf(entries, p)
    }

    /** `File.list` (and `File.listFiles`, whose entries are `p + [name]`): `None` plays Java's `null`. */
    function List(p: Path): Option<set<Name>>
      reads this
    {
      if IsDir(entries, p) then Some(ChildNames(entries, p)) else None
    }

    /** `File.delete`: succeeds on a regular file or an empty directory, and only then changes anything. */
    method Delete(p: Path) returns (ok: bool)
      requires Valid()
      modifies this
      ensures Valid()
      ensures ok == Removable(old(entries), p)
      ensures entries == if ok then old(entries) - {p} else old(entries)
    {
      ok := Removable(entries, p);
      if ok {
        RemoveKeepsWellFormed(entries, p);
        entries := entries - {p};
      }
    }

    /** `File.mkdirs`: creates `p` and its missing ancestors; false, and no change, when it cannot. */
    method Mkdirs(p: Path) returns (ok: bool)
      requires Valid()
      modifies this
      ensures Valid()
      ensures ok == CanMkdirs(old(entries), p)
      ensures entries == if ok then WithDirs(old(entries), p) else old(entries)
    {
      ok := CanMkdirs(entries, p);
      if ok {
        WithDirsKeepsWellFormed(entries, p);
        entries := WithDirs(entries, p);
      }
    }
  }

  datatype Option<T> = None | Some(value: T)
}
