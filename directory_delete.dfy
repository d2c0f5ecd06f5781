/**
 What `FileManager.deleteDirectory` does to a directory tree. The routine is
 shallow: it calls `File.delete` once on every direct entry and then on the
 directory itself, and `File.delete` only removes regular files and empty
 directories. So the regular files and the empty subdirectories go, a
 non-empty subdirectory stays with all it holds, and the directory itself goes
 exactly when it had no non-empty subdirectory.
 */
module DirectoryDelete {
  import opened FileSystem

  /** A directory with at least one entry: the only kind of entry `File.delete` refuses. */
  predicate NonEmptyDir(fs: Entries, q: Path)
  {
    IsDir(fs, q) && ChildNames(fs, q) != {}
  }

  /** The paths among the entries `names` of `p` that `File.delete` accepts. */
  function RemovedAmong(fs: Entries, p: Path, names: set<Name>): set<Path>
  {
    set n | n in names && Removable(fs, p + [n]) :: p + [n]
  }

  /** The entries of `p` removed by the loop of `deleteDirectory`. */
  function RemovedEntries(fs: Entries, p: Path): set<Path>
  {
    RemovedAmong(fs, p, ChildNames(fs, p))
  }

  /** When the final `File.delete` of the directory itself succeeds: every entry was removable. */
  predicate ShallowDeleteSucceeds(fs: Entries, p: Path)
  {
    IsDir(fs, p) && forall n | n in ChildNames(fs, p) :: Removable(fs, p + [n])
  }

  /**
   The filesystem after `deleteDirectory(p)`: unchanged when `p` cannot be
   listed; otherwise without the removable entries of `p`, and without `p`
   when nothing else was left in it.
   */
  function ShallowDeleted(fs: Entries, p: Path): Entries
  {
    if !IsDir(fs, p) then fs
    else if ShallowDeleteSucceeds(fs, p) then fs - RemovedEntries(fs, p) - {p}
    else fs - RemovedEntries(fs, p)
  }

  // ---------------------------------------------------------------------------
  // What the loop leaves behind
  // ---------------------------------------------------------------------------

  /** Membership in `RemovedAmong`. */
  lemma RemovedAmongMembership(fs: Entries, p: Path, names: set<Name>, q: Path)
    ensures q in RemovedAmong(fs, p, names)
        <==> |q| == |p| + 1 && q[..|p|] == p && q[|p|] in names && Removable(fs, q)
  {
    if |q| == |p| + 1 && q[..|p|] == p {
      assert q == p + [q[|p|]];
    }
    if q in RemovedAmong(fs, p, names) {
      var n :| n in names && Removable(fs, p + [n]) && q == p + [n];
      assert q[..|p|] == p && q[|p|] == n;
    }
  }

  /** Removing the removable entries of `p` leaves exactly its non-empty subdirectories listed in it. */
  lemma RemainingEntries(fs: Entries, p: Path)
    requires IsDir(fs, p)
    ensures ChildNames(fs - RemovedEntries(fs, p), p)
         == set n | n in ChildNames(fs, p) && NonEmptyDir(fs, p + [n])
  {
    var rest := fs - RemovedEntries(fs, p);
    forall n
      ensures n in ChildNames(rest, p) <==> n in ChildNames(fs, p) && NonEmptyDir(fs, p + [n])
    {
      var c := p + [n];
      ChildNamesMembership(rest, p, n);
      ChildNamesMembership(fs, p, n);
      RemovedAmongMembership(fs, p, ChildNames(fs, p), c);
      assert c[..|p|] == p && c[|p|] == n;
    }
  }

  /** The result of `deleteDirectory`: true exactly when no entry of `p` was a non-empty directory. */
  lemma ShallowDeleteSucceedsIff(fs: Entries, p: Path)
    requires IsDir(fs, p)
    ensures ShallowDeleteSucceeds(fs, p)
        <==> forall n | n in ChildNames(fs, p) :: !NonEmptyDir(fs, p + [n])
    ensures ShallowDeleteSucceeds(fs, p) <==> ChildNames(fs - RemovedEntries(fs, p), p) == {}
  {
    RemainingEntries(fs, p);
    if !ShallowDeleteSucceeds(fs, p) {
      var n :| n in ChildNames(fs, p) && !Removable(fs, p + [n]);
      assert n in ChildNames(fs - RemovedEntries(fs, p), p);
    }
  }

  /** The result is also exactly whether the directory is gone afterwards. */
  lemma ShallowDeleteResultIsGone(fs: Entries, p: Path)
    requires IsDir(fs, p)
    ensures ShallowDeleteSucceeds(fs, p) <==> p !in ShallowDeleted(fs, p)
  {
    RemovedAmongMembership(fs, p, ChildNames(fs, p), p);
  }

  /**
   What survives among the entries of `p`: each non-empty subdirectory, as it
   was; every regular file and every empty subdirectory is gone.
   */
  lemma ShallowDeleteEntries(fs: Entries, p: Path, n: Name)
    requires IsDir(fs, p) && p + [n] in fs
    ensures p + [n] in ShallowDeleted(fs, p) <==> NonEmptyDir(fs, p + [n])
    ensures p + [n] in ShallowDeleted(fs, p) ==> ShallowDeleted(fs, p)[p + [n]] == fs[p + [n]]
  {
    var c := p + [n];
    assert c[..|p|] == p && c[|p|] == n;
    ChildNamesMembership(fs, p, n);
    RemovedAmongMembership(fs, p, ChildNames(fs, p), c);
  }

  /**
   Frame: `deleteDirectory(p)` changes nothing but `p` and its direct entries;
   in particular a non-empty subdirectory keeps everything below it.
   */
  lemma ShallowDeleteFrame(fs: Entries, p: Path, q: Path)
    requires q != p && !(|q| == |p| + 1 && q[..|p|] == p)
    ensures q in ShallowDeleted(fs, p) <==> q in fs
    ensures q in fs ==> ShallowDeleted(fs, p)[q] == fs[q]
  {
    RemovedAmongMembership(fs, p, ChildNames(fs, p), q);
  }

  /** The tree shape survives the shallow delete. */
  lemma ShallowDeleteKeepsWellFormed(fs: Entries, p: Path)
    requires WellFormed(fs)
    ensures WellFormed(ShallowDeleted(fs, p))
  {
    if IsDir(fs, p) {
      var fs' := ShallowDeleted(fs, p);
      forall r | r in fs' && |r| > 0
        ensures Parent(r) in fs' && fs'[Parent(r)].Dir?
      {
        var a := Parent(r);
        assert a + [r[|r| - 1]] == r;
        ChildNamesMembership(fs, a, r[|r| - 1]);
        RemovedAmongMembership(fs, p, ChildNames(fs, p), r);
        RemovedAmongMembership(fs, p, ChildNames(fs, p), a);
        if a == p {
          // r is an entry of p that survived, so p is still there
          ShallowDeleteSucceedsIff(fs, p);
          ChildNamesMembership(fs - RemovedEntries(fs, p), p, r[|r| - 1]);
        } else if |a| == |p| + 1 && a[..|p|] == p {
          // a is an entry of p with r inside it: a was not removable
          assert !Removable(fs, a);
        }
      }
    }
  }
}
