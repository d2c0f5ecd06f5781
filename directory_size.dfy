/**
 What `FileManager.getDirectorySize` computes, as recursive functions over the
 filesystem map, and the facts about it: the recursion equation holds whichever
 entry is taken first, directories are charged nothing, a path that cannot be
 listed has size 0, and in a tree the size equals the total length of all
 regular files anywhere below the path.
 */
module DirectorySize {
  import opened FileSystem

  /**
   The recursive walk: 0 when `p` cannot be listed (missing, or not a
   directory), otherwise the sum over its entries of their contributions.
   */
  ghost function Size(fs: Entries, p: Path): nat
    decreases Below(fs, p), 2, ChildNames(fs, p)
  {
    if IsDir(fs, p) then SumEntries(fs, p, ChildNames(fs, p)) else 0
  }

  /** What one listed entry adds: its length when it is a regular file, otherwise its own size. */
  ghost function Contribution(fs: Entries, p: Path, n: Name): nat
    requires p + [n] in fs
    decreases Below(fs, p), 0, {n}
  {
    BelowShrinks(fs, p, n);
    var c := p + [n];
    if IsFile(fs, c) then fs[c].length else Size(fs, c)
  }

  /** The sum of the contributions of the entries `names` of directory `p`, in no particular order. */
  ghost function SumEntries(fs: Entries, p: Path, names: set<Name>): nat
    requires names <= ChildNames(fs, p)
    decreases Below(fs, p), 1, names
  {
    if names == {} then 0
    else
      var n :| n in names;
      ChildNamesMembership(fs, p, n);
      Contribution(fs, p, n) + SumEntries(fs, p, names - {n})
  }

  /** The sum of the lengths of the regular files among `qs`. */
  ghost function FileBytes(fs: Entries, qs: set<Path>): nat
    decreases qs
  {
    if qs == {} then 0
    else
      var q :| q in qs;
      LengthOf(fs, q) + FileBytes(fs, qs - {q})
  }

  /** The entries at or below the listed entries `names` of `p`. */
  function Subtrees(fs: Entries, p: Path, names: set<Name>): set<Path>
  {
    set q | q in fs.Keys && |q| > |p| && q[..|p|] == p && q[|p|] in names
  }

  // ---------------------------------------------------------------------------
  // The recursion equation, whatever the listing order
  // ---------------------------------------------------------------------------

  /**
   Taking any listed entry first gives the same sum: the size does not depend
   on the order in which the directory listing returns its entries.
   */
  lemma {:induction false} SumEntriesPick(fs: Entries, p: Path, names: set<Name>, n: Name)
    requires names <= ChildNames(fs, p)
    requires n in names
    ensures p + [n] in fs
    ensures SumEntries(fs, p, names) == Contribution(fs, p, n) + SumEntries(fs, p, names - {n})
    decreases names
  {
    ChildNamesMembership(fs, p, n);
    var m :| m in names
      && SumEntries(fs, p, names) == Contribution(fs, p, m) + SumEntries(fs, p, names - {m});
    if m != n {
      SumEntriesPick(fs, p, names - {m}, n);
      SumEntriesPick(fs, p, names - {n}, m);
      assert names - {m} - {n} == names - {n} - {m};
    }
  }

  /**
   The recursion equation of the walk: the size of a directory is the
   contribution of any one of its entries plus that of all the others.
   */
  lemma SizeUnfold(fs: Entries, p: Path, n: Name)
    requires IsDir(fs, p) && p + [n] in fs
    ensures Size(fs, p) == Contribution(fs, p, n) + SumEntries(fs, p, ChildNames(fs, p) - {n})
  {
    ChildNamesMembership(fs, p, n);
    SumEntriesPick(fs, p, ChildNames(fs, p), n);
  }

  /** Fail open: a path that cannot be listed, or an empty directory, has size 0. */
  lemma SizeWithoutEntries(fs: Entries, p: Path)
    requires !IsDir(fs, p) || ChildNames(fs, p) == {}
    ensures Size(fs, p) == 0
  {
  }

  /** An entry that is a regular file contributes exactly its length; a subdirectory, exactly its size. */
  lemma ContributionCases(fs: Entries, p: Path, n: Name)
    requires p + [n] in fs
    ensures fs[p + [n]].File? ==> Contribution(fs, p, n) == fs[p + [n]].length
    ensures fs[p + [n]].Dir? ==> Contribution(fs, p, n) == Size(fs, p + [n])
  {
  }

  // ---------------------------------------------------------------------------
  // The walk adds up every regular file below the path, and nothing else
  // ---------------------------------------------------------------------------

  /** Any element of the set can be taken first. */
  lemma {:induction false} FileBytesPick(fs: Entries, qs: set<Path>, q: Path)
    requires q in qs
    ensures FileBytes(fs, qs) == LengthOf(fs, q) + FileBytes(fs, qs - {q})
    decreases qs
  {
    var r :| r in qs
      && FileBytes(fs, qs) == LengthOf(fs, r) + FileBytes(fs, qs - {r});
    if r != q {
      FileBytesPick(fs, qs - {r}, q);
      FileBytesPick(fs, qs - {q}, r);
      assert qs - {r} - {q} == qs - {q} - {r};
    }
  }

  /** The bytes of two disjoint sets of paths add up. */
  lemma {:induction false} FileBytesUnion(fs: Entries, a: set<Path>, b: set<Path>)
    requires a !! b
    ensures FileBytes(fs, a + b) == FileBytes(fs, a) + FileBytes(fs, b)
    decreases a
  {
    if a != {} {
      var q :| q in a;
      FileBytesPick(fs, a, q);
      FileBytesPick(fs, a + b, q);
      assert (a + b) - {q} == (a - {q}) + b;
      FileBytesUnion(fs, a - {q}, b);
    } else {
      assert a + b == b;
    }
  }

  /** Splitting the subtrees of `names` into those of one entry and those of the rest. */
  lemma SubtreesSplit(fs: Entries, p: Path, names: set<Name>, n: Name)
    requires n in names && p + [n] in fs
    ensures Subtrees(fs, p, names)
         == Subtrees(fs, p, names - {n}) + ({p + [n]} + Below(fs, p + [n]))
    ensures Subtrees(fs, p, names - {n}) !! ({p + [n]} + Below(fs, p + [n]))
    ensures {p + [n]} !! Below(fs, p + [n])
  {
    var c := p + [n];
    assert c[..|p|] == p && c[|p|] == n;
    forall q | q in fs.Keys && |q| > |p| && q[..|p|] == p
      ensures q[|p|] == n <==> (q == c || q in Below(fs, c))
    {
      if q[|p|] == n {
        if |q| == |c| {
          assert q == c;
        } else {
          assert q[..|c|] == q[..|p|] + [q[|p|]];
        }
      }
      if q in Below(fs, c) {
        assert q[|p|] == q[..|c|][|p|];
      }
    }
    forall q | q in Below(fs, c)
      ensures q[..|p|] == p && q[|p|] == n
    {
      assert q[..|p|] == q[..|c|][..|p|];
      assert q[|p|] == q[..|c|][|p|];
    }
  }

  /** In a tree, the subtrees of all the entries of a directory are everything below it. */
  lemma SubtreesOfAllEntries(fs: Entries, p: Path)
    requires WellFormed(fs)
    ensures Subtrees(fs, p, ChildNames(fs, p)) == Below(fs, p)
  {
    forall q | q in Below(fs, p)
      ensures q[|p|] in ChildNames(fs, p)
    {
      if |q| > |p| + 1 {
        AncestorIsDir(fs, q, |p| + 1);
      }
      assert q[..|p| + 1] == p + [q[|p|]];
      ChildNamesMembership(fs, p, q[|p|]);
    }
  }

  /**
   The guarantee of the walk: in a tree, the size of `p` is the total length
   of the regular files anywhere below `p`. Directories are charged nothing.
   */
  lemma {:induction false} SizeIsFileBytes(fs: Entries, p: Path)
    requires WellFormed(fs)
    ensures Size(fs, p) == FileBytes(fs, Below(fs, p))
    decreases Below(fs, p), 2, ChildNames(fs, p)
  {
    if IsDir(fs, p) {
      SumEntriesIsFileBytes(fs, p, ChildNames(fs, p));
      SubtreesOfAllEntries(fs, p);
    } else {
      NothingBelowNonDir(fs, p);
    }
  }

  /** The same, for the sum over part of a listing. */
  lemma {:induction false} SumEntriesIsFileBytes(fs: Entries, p: Path, names: set<Name>)
    requires WellFormed(fs)
    requires names <= ChildNames(fs, p)
    ensures SumEntries(fs, p, names) == FileBytes(fs, Subtrees(fs, p, names))
    decreases Below(fs, p), 1, names
  {
    if names == {} {
      assert Subtrees(fs, p, names) == {};
    } else {
      var n :| n in names;
      var c := p + [n];
      var rest := Subtrees(fs, p, names - {n});
      var here := {c} + Below(fs, c);
      assert SumEntries(fs, p, names) == Contribution(fs, p, n) + SumEntries(fs, p, names - {n}) by {
        SumEntriesPick(fs, p, names, n);
      }
      assert SumEntries(fs, p, names - {n}) == FileBytes(fs, rest) by {
        SumEntriesIsFileBytes(fs, p, names - {n});
      }
      assert Contribution(fs, p, n) == FileBytes(fs, here) by {
        ContributionIsFileBytes(fs, p, n);
      }
      assert FileBytes(fs, Subtrees(fs, p, names)) == FileBytes(fs, rest) + FileBytes(fs, here) by {
        SubtreesSplit(fs, p, names, n);
        FileBytesUnion(fs, rest, here);
      }
    }
  }

  /** And for one entry: what it contributes is the bytes of the entry itself and of everything below it. */
  lemma {:induction false} ContributionIsFileBytes(fs: Entries, p: Path, n: Name)
    requires WellFormed(fs)
    requires p + [n] in fs
    ensures Contribution(fs, p, n) == FileBytes(fs, {p + [n]} + Below(fs, p + [n]))
    decreases Below(fs, p), 0, {n}
  {
    var c := p + [n];
    SubtreesSplit(fs, p, {n}, n);
    FileBytesUnion(fs, {c}, Below(fs, c));
    FileBytesPick(fs, {c}, c);
    assert {c} - {c} == {};
    BelowShrinks(fs, p, n);
    if IsFile(fs, c) {
      NothingBelowNonDir(fs, c);
    } else {
      SizeIsFileBytes(fs, c);
    }
  }
}
