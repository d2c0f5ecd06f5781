/**
 Worked examples on a small tree:

   /tmp/t/a.txt        5 bytes
   /tmp/t/sub/b.txt    7 bytes

 and the expected answers of `getDirectorySize` and `deleteDirectory` on it.
 */
module Scenarios {
  import opened FileSystem
  import opened DirectorySize
  import opened DirectoryDelete
  import opened FileManager

  const T: Path := ["tmp", "t"]
  const A: Path := ["tmp", "t", "a.txt"]
  const Sub: Path := ["tmp", "t", "sub"]
  const B: Path := ["tmp", "t", "sub", "b.txt"]

  function Sample(): Entries
  {
    map[[] := Dir, ["tmp"] := Dir, T := Dir, A := File(5), Sub := Dir, B := File(7)]
  }

  lemma SampleWellFormed()
    ensures WellFormed(Sample())
  {
    var fs := Sample();
    forall q | q in fs && |q| > 0
      ensures Parent(q) in fs && fs[Parent(q)].Dir?
    {
      assert Parent(["tmp"]) == [] && Parent(T) == ["tmp"] && Parent(A) == T;
      assert Parent(Sub) == T && Parent(B) == Sub;
    }
  }

  lemma SampleListings()
    ensures ChildNames(Sample(), T) == {"a.txt", "sub"}
    ensures ChildNames(Sample(), Sub) == {"b.txt"}
  {
    forall n
      ensures n in ChildNames(Sample(), T) <==> n == "a.txt" || n == "sub"
    {
      ChildNamesMembership(Sample(), T, n);
      assert T + ["a.txt"] == A && T + ["sub"] == Sub;
    }
    forall n
      ensures n in ChildNames(Sample(), Sub) <==> n == "b.txt"
    {
      ChildNamesMembership(Sample(), Sub, n);
      assert Sub + ["b.txt"] == B;
    }
  }

  /** The size of /tmp/t is 5 + 7: both levels are added up, the directories themselves count 0. */
  lemma SampleSize()
    ensures Size(Sample(), T) == 12
  {
    var fs := Sample();
    SampleListings();
    assert T + ["a.txt"] == A && T + ["sub"] == Sub && Sub + ["b.txt"] == B;
    SizeUnfold(fs, T, "a.txt");
    assert ChildNames(fs, T) - {"a.txt"} == {"sub"};
    SumEntriesPick(fs, T, {"sub"}, "sub");
    SizeUnfold(fs, Sub, "b.txt");
    assert ChildNames(fs, Sub) - {"b.txt"} == {};
  }

  /** /tmp/t holds a non-empty subdirectory, so `deleteDirectory` removes a.txt only and answers false. */
  lemma SampleDeleteKeepsSub()
    ensures !ShallowDeleteSucceeds(Sample(), T)
    ensures ShallowDeleted(Sample(), T) == Sample() - {A}
  {
    var fs := Sample();
    SampleListings();
    assert T + ["a.txt"] == A && T + ["sub"] == Sub && Sub + ["b.txt"] == B;
    assert !Removable(fs, Sub);
    assert Removable(fs, A);
    assert RemovedEntries(fs, T) == {A};
  }

  /** /tmp/t/sub holds regular files only, so `deleteDirectory` removes all of it and answers true. */
  lemma SampleDeleteSub()
    ensures ShallowDeleteSucceeds(Sample(), Sub)
    ensures ShallowDeleted(Sample(), Sub) == Sample() - {B, Sub}
  {
    var fs := Sample();
    SampleListings();
    assert Sub + ["b.txt"] == B;
    assert Removable(fs, B);
    assert RemovedEntries(fs, Sub) == {B};
  }

  /** The utilities themselves, called on the sample tree. */
  method SampleSession()
  {
    SampleListings();
    assert Sub + ["b.txt"] == B && T + ["a.txt"] == A && T + ["sub"] == Sub;
    SampleWellFormed();
    var disk := new Disk(Sample());
    var size := GetDirectorySize(disk, T);
    SampleSize();
    assert size == 12;
    SampleDeleteKeepsSub();
    var r := DeleteDirectory(disk, T);
    assert r == Returned(false);
    assert FileExists(disk, B) && !FileExists(disk, A);
    var thrown := DeleteDirectory(disk, B);
    assert thrown == Threw(NullPointerException);
  }
}
