/** Inode numbers, sizes and merged attributes in the header. */
module HeaderInodes {
  import opened FileSystem
  import opened Manifest
  import opened HeaderSpec
  import opened HeaderProofs

  /** Records of one path were made from one file. */
  ghost predicate SameFile(a: FileRec, b: FileRec) {
    && a.st.mode & S_IFMT == b.st.mode & S_IFMT
    && a.st.nlink == b.st.nlink && a.st.ino == b.st.ino && a.st.dev == b.st.dev
  }

  ghost predicate OneFilePerPath(recs: seq<FileRec>) {
    forall i, j | 0 <= i < j < |recs| && recs[i].cpioPath == recs[j].cpioPath :: SameFile(recs[i], recs[j])
  }

  lemma OverrideSame(a: FileRec, b: FileRec, a0: FileRec)
    requires SameFile(a, a0) && SameFile(a0, b)
    ensures SameFile(Override(a, b), b)
  {
  }

  /** Merging does not change which file a record stands for. */
  lemma {:induction false} MergedSame(recs: seq<FileRec>, i: nat)
    requires OneFilePerPath(recs) && i < |recs|
    ensures SameFile(Merged(recs, i), recs[i])
    decreases i
  {
    hide Override, SameFile;
    if Repeats(recs, i) {
      MergedSame(recs, i - 1);
      assert SameFile(recs[i - 1], recs[i]);
      OverrideSame(Merged(recs, i - 1), recs[i], recs[i - 1]);
    } else {
      SameRefl(recs[i]);
    }
  }

  lemma SameRefl(a: FileRec)
    ensures SameFile(a, a)
  {
  }

  lemma LinkSame(a: FileRec, a': FileRec, b: FileRec, b': FileRec)
    requires SameFile(a, a') && SameFile(b, b')
    ensures IsHardLink(a, b) <==> IsHardLink(a', b')
    ensures IsRegMode(a.st.mode) <==> IsRegMode(a'.st.mode)
  {
  }

  /** Two records of one run link to the same files. */
  lemma RunLinks(recs: seq<FileRec>, i: nat, j: nat, k: nat)
    requires OneFilePerPath(recs) && i < |recs| && j < |recs| && k < |recs|
    requires recs[i].cpioPath == recs[j].cpioPath
    ensures IsHardLink(Merged(recs, k), Merged(recs, i)) <==> IsHardLink(Merged(recs, k), Merged(recs, j))
    ensures IsHardLink(Merged(recs, i), Merged(recs, k)) <==> IsHardLink(Merged(recs, j), Merged(recs, k))
  {
    hide SameFile, IsHardLink, Merged;
    MergedSame(recs, i);
    MergedSame(recs, j);
    MergedSame(recs, k);
    SameRefl(recs[i]);
    SameSym(recs, i, j);
    LinkSame(Merged(recs, k), recs[k], Merged(recs, i), recs[i]);
    LinkSame(Merged(recs, k), recs[k], Merged(recs, j), recs[j]);
    LinkSame(recs[k], recs[k], recs[i], recs[j]) by { SameRefl(recs[k]); }
    LinkSame(recs[i], recs[j], recs[k], recs[k]) by { SameRefl(recs[k]); }
    LinkSame(Merged(recs, i), recs[i], Merged(recs, k), recs[k]);
    LinkSame(Merged(recs, j), recs[j], Merged(recs, k), recs[k]);
  }

  lemma SameSym(recs: seq<FileRec>, i: nat, j: nat)
    requires OneFilePerPath(recs) && i < |recs| && j < |recs| && recs[i].cpioPath == recs[j].cpioPath
    ensures SameFile(recs[i], recs[j])
  {
    if j < i {
      assert SameFile(recs[j], recs[i]);
    }
  }

  lemma LinkTrans(a: FileRec, b: FileRec, c: FileRec)
    ensures IsHardLink(a, b) && IsHardLink(b, c) ==> IsHardLink(a, c)
    ensures IsHardLink(a, b) ==> IsHardLink(b, a)
    ensures IsHardLink(a, b) ==> IsHardLink(a, a)
    ensures IsHardLink(a, a) <==> IsRegMode(a.st.mode) && a.st.nlink > 1
  {
  }

  /** The file id of a linked file is the position of the first record of any of its links. */
  lemma FileIdOfLinked(recs: seq<FileRec>, i: nat)
    requires OneFilePerPath(recs) && i < |recs| && IsHardLink(Merged(recs, i), Merged(recs, i))
    ensures var k := FileId(recs, i);
            && k <= i && IsHardLink(Merged(recs, i), Merged(recs, k))
            && forall m | 0 <= m < k :: !IsHardLink(Merged(recs, i), Merged(recs, m))
  {
    hide Merged, OneFilePerPath;
    LinkTrans(Merged(recs, i), Merged(recs, i), Merged(recs, i));
    var s := RunStart(recs, i);
    RunLinks(recs, s, i, i);
  }

  lemma FileIdOfOther(recs: seq<FileRec>, i: nat)
    requires i < |recs| && !IsHardLink(Merged(recs, i), Merged(recs, i))
    ensures FileId(recs, i) == RunStart(recs, i)
  {
    hide Merged;
    var k := FirstLink(recs, i, 0);
    LinkTrans(Merged(recs, i), Merged(recs, k), Merged(recs, i));
  }

  /**
   Inode numbers tell hard links apart from other files: two emitted entries have the same number if
   and only if their records are hard links of one file, whatever was merged or excluded in between.
  */
  lemma InodesAreLinks(recs: seq<FileRec>, i: nat, j: nat)
    requires SortedPaths(recs) && OneFilePerPath(recs) && i < j < |recs| && Emitted(recs, i) && Emitted(recs, j)
    ensures FileId(recs, i) == FileId(recs, j) <==> IsHardLink(Merged(recs, i), Merged(recs, j))
  {
    hide Merged, FileId, OneFilePerPath, IsHardLink, Emitted, SortedPaths;
    var a, b := Merged(recs, i), Merged(recs, j);
    LinkTrans(a, b, a);
    LinkTrans(b, a, b);
    EmittedLast(recs, i, j);
    BeforeAsym(recs[i].cpioPath, recs[j].cpioPath);
    var s, t := FileId(recs, i), FileId(recs, j);
    var la, lb := IsHardLink(a, a), IsHardLink(b, b);
    if la {
      FileIdOfLinked(recs, i);
    } else {
      FileIdOfOther(recs, i);
    }
    if lb {
      FileIdOfLinked(recs, j);
    } else {
      FileIdOfOther(recs, j);
    }
    if la && lb {
      LinkTrans(a, Merged(recs, s), b);
      LinkTrans(b, Merged(recs, s), a);
      LinkTrans(a, b, Merged(recs, t));
      LinkTrans(b, a, Merged(recs, s));
      LinkTrans(b, Merged(recs, t), a);
      LinkTrans(a, Merged(recs, t), b);
    } else if la {
      RunLinks(recs, t, j, i);
      LinkTrans(a, b, b);
    } else if lb {
      RunLinks(recs, s, i, j);
      LinkTrans(b, a, a);
    }
  }

  const INT_MAX := 0x7FFF_FFFF

  /** The same for the numbers in the header, which leave out 0. */
  lemma InodeNumbers(recs: seq<FileRec>, large: bool, docDirs: seq<string>, a: nat, b: nat)
    requires SortedPaths(recs) && OneFilePerPath(recs) && |recs| <= INT_MAX
    requires a < b < |HeaderEntries(recs, |recs|, large, docDirs)|
    ensures var es := HeaderEntries(recs, |recs|, large, docDirs);
            var ps := Positions(recs, |recs|);
            && |ps| == |es| && es[a].ino > 0
            && (es[a].ino == es[b].ino <==> IsHardLink(Merged(recs, ps[a]), Merged(recs, ps[b])))
  {
    hide Merged, FileId, OneFilePerPath, IsHardLink, Emitted, SortedPaths, HeaderEntries, Positions, FinalFlags,
         FinalVerify, DiskPaths;
    var ps := Positions(recs, |recs|);
    EntriesAt(recs, |recs|, large, docDirs);
    PositionsIncrease(recs, |recs|);
    InodesAreLinks(recs, ps[a], ps[b]);
    FileIdBound(recs, ps[a]);
    FileIdBound(recs, ps[b]);
  }

  lemma FileIdBound(recs: seq<FileRec>, i: nat)
    requires i < |recs|
    ensures FileId(recs, i) <= i
  {
  }

  // ----- sizes

  /** Without the flag for large files no size of a regular file is cut to 32 bits. */
  lemma SizesExact(recs: seq<FileRec>, large: bool, docDirs: seq<string>, k: nat)
    requires OneFilePerPath(recs) && (AnyLarge(recs) ==> large)
    requires k < |HeaderEntries(recs, |recs|, large, docDirs)|
    ensures var ps := Positions(recs, |recs|);
            && k < |ps|
            && (IsRegMode(Merged(recs, ps[k]).st.mode) ==>
                  HeaderEntries(recs, |recs|, large, docDirs)[k].size == recs[ps[k]].st.size)
  {
    hide Merged, FileId, OneFilePerPath, Emitted, HeaderEntries, Positions, FinalFlags, FinalVerify, DiskPaths,
         IsRegMode, RunStart;
    EntriesAt(recs, |recs|, large, docDirs);
    var i := Positions(recs, |recs|)[k];
    var r := Merged(recs, i);
    MergedSame(recs, i);
    LinkSame(r, recs[i], r, recs[i]);
    EmittedKept(recs, i);
    assert recs[i] in recs;
  }

  lemma EmittedKept(recs: seq<FileRec>, i: nat)
    requires i < |recs| && Emitted(recs, i)
    ensures recs[i].flags & RPMFILE_EXCLUDE == 0
  {
    hide Merged;
    ExcludedRun(recs, i);
    assert RunStart(recs, i) <= i;
  }

  /** Of the records that link to one file, exactly the very first one is counted. */
  lemma CountedLink(recs: seq<FileRec>, i: nat, j: nat)
    requires i < |recs| && j < |recs| && IsHardLink(Merged(recs, i), Merged(recs, j))
    ensures Counted(recs, j) <==> j == FirstLink(recs, i, 0)
  {
    hide Merged, RunStart;
    var a, b := Merged(recs, i), Merged(recs, j);
    var k := FirstLink(recs, i, 0);
    var m := FirstLink(recs, j, 0);
    LinkTrans(a, b, a);
    LinkTrans(b, a, b);
    LinkTrans(b, a, Merged(recs, k));
    LinkTrans(a, b, Merged(recs, m));
  }

  /**
   What one file is to the archive: all hard links of an inode together, or a path of its own. A file with
   one link that is listed under two paths, through a symbolic link to a directory, is stored twice.
  */
  datatype FileKey = Linked(id: Id, nlink: nat) | Single(path: string)

  function FileOf(r: FileRec): FileKey {
    if r.st.nlink > 1 then Linked(Id(r.st.dev, r.st.ino), r.st.nlink) else Single(r.cpioPath)
  }

  /** The links of one inode have one size. */
  ghost predicate SizesAgree(recs: seq<FileRec>) {
    forall i, j | 0 <= i < j < |recs| && recs[i].st.nlink > 1 && FileOf(recs[i]) == FileOf(recs[j]) ::
      recs[i].st.size == recs[j].st.size
  }

  /** Records made from one tree agree, in whatever order. */
  lemma TreeAgrees(fs: FileSys, recs: seq<FileRec>)
    requires forall r | r in recs :: FromTree(fs, r)
    ensures SizesAgree(recs)
  {
    forall i, j | 0 <= i < j < |recs| && recs[i].st.nlink > 1 && FileOf(recs[i]) == FileOf(recs[j])
      ensures recs[i].st.size == recs[j].st.size
    {
      assert recs[i] in recs && recs[j] in recs;
    }
  }

  /** The sum of the values of a map. */
  ghost function Sum(m: map<FileKey, nat>): nat {
    if m == map[] then 0
    else
      var k :| k in m;
      m[k] + Sum(m - {k})
  }

  lemma {:induction false} SumWithout(m: map<FileKey, nat>, k: FileKey)
    requires k in m
    ensures Sum(m) == m[k] + Sum(m - {k})
    decreases m
  {
    var h :| h in m && Sum(m) == m[h] + Sum(m - {h});
    if h != k {
      SumWithout(m - {h}, k);
      SumWithout(m - {k}, h);
      assert m - {h} - {k} == m - {k} - {h};
    }
  }

  /** The regular files among the first n records and their sizes. */
  ghost function Sizes(recs: seq<FileRec>, n: nat): map<FileKey, nat>
    requires n <= |recs|
  {
    if n == 0 then map[]
    else if IsRegMode(recs[n - 1].st.mode) then Sizes(recs, n - 1)[FileOf(recs[n - 1]) := recs[n - 1].st.size]
    else Sizes(recs, n - 1)
  }

  ghost predicate AllDistinct(recs: seq<FileRec>) {
    forall i, j | 0 <= i < j < |recs| :: recs[i].cpioPath != recs[j].cpioPath
  }

  lemma {:induction false} SizesIn(recs: seq<FileRec>, n: nat, id: FileKey)
    requires AllDistinct(recs) && SizesAgree(recs) && n <= |recs|
    ensures id in Sizes(recs, n) <==> exists j :: 0 <= j < n && IsRegMode(recs[j].st.mode) && FileOf(recs[j]) == id
    ensures forall j | 0 <= j < n && IsRegMode(recs[j].st.mode) && FileOf(recs[j]) == id ::
              Sizes(recs, n)[id] == recs[j].st.size
  {
    hide IsRegMode;
    if n > 0 {
      SizesIn(recs, n - 1, id);
      OneSize(recs, n - 1);
    }
  }

  lemma OneSize(recs: seq<FileRec>, i: nat)
    requires AllDistinct(recs) && SizesAgree(recs) && i < |recs|
    ensures forall j | 0 <= j <= i && FileOf(recs[j]) == FileOf(recs[i]) :: recs[j].st.size == recs[i].st.size
  {
  }

  /**
   Conservation of size: without duplicates and excludes the total is the sum over the regular files, each
   class of hard links being counted once however many of them are packaged.
  */
  lemma {:induction false} TotalIsSum(recs: seq<FileRec>, n: nat)
    requires AllDistinct(recs) && SizesAgree(recs) && (forall r | r in recs :: !Excluded(r)) && n <= |recs|
    ensures Total(recs, n) == Sum(Sizes(recs, n))
  {
    hide IsRegMode, AllDistinct, SizesAgree, Excluded, Merged, Emitted, Counted, Sum;
    if n == 0 {
      SumEmpty();
    } else {
      var i := n - 1;
      var id := FileOf(recs[i]);
      TotalIsSum(recs, i);
      assert recs[i] in recs;
      AllEmitted(recs, i);
      CountedFirst(recs, i);
      SizesIn(recs, i, id);
      if IsRegMode(recs[i].st.mode) {
        SizesIn(recs, n, id);
        var old_, new_ := Sizes(recs, i), Sizes(recs, n);
        if id in old_ {
          assert new_ == old_;
        } else {
          SumWithout(new_, id);
          assert new_ - {id} == old_;
        }
      }
    }
  }

  lemma SumEmpty()
    ensures Sum(map[]) == 0
  {
  }

  lemma AllEmitted(recs: seq<FileRec>, i: nat)
    requires AllDistinct(recs) && i < |recs| && !Excluded(recs[i])
    ensures Emitted(recs, i) && Merged(recs, i) == recs[i]
  {
  }

  lemma CountedFirst(recs: seq<FileRec>, i: nat)
    requires AllDistinct(recs) && i < |recs|
    ensures Counted(recs, i) <==>
            && IsRegMode(recs[i].st.mode)
            && forall j | 0 <= j < i :: !(IsRegMode(recs[j].st.mode) && FileOf(recs[j]) == FileOf(recs[i]))
  {
    hide IsRegMode, Excluded;
    forall j | 0 <= j <= i ensures Merged(recs, j) == recs[j] {
      NotMerged(recs, j);
    }
    var k := FirstLink(recs, i, 0);
    if k < i {
      assert IsHardLink(recs[i], recs[k]);
    }
    forall j | 0 <= j < i && IsRegMode(recs[i].st.mode) && IsRegMode(recs[j].st.mode)
               && FileOf(recs[j]) == FileOf(recs[i])
      ensures IsHardLink(Merged(recs, i), Merged(recs, j))
    {
    }
  }

  lemma NotMerged(recs: seq<FileRec>, i: nat)
    requires AllDistinct(recs) && i < |recs|
    ensures Merged(recs, i) == recs[i]
  {
  }

  // ----- the total in the presence of duplicates and excludes

  /** Record i is emitted and of a regular file. */
  ghost predicate Packed(recs: seq<FileRec>, i: nat)
    requires i < |recs|
  {
    Emitted(recs, i) && IsRegMode(Merged(recs, i).st.mode)
  }

  /** The files of the packed records among the first n with their sizes; only the counted ones on request. */
  ghost function PackedSizes(recs: seq<FileRec>, n: nat, counted: bool): map<FileKey, nat>
    requires n <= |recs|
  {
    if n == 0 then map[]
    else
      var m := PackedSizes(recs, n - 1, counted);
      if Packed(recs, n - 1) && (counted ==> Counted(recs, n - 1)) then m[FileOf(recs[n - 1]) := recs[n - 1].st.size]
      else m
  }

  lemma {:induction false} PackedSizesIn(recs: seq<FileRec>, n: nat, counted: bool, id: FileKey)
    requires SortedPaths(recs) && SizesAgree(recs) && n <= |recs|
    ensures id in PackedSizes(recs, n, counted) <==>
            exists j :: 0 <= j < n && Packed(recs, j) && (counted ==> Counted(recs, j)) && FileOf(recs[j]) == id
    ensures forall j | 0 <= j < n && Packed(recs, j) && FileOf(recs[j]) == id && id in PackedSizes(recs, n, counted) ::
              PackedSizes(recs, n, counted)[id] == recs[j].st.size
    decreases n
  {
    hide Emitted, Counted, IsRegMode;
    if n > 0 {
      PackedSizesIn(recs, n - 1, counted, id);
      PackedSame(recs, n - 1);
    }
  }

  lemma PackedSame(recs: seq<FileRec>, i: nat)
    requires SortedPaths(recs) && SizesAgree(recs) && i < |recs|
    ensures forall j | 0 <= j <= i && Packed(recs, j) && Packed(recs, i) && FileOf(recs[j]) == FileOf(recs[i]) ::
              recs[j].st.size == recs[i].st.size
  {
    hide Emitted, IsRegMode, SortedPaths;
    forall j | 0 <= j < i && Packed(recs, j) && FileOf(recs[j]) == FileOf(recs[i])
      ensures recs[i].st.nlink > 1
    {
      OtherPath(recs, j, i);
    }
  }

  lemma OtherPath(recs: seq<FileRec>, i: nat, j: nat)
    requires SortedPaths(recs) && i < j < |recs| && Emitted(recs, i)
    ensures recs[i].cpioPath != recs[j].cpioPath
  {
    hide Emitted, SortedPaths, Before;
    EmittedLast(recs, i, j);
    BeforeAsym(recs[i].cpioPath, recs[j].cpioPath);
  }

  /** Two packed records of one file are hard links of each other. */
  lemma PackedLinks(recs: seq<FileRec>, i: nat, j: nat)
    requires SortedPaths(recs) && i < j < |recs|
    requires Packed(recs, i) && Packed(recs, j) && FileOf(recs[i]) == FileOf(recs[j])
    ensures IsHardLink(Merged(recs, i), Merged(recs, j)) && IsHardLink(Merged(recs, j), Merged(recs, i))
  {
    hide Emitted, Merged, IsRegMode, SortedPaths;
    OtherPath(recs, i, j);
  }

  /** Of the packed records of one file at most one is counted. */
  lemma CountedTwice(recs: seq<FileRec>, i: nat, j: nat)
    requires SortedPaths(recs) && i < j < |recs|
    requires Packed(recs, i) && Packed(recs, j) && FileOf(recs[i]) == FileOf(recs[j])
    ensures !Counted(recs, i) || !Counted(recs, j)
  {
    hide Emitted, Merged, Counted, FirstLink, SizesAgree, SortedPaths, IsRegMode;
    PackedLinks(recs, i, j);
    LinkTrans(Merged(recs, i), Merged(recs, j), Merged(recs, i));
    CountedLink(recs, i, i);
    CountedLink(recs, i, j);
  }

  lemma {:induction false} TotalCounted(recs: seq<FileRec>, n: nat)
    requires SortedPaths(recs) && SizesAgree(recs) && n <= |recs|
    ensures Total(recs, n) == Sum(PackedSizes(recs, n, true))
    decreases n
  {
    hide Emitted, Merged, Counted, SizesAgree, SortedPaths, Sum, IsRegMode;
    if n == 0 {
      SumEmpty();
    } else {
      var i := n - 1;
      var id := FileOf(recs[i]);
      TotalCounted(recs, i);
      CountedRegular(recs, i);
      var before, after := PackedSizes(recs, i, true), PackedSizes(recs, n, true);
      if Packed(recs, i) && Counted(recs, i) {
        PackedSizesIn(recs, i, true, id);
        forall j | 0 <= j < i && Packed(recs, j) && FileOf(recs[j]) == id ensures !Counted(recs, j) {
          CountedTwice(recs, j, i);
        }
        assert id !in before;
        SumWithout(after, id);
        assert after - {id} == before;
      }
    }
  }

  lemma CountedRegular(recs: seq<FileRec>, i: nat)
    requires i < |recs|
    ensures Counted(recs, i) ==> IsRegMode(Merged(recs, i).st.mode)
  {
    hide Merged, IsRegMode, FirstLink;
  }

  /** The file of a packed record is counted unless it has links the first of which is not emitted. */
  lemma InodeCounted(recs: seq<FileRec>, i: nat)
    requires SortedPaths(recs) && SizesAgree(recs) && i < |recs| && Packed(recs, i)
    ensures FileOf(recs[i]) in PackedSizes(recs, |recs|, true) <==>
            recs[i].st.nlink <= 1 || Emitted(recs, FirstLink(recs, i, 0))
  {
    hide Emitted, Merged, Counted, FirstLink, SizesAgree, SortedPaths, IsRegMode, PackedSizes, IsHardLink;
    var id := FileOf(recs[i]);
    var k := FirstLink(recs, i, 0);
    PackedSizesIn(recs, |recs|, true, id);
    if recs[i].st.nlink <= 1 {
      Unlinked(recs, i);
    } else {
      LinkTrans(Merged(recs, i), Merged(recs, i), Merged(recs, i));
      CountedLink(recs, i, k);
      LinkFile(recs, i, k);
      forall j | 0 <= j < |recs| && Packed(recs, j) && FileOf(recs[j]) == id ensures Counted(recs, j) <==> j == k {
        if j < i {
          PackedLinks(recs, j, i);
        } else if i < j {
          PackedLinks(recs, i, j);
        }
        CountedLink(recs, i, j);
      }
      assert Emitted(recs, k) ==> Packed(recs, k) && Counted(recs, k);
    }
  }

  lemma LinkFile(recs: seq<FileRec>, i: nat, k: nat)
    requires i < |recs| && k < |recs| && IsHardLink(Merged(recs, i), Merged(recs, k))
    ensures FileOf(recs[k]) == FileOf(recs[i]) && IsRegMode(Merged(recs, k).st.mode)
  {
    hide Merged, IsRegMode;
  }

  lemma Unlinked(recs: seq<FileRec>, i: nat)
    requires i < |recs| && IsRegMode(Merged(recs, i).st.mode) && recs[i].st.nlink <= 1
    ensures Counted(recs, i)
  {
    hide Merged, IsRegMode;
  }

  lemma {:induction false} SumPart(m: map<FileKey, nat>, p: map<FileKey, nat>)
    requires p.Keys <= m.Keys && forall id | id in p :: p[id] == m[id]
    ensures Sum(m) >= Sum(p)
    ensures Sum(m) == Sum(p) <==> forall id | id in m && id !in p :: m[id] == 0
    decreases m.Keys - p.Keys
  {
    hide Sum;
    if m.Keys == p.Keys {
      assert m == p;
    } else {
      var x :| x in m && x !in p;
      SumWithout(m, x);
      assert (m - {x}).Keys == m.Keys - {x} && x in m.Keys - p.Keys && x !in (m - {x}).Keys - p.Keys;
      SumPart(m - {x}, p);
    }
  }

  /**
   When the total is right: it is the sum over the emitted regular files, each class of hard links counted
   once, if and only if for every emitted file with several links and a size, the first record of any of its
   links is itself emitted, neither excluded nor followed by a duplicate.
  */
  lemma TotalIff(recs: seq<FileRec>)
    requires SortedPaths(recs) && SizesAgree(recs)
    ensures Total(recs, |recs|) == Sum(PackedSizes(recs, |recs|, false)) <==>
            forall i | 0 <= i < |recs| && Packed(recs, i) && recs[i].st.nlink > 1 && recs[i].st.size > 0 ::
              Emitted(recs, FirstLink(recs, i, 0))
  {
    hide Emitted, Merged, Counted, FirstLink, SizesAgree, SortedPaths, IsRegMode, PackedSizes, Sum, Total;
    var n := |recs|;
    var all, some := PackedSizes(recs, n, false), PackedSizes(recs, n, true);
    TotalCounted(recs, n);
    forall id ensures id in some ==> id in all && all[id] == some[id] {
      PackedSizesIn(recs, n, false, id);
      PackedSizesIn(recs, n, true, id);
    }
    SumPart(all, some);
    forall i | 0 <= i < n && Packed(recs, i)
      ensures FileOf(recs[i]) in all && all[FileOf(recs[i])] == recs[i].st.size
      ensures FileOf(recs[i]) in some <==> recs[i].st.nlink <= 1 || Emitted(recs, FirstLink(recs, i, 0))
    {
      PackedSizesIn(recs, n, false, FileOf(recs[i]));
      InodeCounted(recs, i);
    }
    forall id | id in all ensures exists i :: 0 <= i < n && Packed(recs, i) && FileOf(recs[i]) == id {
      PackedSizesIn(recs, n, false, id);
    }
  }

  /** With an excluded first link the size of an emitted file is missing from the total. */
  lemma ExcludedLinkUncounted(recs: seq<FileRec>)
    requires |recs| == 2 && Before(recs[0].cpioPath, recs[1].cpioPath)
    requires Excluded(recs[0]) && !Excluded(recs[1]) && IsHardLink(recs[1], recs[0])
    ensures Total(recs, 2) == 0 && Emitted(recs, 1) && Sizes(recs, 2).Keys == {FileOf(recs[1])}
  {
    hide Excluded, IsRegMode;
    BeforeAsym(recs[0].cpioPath, recs[1].cpioPath);
    NotMerged(recs, 0);
    NotMerged(recs, 1);
    LinkTrans(recs[1], recs[0], recs[1]);
    assert FirstLink(recs, 1, 0) == 0;
    assert !Emitted(recs, 0) && Total(recs, 1) == 0;
    LinkedRegular(recs[1], recs[0]);
    assert Sizes(recs, 1) == map[FileOf(recs[0]) := recs[0].st.size];
  }

  /** A linked file that is listed twice is missing from the total altogether. */
  lemma DuplicateLinkUncounted(recs: seq<FileRec>)
    requires |recs| == 2 && recs[0].cpioPath == recs[1].cpioPath && IsHardLink(recs[1], recs[0])
    requires !Excluded(recs[0]) && !Excluded(recs[1])
    ensures Total(recs, 2) == 0 && Emitted(recs, 1) && OneFilePerPath(recs)
  {
    hide Excluded, IsRegMode, Override, IsHardLink, SameFile;
    LinkedSame(recs[0], recs[1]);
    MergedSame(recs, 0);
    MergedSame(recs, 1);
    LinkSame(Merged(recs, 1), recs[1], Merged(recs, 0), recs[0]);
    ExcludedOr(recs[0], recs[1]);
    CountedSecond(recs);
    assert !Emitted(recs, 0) && Total(recs, 1) == 0;
  }

  /** A file with one link that is listed under two paths is stored, and counted, twice. */
  lemma AliasCountedTwice(recs: seq<FileRec>)
    requires |recs| == 2 && Before(recs[0].cpioPath, recs[1].cpioPath) && recs[0].st == recs[1].st
    requires !Excluded(recs[0]) && !Excluded(recs[1]) && IsRegMode(recs[0].st.mode) && recs[0].st.nlink == 1
    ensures Total(recs, 2) == 2 * recs[0].st.size && Emitted(recs, 0) && Emitted(recs, 1)
    ensures Total(recs, 2) == Sum(PackedSizes(recs, 2, false))
  {
    hide Excluded, IsRegMode, Before, Sum, PackedSizes, IsHardLink;
    assert recs[0].cpioPath != recs[1].cpioPath by { BeforeAsym(recs[0].cpioPath, recs[1].cpioPath); }
    assert Total(recs, 1) == recs[0].st.size;
    assert SortedPaths(recs) by { BeforeAsym(recs[0].cpioPath, recs[1].cpioPath); }
    TotalIff(recs);
  }

  lemma LinkedSame(a: FileRec, b: FileRec)
    requires IsHardLink(b, a)
    ensures SameFile(a, b)
  {
  }

  lemma CountedSecond(recs: seq<FileRec>)
    requires |recs| == 2 && IsHardLink(Merged(recs, 1), Merged(recs, 0))
    ensures !Counted(recs, 1)
  {
    hide Merged;
    LinkedRegular(Merged(recs, 1), Merged(recs, 0));
    assert FirstLink(recs, 1, 0) == 0;
  }

  lemma LinkedRegular(a: FileRec, b: FileRec)
    requires IsHardLink(a, b)
    ensures IsRegMode(a.st.mode) && IsRegMode(b.st.mode) && a.st.nlink > 1 && FileOf(a) == FileOf(b)
  {
  }

  // ----- merged attributes

  /** The record whose attribute record i ends up with, for the attribute that the mask stands for. */
  function Winner(recs: seq<FileRec>, i: nat, mask: bv32): (w: nat)
    requires i < |recs|
    ensures RunStart(recs, i) <= w <= i
  {
    if Repeats(recs, i) && Stronger(recs[i - 1], recs[i], mask) then Winner(recs, i - 1, mask) else i
  }

  const MODE_BITS: bv32 := SPECD_FILEMODE | SPECD_DEFFILEMODE
  const DIR_BITS: bv32 := SPECD_DIRMODE | SPECD_DEFDIRMODE
  const UID_BITS: bv32 := SPECD_UID | SPECD_DEFUID
  const GID_BITS: bv32 := SPECD_GID | SPECD_DEFGID
  const VERIFY_BITS: bv32 := SPECD_VERIFY | SPECD_DEFVERIFY

  /** a0 stands for a record that is as explicit as a. */
  lemma OverrideIs(a: FileRec, b: FileRec, a0: FileRec)
    requires a.specd == a0.specd
    ensures var o := Override(a, b);
            && (o.st.uid, o.uname) == (if Stronger(a0, b, UID_BITS) then (a.st.uid, a.uname) else (b.st.uid, b.uname))
            && (o.st.gid, o.gname) == (if Stronger(a0, b, GID_BITS) then (a.st.gid, a.gname) else (b.st.gid, b.gname))
            && o.verify == if Stronger(a0, b, VERIFY_BITS) then a.verify else b.verify
  {
  }

  lemma {:induction false} MergedAttributes(recs: seq<FileRec>, i: nat)
    requires i < |recs|
    ensures var u := recs[Winner(recs, i, UID_BITS)];
            Merged(recs, i).st.uid == u.st.uid && Merged(recs, i).uname == u.uname
    ensures var g := recs[Winner(recs, i, GID_BITS)];
            Merged(recs, i).st.gid == g.st.gid && Merged(recs, i).gname == g.gname
    ensures Merged(recs, i).verify == recs[Winner(recs, i, VERIFY_BITS)].verify
    decreases i
  {
    hide RunStart, Override, Stronger;
    if Repeats(recs, i) {
      MergedAttributes(recs, i - 1);
      OverrideIs(Merged(recs, i - 1), recs[i], recs[i - 1]);
    }
  }

  lemma OverrideMode(a: FileRec, b: FileRec, a0: FileRec)
    requires a.specd == a0.specd
    ensures Override(a, b).st.mode ==
            if Stronger(a0, b, if IsDirMode(a.st.mode) then DIR_BITS else MODE_BITS) then a.st.mode else b.st.mode
  {
    hide IsDirMode;
  }

  lemma {:induction false} MergedMode(recs: seq<FileRec>, i: nat)
    requires OneFilePerPath(recs) && i < |recs|
    ensures Merged(recs, i).st.mode ==
            recs[Winner(recs, i, if IsDirMode(recs[i].st.mode) then DIR_BITS else MODE_BITS)].st.mode
    decreases i
  {
    hide SameFile, Override, Stronger, RunStart, IsDirMode;
    if Repeats(recs, i) {
      MergedMode(recs, i - 1);
      MergedSame(recs, i - 1);
      SameDir(recs[i - 1], recs[i]);
      SameDir(Merged(recs, i - 1), recs[i - 1]);
      OverrideMode(Merged(recs, i - 1), recs[i], recs[i - 1]);
    }
  }

  lemma SameDir(a: FileRec, b: FileRec)
    requires SameFile(a, b)
    ensures IsDirMode(a.st.mode) <==> IsDirMode(b.st.mode)
  {
  }

  /** From record j to record i each one is less explicit than the one before. */
  ghost predicate Weakening(recs: seq<FileRec>, j: nat, i: nat, mask: bv32)
    requires i < |recs|
  {
    forall k | j < k <= i :: Stronger(recs[k - 1], recs[k], mask)
  }

  /** No record of the run is more explicit than record j. */
  ghost predicate Strongest(recs: seq<FileRec>, j: nat, i: nat, mask: bv32)
    requires i < |recs| && j < |recs|
  {
    forall k | RunStart(recs, i) <= k <= i :: !Stronger(recs[k], recs[j], mask)
  }

  lemma {:induction false} WinnerWeakens(recs: seq<FileRec>, i: nat, mask: bv32)
    requires i < |recs|
    ensures Weakening(recs, Winner(recs, i, mask), i, mask)
    ensures forall j | RunStart(recs, i) <= j <= i && Weakening(recs, j, i, mask) ::
              && Winner(recs, i, mask) <= j
              && (j == Winner(recs, i, mask) || Stronger(recs[Winner(recs, i, mask)], recs[j], mask))
    decreases i
  {
    hide Stronger, Weakening, RunStart;
    var w := Winner(recs, i, mask);
    WeakeningAt(recs, i, mask);
    if w < i {
      WinnerWeakens(recs, i - 1, mask);
      WeakeningAt(recs, i - 1, mask);
      WeakeningNext(recs, w, i, mask);
      StrongerTrans(recs[w], recs[i - 1], recs[i], mask);
    }
    forall j | RunStart(recs, i) <= j < i && Weakening(recs, j, i, mask)
      ensures w <= j && (j == w || Stronger(recs[w], recs[j], mask))
    {
      WeakeningNext(recs, j, i, mask);
    }
  }

  lemma WeakeningAt(recs: seq<FileRec>, i: nat, mask: bv32)
    requires i < |recs|
    ensures Weakening(recs, i, i, mask)
  {
  }

  lemma WeakeningNext(recs: seq<FileRec>, j: nat, i: nat, mask: bv32)
    requires j < i < |recs|
    ensures Weakening(recs, j, i, mask) <==> Weakening(recs, j, i - 1, mask) && Stronger(recs[i - 1], recs[i], mask)
  {
    hide Stronger;
  }

  lemma StrongerTrans(a: FileRec, b: FileRec, c: FileRec, mask: bv32)
    ensures Stronger(a, b, mask) && Stronger(b, c, mask) ==> Stronger(a, c, mask)
    ensures Stronger(a, b, mask) ==> a != b
  {
  }

  /**
   The attribute of a path listed several times comes from one of the most explicit of its records if
   and only if explicitness strictly falls from some most explicit record to the last one.
  */
  lemma MostExplicitWins(recs: seq<FileRec>, i: nat, mask: bv32)
    requires i < |recs|
    ensures Strongest(recs, Winner(recs, i, mask), i, mask) <==>
            exists j :: RunStart(recs, i) <= j <= i && Strongest(recs, j, i, mask) && Weakening(recs, j, i, mask)
  {
    WinnerWeakens(recs, i, mask);
  }

  /** What parseForAttr sets for an explicit %attr, and what a line takes over from %defattr. */
  const EXPLICIT_ATTR: bv32 := SPECD_UID | SPECD_GID | SPECD_FILEMODE | SPECD_DIRMODE
  const DEFAULT_ATTR: bv32 := EXPLICIT_ATTR >> 8

  /** An explicit owner is lost behind two duplicates that have theirs from %defattr. */
  lemma ThirdDuplicateWins(a: FileRec, b: FileRec, c: FileRec)
    requires a.cpioPath == b.cpioPath == c.cpioPath
    requires a.specd == EXPLICIT_ATTR | DEFAULT_ATTR && b.specd == c.specd == DEFAULT_ATTR
    ensures Merged([a, b, c], 2).uname == c.uname && Merged([a, b], 1).uname == a.uname
    ensures !Strongest([a, b, c], Winner([a, b, c], 2, UID_BITS), 2, UID_BITS)
  {
  }
}
