/** What a recursion into a directory adds to the manifest, and when it is cut short unnoticed. */
module ManifestProofs {
  import opened CStrings
  import opened FileSystem
  import opened WalkSpec
  import opened WalkProofs
  import opened WalkTheorems
  import opened WalkRuns
  import opened WalkShape
  import opened WalkPaths
  import opened WalkBuffer
  import WalkKinds
  import opened Manifest

  // ----- one record per entry

  /** r is what adding the existing file at path p by itself would record. */
  ghost predicate Recorded(c: Context, cur: FileEntry, r: FileRec, p: string) {
    && c.buildRoot <= p && LStat(c.fs, p).Some?
    && r == Record(c, cur, p, StatOf(c.fs, LStat(c.fs, p).value))
  }

  ghost predicate AllRecorded(c: Context, cur: FileEntry, recs: seq<FileRec>, ps: seq<string>) {
    |recs| == |ps| && forall i | 0 <= i < |ps| :: Recorded(c, cur, recs[i], ps[i])
  }

  predicate Bad(v: Visit) {
    v.info in {NS, DNR, DC}
  }

  /** The visit is recorded under its path, passed over as a closing visit, or ends the recursion. */
  ghost predicate Plainly(c: Context, cur: FileEntry, v: Visit) {
    var a := ActOn(c, cur, v);
    if v.info == DP then a == Pass
    else if Bad(v) then a == Break
    else a.Take? && Recorded(c, cur, a.rec, v.path)
  }

  lemma {:induction false} TakenSplit(c: Context, cur: FileEntry, vs: seq<Visit>) returns (n: nat)
    requires forall v | v in vs :: Plainly(c, cur, v)
    ensures n <= |vs| && (forall v | v in vs[..n] :: !Bad(v)) && (n < |vs| ==> Bad(vs[n]))
    ensures Verdict(c, cur, vs) == if n == |vs| then Pass else Break
    ensures AllRecorded(c, cur, Taken(c, cur, vs), Opens(vs[..n]))
  {
    hide ActOn, Recorded;
    if vs == [] {
      n := 0;
    } else {
      assert Plainly(c, cur, vs[0]);
      if Bad(vs[0]) {
        n := 0;
      } else {
        var m := TakenSplit(c, cur, vs[1..]);
        n := m + 1;
        assert vs[..n] == [vs[0]] + vs[1..][..m] && vs[..n][1..] == vs[1..][..m];
      }
    }
  }

  lemma {:induction false} JoinedPlain(root: string, names: seq<string>)
    requires Plain(root) && forall n | n in names :: ValidName(n)
    ensures Plain(Joined(root, names)) && root <= Joined(root, names)
    decreases |names|
  {
    hide ValidName;
    if names != [] {
      assert names[0] in names;
      KidPlain(root, names[0]);
      JoinedPlain(root + "/" + names[0], names[1..]);
    }
  }

  lemma WholeIsTree(fs: FileSys, path: string)
    ensures Whole(fs, path) == VisitTree(fs, RECURSE_OPTIONS, RootItem(fs, RECURSE_OPTIONS, path), {}, 0, NoSkip())
  {
    hide VisitTree, RootItem;
    var vs := VisitTree(fs, RECURSE_OPTIONS, RootItem(fs, RECURSE_OPTIONS, path), {}, 0, NoSkip());
    assert WalkRoots(fs, RECURSE_OPTIONS, [path], 0, NoSkip()) ==
           vs + WalkRoots(fs, RECURSE_OPTIONS, [path][1..], 0 + |vs|, NoSkip());
    assert vs + [] == vs;
  }

  /** Only the opening visit of the root has level 0. */
  lemma RootOnly(fs: FileSys, path: string, v: Visit)
    requires ValidFs(fs) && Plain(path) && v in Whole(fs, path) && v.info !in {DP, DNR}
    ensures v == Pre(RootItem(fs, RECURSE_OPTIONS, path)) || v.level >= 1
    ensures Plain(v.path) && path <= v.path
  {
    hide ValidFs, Listing, VisitAll, Classify, Plain, Lookup, WalkRoots;
    WholeIsTree(fs, path);
    var o, it := RECURSE_OPTIONS, RootItem(fs, RECURSE_OPTIONS, path);
    var listing := Listing(fs, o, it.st);
    if v != Pre(it) {
      ListingValid(fs, o, it.st);
      PathsAll(fs, o, it, {it.st.value} + {}, listing.value, 0 + 1, NoSkip(), v);
      var n :| n in listing.value && Located(path + "/" + n, ROOTLEVEL + 1, v);
    }
    PathsTree(fs, o, it, {}, 0, NoSkip(), v);
    var names :| IsAt(path, ROOTLEVEL, v, names);
    JoinedPlain(path, names);
  }

  lemma AllPlainly(c: Context, cur: FileEntry, path: string, v: Visit)
    requires ValidFs(c.fs) && Plain(path) && c.buildRoot <= path
    requires LStat(c.fs, path).Some? && IsDir(c.fs, LStat(c.fs, path).value)
    requires v in Whole(c.fs, path)
    ensures Plainly(c, cur, v)
  {
    hide ValidFs, WalkRoots, Record, StatOf, VisitTree, Join;
    StatedWhole(c.fs, path, v);
    if v.info !in {DP, DNR} {
      RootOnly(c.fs, path, v);
    }
  }

  lemma PrefixIn<T>(a: seq<T>, b: seq<T>)
    requires a <= b
    ensures forall x | x in a :: x in b
  {
    forall x | x in a ensures x in b {
      var i :| 0 <= i < |a| && a[i] == x;
      assert b[i] == x;
    }
  }

  /**
   A directory below the build root: it adds, in the order of the walk, exactly one record for each
   entry, being the record that the entry would get by itself; or, when some entry is bad, exactly the
   records of the entries before it. It succeeds if and only if no reported entry is bad.
  */
  lemma DirectoryListed(c: Context, s: State, path: string) returns (n: nat)
    requires ValidFs(c.fs) && Openable(path) && Plain(path) && c.buildRoot <= path
    requires LStat(c.fs, path).Some? && IsDir(c.fs, LStat(c.fs, path).value)
    ensures var vs := Reported(c.fs, path).0;
            var (s', ok) := Recursed(c, s, path);
            && n <= |vs| && (ok <==> n == |vs|)
            && (forall v | v in vs[..n] :: !Bad(v)) && (n < |vs| ==> Bad(vs[n]))
            && s'.failed == s.failed && s'.cur == s.cur
            && s.files <= s'.files && AllRecorded(c, s.cur, s'.files[|s.files|..], Opens(vs[..n]))
  {
    hide ValidFs, Reported, ActOn, Plain, LStat, WalkRoots, Recorded, Taken, Verdict;
    var vs := Reported(c.fs, path).0;
    ReportedIsWhole(c.fs, path);
    PrefixIn(vs, Whole(c.fs, path));
    forall v | v in vs ensures Plainly(c, s.cur, v) {
      AllPlainly(c, s.cur, path, v);
    }
    n := TakenSplit(c, s.cur, vs);
    var recs := Taken(c, s.cur, vs);
    assert (s.files + recs)[|s.files|..] == recs;
  }

  /** What a stopped walk leaves out starts with an entry. */
  lemma CutOpens(fs: FileSys, path: string)
    requires ValidFs(fs) && Openable(path) && Reported(fs, path).1
    ensures |Reported(fs, path).0| < |Whole(fs, path)|
    ensures Whole(fs, path)[|Reported(fs, path).0|].info !in {DP, DNR}
  {
    hide OpenWalker, Run, WalkRoots, Wf, Future;
    OpenableOpens(fs, path);
    OpenWf(fs, RECURSE_OPTIONS, [path]);
    OpenShape(fs, RECURSE_OPTIONS, [path]);
    OpenFuture(fs, RECURSE_OPTIONS, [path], NoSkip());
    RunCut(fs, RECURSE_OPTIONS, OpenWalker(fs, RECURSE_OPTIONS, [path]).value, 0, NoSkip());
  }

  /** The path buffer that the walk of a directory needs, computed from its tree. */
  ghost function BufferFor(fs: FileSys, path: string): Option<nat> {
    CapOver(fs, RECURSE_OPTIONS, Whole(fs, path), 0, NoSkip(), Max(|path| + 1, MAXPATHLEN) + 256)
  }

  lemma StoppedIs(fs: FileSys, path: string)
    requires ValidFs(fs) && Openable(path)
    ensures Reported(fs, path).1 <==> BufferFor(fs, path).None?
  {
    hide OpenWalker, Run, WalkRoots, Wf, CapOver, MaxArgLen;
    OpenableOpens(fs, path);
    OpenWf(fs, RECURSE_OPTIONS, [path]);
    StoppedIff(fs, RECURSE_OPTIONS, [path], NoSkip());
    OneArg(path);
  }

  lemma OneArg(path: string)
    ensures MaxArgLen([path]) == |path| + 1
  {
    assert MaxArgLen([path]) == Max(|path| + 1, MaxArgLen([path][1..]));
  }

  /**
   After success the records are those of all entries of the directory if and only if the path buffer for
   its tree stays below the 16-bit limit.
  */
  lemma DirectoryWhole(c: Context, s: State, path: string)
    requires ValidFs(c.fs) && Openable(path) && Plain(path) && c.buildRoot <= path
    requires LStat(c.fs, path).Some? && IsDir(c.fs, LStat(c.fs, path).value)
    requires Recursed(c, s, path).1
    ensures AllRecorded(c, s.cur, Recursed(c, s, path).0.files[|s.files|..], Opens(Whole(c.fs, path))) <==>
            BufferFor(c.fs, path).Some?
  {
    hide ValidFs, Reported, Plain, LStat, WalkRoots, Recorded, Recursed, BufferFor;
    StoppedIs(c.fs, path);
    var n := DirectoryListed(c, s, path);
    ReportedIsWhole(c.fs, path);
    var vs, all := Reported(c.fs, path).0, Whole(c.fs, path);
    assert vs[..n] == vs;
    if vs != all {
      assert all == vs + all[|vs|..];
      OpensCat(vs, all[|vs|..]);
      CutOpens(c.fs, path);
      var rest := all[|vs|..];
      assert Opens(rest) == [rest[0].path] + Opens(rest[1..]);
    }
  }

  // ----- the limits of the system

  const PATH_MAX := 4096
  const NAME_MAX := 255

  ghost predicate NamesLimited(fs: FileSys) {
    forall id | IsDir(fs, id) :: forall n | n in Names(fs.inodes[id].kind.entries) :: |n| <= NAME_MAX
  }

  /** Only a path shorter than PATH_MAX can be opened as a directory. */
  ghost predicate OpensLimited(fs: FileSys, o: Options, vs: seq<Visit>) {
    forall v | v in vs && v.info == D && Listing(fs, o, v.st).Some? :: |v.path| < PATH_MAX
  }

  ghost predicate PathsLimited(vs: seq<Visit>) {
    forall v | v in vs :: |v.path| <= PATH_MAX + NAME_MAX
  }

  lemma LimitedPart(fs: FileSys, o: Options, a: seq<Visit>, b: seq<Visit>)
    requires OpensLimited(fs, o, a + b)
    ensures OpensLimited(fs, o, a) && OpensLimited(fs, o, b)
  {
    hide Listing;
    forall v | v in a || v in b ensures v in a + b {}
  }

  lemma LimitedTree(fs: FileSys, o: Options, it: Item, ancs: set<Id>, k: int, skip: SkipPlan)
    requires NamesLimited(fs) && |it.path| <= PATH_MAX + NAME_MAX
    requires OpensLimited(fs, o, VisitTree(fs, o, it, ancs, k, skip))
    ensures PathsLimited(VisitTree(fs, o, it, ancs, k, skip))
    decreases Dirs(fs) - ancs, 1, 0
  {
    hide Listing, VisitAll, NamesLimited;
    var listing := Listing(fs, o, it.st);
    if it.info == D && Descendable(fs, it, ancs) && !skip(k) && listing.Some? && listing.value != [] {
      var all := VisitAll(fs, o, it, {it.st.value} + ancs, listing.value, k + 1, skip);
      assert VisitTree(fs, o, it, ancs, k, skip) == [Pre(it)] + (all + [Post(it)]);
      LimitedPart(fs, o, [Pre(it)], all + [Post(it)]);
      LimitedPart(fs, o, all, [Post(it)]);
      assert Pre(it) in [Pre(it)];
      ListingLimited(fs, o, it.st);
      LimitedAll(fs, o, it, {it.st.value} + ancs, listing.value, k + 1, skip);
    }
  }

  lemma ListingLimited(fs: FileSys, o: Options, st: Option<Id>)
    requires NamesLimited(fs) && Listing(fs, o, st).Some?
    ensures forall n | n in Listing(fs, o, st).value :: |n| <= NAME_MAX
  {
    KeptIn(o, Names(Entries(fs, st)));
  }

  lemma LimitedAll(fs: FileSys, o: Options, h: Item, ancs: set<Id>, names: seq<string>, k: int, skip: SkipPlan)
    requires NamesLimited(fs) && |h.path| < PATH_MAX && forall n | n in names :: |n| <= NAME_MAX
    requires OpensLimited(fs, o, VisitAll(fs, o, h, ancs, names, k, skip))
    ensures PathsLimited(VisitAll(fs, o, h, ancs, names, k, skip))
    decreases Dirs(fs) - ancs, 2, |names|
  {
    hide NamesLimited, VisitTree, Listing, Classify, OpensLimited;
    if names != [] {
      var kid := Kid(fs, o, h, ancs, names[0]);
      var v := VisitTree(fs, o, kid, ancs, k, skip);
      var rest := VisitAll(fs, o, h, ancs, names[1..], k + |v|, skip);
      assert names[0] in names && forall n | n in names[1..] :: n in names;
      LimitedPart(fs, o, v, rest);
      LimitedTree(fs, o, kid, ancs, k, skip);
      LimitedAll(fs, o, h, ancs, names[1..], k + |v|, skip);
    }
  }

  /**
   Within the limits of the system, names of at most 255 bytes and directories that are opened by paths
   shorter than 4096 bytes, a recursion that succeeds lists every entry of the directory.
  */
  lemma DirectoryComplete(c: Context, s: State, path: string)
    requires ValidFs(c.fs) && NoNul(path) && Plain(path) && c.buildRoot <= path && |path| < PATH_MAX
    requires LStat(c.fs, path).Some? && IsDir(c.fs, LStat(c.fs, path).value)
    requires NamesLimited(c.fs) && OpensLimited(c.fs, RECURSE_OPTIONS, Whole(c.fs, path))
    requires Recursed(c, s, path).1
    ensures AllRecorded(c, s.cur, Recursed(c, s, path).0.files[|s.files|..], Opens(Whole(c.fs, path)))
  {
    hide ValidFs, Reported, LStat, Recorded, Recursed, BufferFor, NamesLimited, VisitTree, Classify, Lookup,
         OpensLimited, Run, OpenWalker, Wf;
    WholeIsTree(c.fs, path);
    LimitedTree(c.fs, RECURSE_OPTIONS, RootItem(c.fs, RECURSE_OPTIONS, path), {}, 0, NoSkip());
    LimitedRun(c.fs, path);
    StoppedIs(c.fs, path);
    DirectoryWhole(c, s, path);
  }

  lemma LimitedRun(fs: FileSys, path: string)
    requires ValidFs(fs) && path != "" && NoNul(path) && |path| < PATH_MAX && PathsLimited(Whole(fs, path))
    ensures Openable(path) && !Reported(fs, path).1
  {
    hide WalkRoots, Run, OpenWalker, Wf, ValidFs;
    OpenableOpens(fs, path);
    OpenWf(fs, RECURSE_OPTIONS, [path]);
    assert "" !in [path];
    WalkIsWhole(fs, RECURSE_OPTIONS, [path], NoSkip());
  }

  /** No disk path, and hence no path in the archive, is recorded twice. */
  lemma DirectoryOnce(c: Context, s: State, path: string)
    requires ValidFs(c.fs) && DistinctNames(c.fs) && Openable(path) && Plain(path) && c.buildRoot <= path
    requires LStat(c.fs, path).Some? && IsDir(c.fs, LStat(c.fs, path).value)
    ensures var recs := Recursed(c, s, path).0.files[|s.files|..];
            forall i, j | 0 <= i < j < |recs| ::
              recs[i].diskPath != recs[j].diskPath && recs[i].cpioPath != recs[j].cpioPath
  {
    hide ValidFs, Reported, Plain, LStat, WalkRoots, Recursed, DistinctNames, Opens, StatOf;
    var n := DirectoryListed(c, s, path);
    var vs, all := Reported(c.fs, path).0, Whole(c.fs, path);
    var ps := Opens(vs[..n]);
    ReportedIsWhole(c.fs, path);
    OnceWalk(c.fs, RECURSE_OPTIONS, path, NoSkip());
    assert all == vs[..n] + all[n..];
    OpensCat(vs[..n], all[n..]);
    var recs := Recursed(c, s, path).0.files[|s.files|..];
    forall i, j | 0 <= i < j < |recs|
      ensures recs[i].diskPath != recs[j].diskPath && recs[i].cpioPath != recs[j].cpioPath
    {
      assert Recorded(c, s.cur, recs[i], ps[i]) && Recorded(c, s.cur, recs[j], ps[j]);
      assert Opens(all)[i] != Opens(all)[j];
      ListedPlain(c.fs, path, vs[..n], all, ps[i]);
      ListedPlain(c.fs, path, vs[..n], all, ps[j]);
      CpioDistinct(c.buildRoot, ps[i], ps[j]);
    }
  }

  lemma ListedPlain(fs: FileSys, path: string, vs: seq<Visit>, all: seq<Visit>, p: string)
    requires ValidFs(fs) && Plain(path) && all == Whole(fs, path) && vs <= all && p in Opens(vs)
    ensures Plain(p)
  {
    hide ValidFs, Plain, WalkRoots;
    var v := OpensIn(vs, p);
    PrefixIn(vs, all);
    RootOnly(fs, path, v);
  }

  lemma CpioDistinct(buildRoot: string, p: string, q: string)
    requires buildRoot <= p && buildRoot <= q && Plain(p) && Plain(q) && p != q
    ensures CpioPath(buildRoot, p) != CpioPath(buildRoot, q)
  {
    if buildRoot != "/" {
      assert p == buildRoot + p[|buildRoot|..] && q == buildRoot + q[|buildRoot|..];
    }
  }

  /** The path in the archive is the disk path without the build root. */
  lemma CpioPathOf(buildRoot: string, p: string)
    requires buildRoot <= p && Plain(p)
    ensures if buildRoot == "/" then CpioPath(buildRoot, p) == p
            else if p == buildRoot then CpioPath(buildRoot, p) == "/"
            else p == buildRoot + CpioPath(buildRoot, p)
  {
  }

  // ----- a truncated listing

  /**
   A directory with a name too long for the path buffer: the walker stops with an error, but reports it
   by the same NULL as the end of the walk. Its own record is added, nothing of what is in it, and the
   result is success.
  */
  lemma TruncatedUnnoticed(c: Context, s: State, path: string, names: seq<string>)
    requires ValidFs(c.fs) && Openable(path) && Plain(path) && c.buildRoot <= path
    requires LStat(c.fs, path).Some? && IsDir(c.fs, LStat(c.fs, path).value)
    requires Listing(c.fs, RECURSE_OPTIONS, LStat(c.fs, path)) == Some(names) && names != []
    requires GrowFor(Max(|path| + 1, MAXPATHLEN) + 256, |path| + 1, names).None?
    ensures var (s', ok) := Recursed(c, s, path);
            ok && s'.failed == s.failed && |s'.files| == |s.files| + 1 && Recorded(c, s.cur, s'.files[|s.files|], path)
    ensures Reported(c.fs, path).1 && |Opens(Whole(c.fs, path))| > 1
  {
    hide ValidFs, Reported, Plain, LStat, WalkRoots, Recorded, Recursed, GrowFor, Listing;
    StoppedAtOnce(c.fs, path, names);
    var vs, all := Reported(c.fs, path).0, Whole(c.fs, path);
    var n := DirectoryListed(c, s, path);
    assert n == 1 && vs[..1] == vs && vs[1..] == [];
    assert Opens(vs) == [path];
    var s' := Recursed(c, s, path).0;
    assert s'.files[|s.files|] == s'.files[|s.files|..][0];
    CutOpens(c.fs, path);
    ReportedIsWhole(c.fs, path);
    var rest := all[1..];
    assert all == vs + rest && Opens(rest) == [rest[0].path] + Opens(rest[1..]);
    OpensCat(vs, rest);
  }

  lemma RootDir(fs: FileSys, path: string)
    requires LStat(fs, path).Some? && IsDir(fs, LStat(fs, path).value)
    ensures RootItem(fs, RECURSE_OPTIONS, path) == Item(path, path, D, LStat(fs, path), ROOTLEVEL)
  {
    hide Lookup;
  }

  lemma StoppedAtOnce(fs: FileSys, path: string, names: seq<string>)
    requires ValidFs(fs) && Openable(path) && Plain(path)
    requires LStat(fs, path).Some? && IsDir(fs, LStat(fs, path).value)
    requires Listing(fs, RECURSE_OPTIONS, LStat(fs, path)) == Some(names) && names != []
    requires GrowFor(Max(|path| + 1, MAXPATHLEN) + 256, |path| + 1, names).None?
    ensures Reported(fs, path).1 && |Reported(fs, path).0| == 1
    ensures Reported(fs, path).0[0].info == D && Reported(fs, path).0[0].path == path
  {
    hide ValidFs, Plain, LStat, WalkRoots, RootItem, Listing, GrowFor, Wf, OpenWalker, Future;
    var o := RECURSE_OPTIONS;
    OpenableOpens(fs, path);
    OpenWf(fs, o, [path]);
    OpenShape(fs, o, [path]);
    OpenCap(fs, path);
    RootDir(fs, path);
    var w := OpenWalker(fs, o, [path]).value;
    var root := w.frames[1];
    var w1 := w.(frames := w.frames[..2]);
    assert Step(fs, o, w, false) == (Some(Pre(root.item)), w1);
    StepFuture(fs, o, w, 0, NoSkip());
    StepFuture(fs, o, w1, 1, NoSkip());
    PlainChop(path);
    assert Step(fs, o, w1, false).0 == None && Step(fs, o, w1, false).1.stopped;
    assert Run(fs, o, w1, 1, NoSkip()) == ([], Step(fs, o, w1, false).1);
  }

  lemma OpenCap(fs: FileSys, path: string)
    requires OpenWalker(fs, RECURSE_OPTIONS, [path]).Some?
    ensures OpenWalker(fs, RECURSE_OPTIONS, [path]).value.cap == Max(|path| + 1, MAXPATHLEN) + 256
  {
    hide RootItem, RootItems, Stack;
    assert MaxArgLen([path]) == Max(|path| + 1, MaxArgLen([path][1..]));
  }

  // ----- a glob pattern

  /** What addFile does with a path depends on the current entry, not on what was added before. */
  lemma AddStateLocal(c: Context, s: State, path: string)
    requires ValidFs(c.fs) && NoNul(path)
    ensures var (x, ok) := AddState(c, State([], false, false, s.cur), path);
            AddState(c, s, path) == (State(s.files + x.files, s.failed || x.failed, s.large || x.large, x.cur), ok)
  {
    hide Recursed, Record, SourceOf, IsDirMode, Large, ValidFs;
    var s0 := State([], false, false, s.cur);
    assert s.files + [] == s.files;
    var p := Chop(path);
    if !(c.buildRoot <= p) {
      return;
    }
    var src := SourceOf(c, s.cur, p);
    if src.Missing? {
      return;
    }
    var cur' := if src.Faked? && s.cur.dev.None? && s.cur.isDir != 0 then s.cur.(isDir := 1) else s.cur;
    if cur'.isDir != 0 && !IsDirMode(src.st.mode) {
      return;
    }
    if cur'.isDir != 1 && IsDirMode(src.st.mode) {
      FoundOnDisk(c, s.cur, p);
      RecursedLocal(c, s, p);
    } else {
      var r := Record(c, cur', p, src.st);
      assert [] + [r] == [r];
    }
  }

  lemma RecursedLocal(c: Context, s: State, path: string)
    requires ValidFs(c.fs) && NoNul(path)
    ensures var (x, ok) := Recursed(c, State([], false, false, s.cur), path);
            Recursed(c, s, path) == (State(s.files + x.files, s.failed || x.failed, s.large || x.large, x.cur), ok)
  {
    hide Reported, Taken, Verdict;
    assert s.files + [] == s.files;
    if Openable(path) {
      var recs := Taken(c, s.cur, Reported(c.fs, path).0);
      assert [] + recs == recs;
    }
  }

  // ----- records come from the tree

  ghost predicate AllFromTree(fs: FileSys, recs: seq<FileRec>) {
    forall r | r in recs :: FromTree(fs, r)
  }

  lemma RecordFromTree(c: Context, cur: FileEntry, path: string, id: Id)
    requires c.buildRoot <= path && id in c.fs.inodes
    ensures FromTree(c.fs, Record(c, cur, path, StatOf(c.fs, id)))
  {
    hide FileMode, Mode;
  }

  lemma {:induction false} TakenFromTree(c: Context, cur: FileEntry, vs: seq<Visit>)
    ensures AllFromTree(c.fs, Taken(c, cur, vs))
  {
    hide Record, StatOf, FromTree, Chop;
    if vs != [] && Fine(ActOn(c, cur, vs[0])) {
      TakenFromTree(c, cur, vs[1..]);
      if ActOn(c, cur, vs[0]).Take? {
        RecordFromTree(c, cur, Chop(vs[0].path), vs[0].st.value);
      }
    }
  }

  /** Whatever is added, linked records carry the size and the links of an inode of the tree. */
  lemma AddedFromTree(c: Context, s: State, path: string)
    requires ValidFs(c.fs) && NoNul(path) && AllFromTree(c.fs, s.files)
    ensures AllFromTree(c.fs, AddState(c, s, path).0.files)
  {
    hide FileMode, Mode, Taken, Reported, Verdict, ActOn, Lookup, First, CpioPath, JoinLangs, IsDirMode, Large;
    if Openable(Chop(path)) {
      TakenFromTree(c, s.cur, Reported(c.fs, Chop(path)).0);
    }
  }

  lemma {:induction false} AllAddedFromTree(c: Context, s: State, ok: bool, paths: seq<string>)
    requires ValidFs(c.fs) && (forall p | p in paths :: NoNul(p)) && AllFromTree(c.fs, s.files)
    ensures AllFromTree(c.fs, AddAll(c, s, ok, paths).0.files)
    decreases |paths|
  {
    hide AddState, AllFromTree;
    if paths != [] {
      assert paths[0] in paths && forall p | p in paths[1..] :: p in paths;
      AddedFromTree(c, s, paths[0]);
      var (s', ok') := AddState(c, s, paths[0]);
      AllAddedFromTree(c, s', ok', paths[1..]);
    }
  }

  /** The current entry after a path: a made-up directory counts as an explicit one from then on. */
  function CurAfter(c: Context, cur: FileEntry, path: string): FileEntry {
    var p := Chop(path);
    if c.buildRoot <= p && SourceOf(c, cur, p).Faked? && cur.dev.None? && cur.isDir != 0 then cur.(isDir := 1) else cur
  }

  /** The path is a directory to descend into. */
  predicate Descends(c: Context, cur: FileEntry, path: string) {
    var p := Chop(path);
    && c.buildRoot <= p && SourceOf(c, cur, p).OnDisk? && IsDirMode(SourceOf(c, cur, p).st.mode)
    && cur.isDir != 1 && p != ""
  }

  /** The visits of a directory as far as the path buffer suffices, computed from its tree. */
  ghost function WithinBuffer(fs: FileSys, path: string): seq<Visit> {
    Fitting(fs, RECURSE_OPTIONS, Whole(fs, path), NoSkip(), Max(|path| + 1, MAXPATHLEN) + 256)
  }

  /** Some entry is an unreadable directory, cannot be stat'ed or closes a cycle. */
  predicate HasBad(vs: seq<Visit>) {
    exists v | v in vs :: Bad(v)
  }

  lemma ReportedIs(fs: FileSys, path: string)
    requires ValidFs(fs) && Openable(path)
    ensures Reported(fs, path).0 == WithinBuffer(fs, path)
    ensures BufferFor(fs, path).Some? ==> WithinBuffer(fs, path) == Whole(fs, path)
  {
    hide OpenWalker, Run, WalkRoots, Wf, Fitting, BufferFor, MaxArgLen;
    OpenableOpens(fs, path);
    OpenWf(fs, RECURSE_OPTIONS, [path]);
    ReportedFits(fs, RECURSE_OPTIONS, [path], NoSkip());
    OneArg(path);
    StoppedIs(fs, path);
    ReportedIsWhole(fs, path);
  }

  /** q names an entry somewhere below the directory p. */
  ghost predicate Below(p: string, q: string) {
    Chop(p) + "/" <= q && Chop(q) == q
  }

  lemma BelowTree(fs: FileSys, o: Options, it: Item, ancs: set<Id>, k: int, skip: SkipPlan, v: Visit)
    requires ValidFs(fs) && v in VisitTree(fs, o, it, ancs, k, skip) && v.info !in {DP, DNR}
    ensures v == Pre(it) || Below(it.path, v.path)
    decreases Dirs(fs) - ancs, 1, 0
  {
    hide Listing, VisitAll, Chop, ValidFs, Below;
    if v != Pre(it) {
      var listing := Listing(fs, o, it.st);
      ListingValid(fs, o, it.st);
      BelowAll(fs, o, it, {it.st.value} + ancs, listing.value, k + 1, skip, v);
    }
  }

  lemma BelowAll(fs: FileSys, o: Options, h: Item, ancs: set<Id>, names: seq<string>, k: int, skip: SkipPlan, v: Visit)
    requires ValidFs(fs) && v in VisitAll(fs, o, h, ancs, names, k, skip) && v.info !in {DP, DNR}
    requires forall n | n in names :: ValidName(n)
    ensures Below(h.path, v.path)
    decreases Dirs(fs) - ancs, 2, |names|
  {
    hide VisitTree, Classify, Join, ValidFs, ValidName, Below;
    var kid := Kid(fs, o, h, ancs, names[0]);
    var vs := VisitTree(fs, o, kid, ancs, k, skip);
    assert names[0] in names && forall n | n in names[1..] :: n in names;
    if v in vs {
      BelowTree(fs, o, kid, ancs, k, skip, v);
      BelowKid(h.path, names[0], v.path);
    } else {
      BelowAll(fs, o, h, ancs, names[1..], k + |vs|, skip, v);
    }
  }

  lemma BelowKid(p: string, name: string, q: string)
    requires ValidName(name) && (q == Join(p, name) || Below(Join(p, name), q))
    ensures Below(p, q)
  {
    NoTrailingSlash(p, name);
  }

  /** The visit is passed over, ends the recursion, or is added. */
  ghost predicate Foreseen(c: Context, cur: FileEntry, v: Visit) {
    var a := ActOn(c, cur, v);
    if v.info == DP then a == Pass else if Bad(v) then a == Break else a.Take?
  }

  lemma {:induction false} VerdictForeseen(c: Context, cur: FileEntry, vs: seq<Visit>)
    requires forall v | v in vs :: Foreseen(c, cur, v)
    ensures Verdict(c, cur, vs) == if HasBad(vs) then Break else Pass
  {
    hide ActOn;
    if vs != [] {
      assert Foreseen(c, cur, vs[0]) && vs == [vs[0]] + vs[1..];
      VerdictForeseen(c, cur, vs[1..]);
    }
  }

  lemma DirModeIs(fs: FileSys, id: Id)
    requires ValidFs(fs) && id in fs.inodes && IsDirMode(StatOf(fs, id).mode)
    ensures IsDir(fs, id)
  {
    assert ValidMode(fs.inodes[id]);
  }

  /** With the path of a directory below the build root, every entry below it is foreseen. */
  lemma AllForeseen(c: Context, cur: FileEntry, p: string, v: Visit)
    requires ValidFs(c.fs) && p != "" && v in Whole(c.fs, p)
    requires c.buildRoot <= p && c.buildRoot <= Chop(p)
    ensures Foreseen(c, cur, v)
  {
    hide ValidFs, VisitTree, Record, StatOf, Lookup, Whole;
    StatedWhole(c.fs, p, v);
    WholeIsTree(c.fs, p);
    if v.info !in {DP, DNR} {
      RootPath(c.fs, p);
      BelowTree(c.fs, RECURSE_OPTIONS, RootItem(c.fs, RECURSE_OPTIONS, p), {}, 0, NoSkip(), v);
    }
  }

  lemma RootPath(fs: FileSys, path: string)
    ensures RootItem(fs, RECURSE_OPTIONS, path).path == path
  {
    hide Lookup, Classify;
  }

  /**
   How the recursion into a directory ends can be told from its tree: refused at once if the build root is
   the path with a slash behind it, and otherwise broken off if and only if an entry within reach is bad.
  */
  lemma VerdictIs(c: Context, cur: FileEntry, p: string)
    requires ValidFs(c.fs) && Openable(p) && c.buildRoot <= p
    requires LStat(c.fs, p).Some? && IsDir(c.fs, LStat(c.fs, p).value)
    ensures Verdict(c, cur, Reported(c.fs, p).0) ==
            if !(c.buildRoot <= Chop(p)) then Refuse else if HasBad(WithinBuffer(c.fs, p)) then Break else Pass
  {
    hide ValidFs, ActOn, Reported, Whole, VisitTree, Chop, LStat, Fitting, HasBad, Foreseen;
    var vs := Reported(c.fs, p).0;
    ReportedIs(c.fs, p);
    ReportedIsWhole(c.fs, p);
    PrefixIn(vs, Whole(c.fs, p));
    if c.buildRoot <= Chop(p) {
      forall v | v in vs ensures Foreseen(c, cur, v) {
        AllForeseen(c, cur, p, v);
      }
      VerdictForeseen(c, cur, vs);
    } else {
      FirstRefused(c, cur, p);
    }
  }

  lemma FirstRefused(c: Context, cur: FileEntry, p: string)
    requires Openable(p) && !(c.buildRoot <= Chop(p))
    requires LStat(c.fs, p).Some? && IsDir(c.fs, LStat(c.fs, p).value)
    ensures Verdict(c, cur, WithinBuffer(c.fs, p)) == Refuse
  {
    hide VisitAll, Listing, Lookup, RootItem, Behind, Inside, Record;
    RootDir(c.fs, p);
    WholeIsTree(c.fs, p);
    assert WithinBuffer(c.fs, p)[0] == Pre(RootItem(c.fs, RECURSE_OPTIONS, p));
  }

  /**
   The recursion cannot be started, or an entry of the directory, as far as the path buffer suffices, is
   unreadable, cannot be stat'ed or closes a cycle.
  */
  ghost predicate BreaksOff(c: Context, cur: FileEntry, path: string) {
    var p := Chop(path);
    Descends(c, cur, path) && (!Openable(p) || (c.buildRoot <= Chop(p) && HasBad(WithinBuffer(c.fs, p))))
  }

  /** The path is outside the build root, missing or of the wrong kind. */
  ghost predicate Refused(c: Context, cur: FileEntry, path: string) {
    var p := Chop(path);
    var src := SourceOf(c, cur, p);
    if !(c.buildRoot <= p) then true
    else if src.Missing? then cur.attrFlags & RPMFILE_EXCLUDE == 0
    else if cur.isDir != 0 && !IsDirMode(src.st.mode) then true
    else Descends(c, cur, path) && Openable(p) && !(c.buildRoot <= Chop(p))
  }

  /**
   Some entry that the directory leads to, through directories that can be read and without running in a
   circle, has no inode, is a directory that cannot be read, or is one of the directories it lies in.
  */
  ghost predicate BadBelow(fs: FileSys, path: string) {
    exists names ::
      && WalkKinds.Reached(fs, RECURSE_OPTIONS, path, names)
      && WalkKinds.BadEntry(fs, RECURSE_OPTIONS, path, names)
  }

  lemma BadIsBelow(fs: FileSys, path: string)
    requires ValidFs(fs) && path != ""
    ensures HasBad(Whole(fs, path)) <==> BadBelow(fs, path)
  {
    hide ValidFs, WalkRoots, WalkKinds.Reached, WalkKinds.BadEntry;
    WalkKinds.BadInTree(fs, RECURSE_OPTIONS, path, NoSkip());
    if v :| v in Whole(fs, path) && Bad(v) {
      assert WalkKinds.BadInfo(v.info);
    }
    if v :| v in WalkRoots(fs, RECURSE_OPTIONS, [path], 0, NoSkip()) && WalkKinds.BadInfo(v.info) {
      assert v in Whole(fs, path) && Bad(v);
    }
  }

  /** Unless the path buffer gets too large, a recursion breaks off if and only if the tree has a bad entry. */
  lemma BreaksOffAtBad(c: Context, cur: FileEntry, path: string)
    requires ValidFs(c.fs) && Descends(c, cur, path) && Openable(Chop(path)) && Plain(Chop(path))
    requires BufferFor(c.fs, Chop(path)).Some?
    ensures BreaksOff(c, cur, path) <==> HasBad(Whole(c.fs, Chop(path)))
    ensures BreaksOff(c, cur, path) <==> BadBelow(c.fs, Chop(path))
    ensures !Refused(c, cur, path)
  {
    hide ValidFs, Whole, WithinBuffer, BufferFor, HasBad, SourceOf, BadBelow;
    ReportedIs(c.fs, Chop(path));
    BadIsBelow(c.fs, Chop(path));
  }

  /**
   A path is added unless it is refused or its recursion breaks off. Only a refusal marks the list as
   failed; a recursion that breaks off is told by the result alone.
  */
  lemma Outcome(c: Context, s: State, path: string)
    requires ValidFs(c.fs) && NoNul(path)
    ensures var (s', ok) := AddState(c, s, path);
            && (ok <==> !Refused(c, s.cur, path) && !BreaksOff(c, s.cur, path))
            && (s'.failed <==> s.failed || Refused(c, s.cur, path))
            && s'.cur == CurAfter(c, s.cur, path)
  {
    hide Record, Large, ActOn, FakeStat, Lookup, Mode, ValidFs, WithinBuffer, HasBad, Recursed;
    var p := Chop(path);
    var src := SourceOf(c, s.cur, p);
    if c.buildRoot <= p && !src.Missing? && IsDirMode(src.st.mode)
       && (src.Faked? ==> s.cur.dev.Some? || s.cur.isDir == 0) {
      FoundOnDisk(c, s.cur, p);
      OutcomeRecursed(c, s, p);
    }
  }

  lemma OutcomeRecursed(c: Context, s: State, p: string)
    requires ValidFs(c.fs) && NoNul(p) && c.buildRoot <= p
    requires SourceOf(c, s.cur, p).OnDisk? && IsDirMode(SourceOf(c, s.cur, p).st.mode)
    ensures var (s', ok) := Recursed(c, s, p);
            && s'.cur == s.cur
            && (ok <==> Openable(p) && c.buildRoot <= Chop(p) && !HasBad(WithinBuffer(c.fs, p)))
            && (s'.failed <==> s.failed || (Openable(p) && !(c.buildRoot <= Chop(p))))
  {
    hide Reported, Taken, Verdict, AnyLarge, ActOn, HasBad, WithinBuffer, StatOf, Lookup, ValidFs, IsDirMode;
    DirModeIs(c.fs, LStat(c.fs, p).value);
    if Openable(p) {
      VerdictIs(c, s.cur, p);
    }
  }

  /** The current entry in front of match i. */
  ghost function CurAt(c: Context, cur: FileEntry, paths: seq<string>, i: nat): FileEntry
    requires i <= |paths|
    decreases i
  {
    if i == 0 then cur else CurAt(c, CurAfter(c, cur, paths[0]), paths[1..], i - 1)
  }

  /** No match is refused, and the last one does not break off. */
  ghost predicate Passes(c: Context, cur: FileEntry, paths: seq<string>)
    requires paths != []
  {
    && (forall i | 0 <= i < |paths| :: !RefusedAt(c, cur, paths, i))
    && var n := |paths| - 1; !BreaksOff(c, CurAt(c, cur, paths, n), paths[n])
  }

  ghost predicate RefusedAt(c: Context, cur: FileEntry, paths: seq<string>, i: nat)
    requires i < |paths|
  {
    Refused(c, CurAt(c, cur, paths, i), paths[i])
  }

  /**
   A glob pattern counts as added if and only if none of its matches is refused and the recursion into
   the last one does not break off: the result of each match overwrites the one before, so that the
   recursion into any other match may break off unnoticed.
  */
  lemma {:induction false} GlobVerdict(c: Context, s: State, paths: seq<string>)
    requires ValidFs(c.fs) && paths != [] && (forall p | p in paths :: NoNul(p))
    ensures var (s', ok) := AddAll(c, s, true, paths);
            ok && !s'.failed <==> !s.failed && Passes(c, s.cur, paths)
    decreases |paths|
  {
    hide AddState, Refused, BreaksOff, CurAfter;
    assert paths[0] in paths && forall p | p in paths[1..] :: p in paths;
    var (s1, ok1) := AddState(c, s, paths[0]);
    Outcome(c, s, paths[0]);
    if |paths| == 1 {
      assert paths[1..] == [] && AddAll(c, s, true, paths) == AddAll(c, s1, ok1, []);
      assert RefusedAt(c, s.cur, paths, 0) <==> Refused(c, s.cur, paths[0]);
    } else {
      GlobVerdict(c, s1, paths[1..]);
      AddAllFrom(c, s1, ok1, paths[1..]);
      PassesNext(c, s.cur, paths);
    }
  }

  lemma PassesNext(c: Context, cur: FileEntry, paths: seq<string>)
    requires |paths| > 1
    ensures Passes(c, cur, paths) <==> !Refused(c, cur, paths[0]) && Passes(c, CurAfter(c, cur, paths[0]), paths[1..])
  {
    hide Refused, BreaksOff, CurAfter;
    var next, rest := CurAfter(c, cur, paths[0]), paths[1..];
    assert RefusedAt(c, cur, paths, 0) <==> Refused(c, cur, paths[0]);
    forall i | 0 <= i < |rest| ensures RefusedAt(c, next, rest, i) == RefusedAt(c, cur, paths, i + 1) {
    }
    forall i | 1 <= i < |paths| ensures RefusedAt(c, cur, paths, i) == RefusedAt(c, next, rest, i - 1) {
      assert RefusedAt(c, next, rest, i - 1) == RefusedAt(c, cur, paths, i - 1 + 1);
    }
  }

  /**
   A name of a %files line is added without a mark if and only if it starts with a slash, is not a
   pattern for a device, and the path, or all the matches, are added as Passes says.
  */
  lemma BinaryVerdict(c: Context, s: State, fileName: string, path: string, glob: bool, matches: seq<string>)
    requires ValidFs(c.fs) && NoNul(path + "/") && NoNul(path) && (forall p | p in matches :: NoNul(p)) && !s.failed
    ensures var cur := Slashed(s.cur, fileName);
            var (s', ok) := BinaryState(c, s, fileName, path, glob, matches);
            ok && !s'.failed <==>
              && fileName != "" && fileName[0] == '/' && !(glob && cur.dev.Some?)
              && if glob && matches != [] then Passes(c, cur, matches)
                 else var p := if cur.isDir != 0 then path + "/" else path; !Refused(c, cur, p) && !BreaksOff(c, cur, p)
    ensures fileName == "" || fileName[0] != '/' ==>
              var (s', ok) := BinaryState(c, s, fileName, path, glob, matches); !ok && s'.files == s.files
  {
    hide AddState, AddAll, Refused, BreaksOff, Passes;
    var cur := Slashed(s.cur, fileName);
    var s1 := s.(cur := cur);
    if matches != [] {
      GlobVerdict(c, s1, matches);
    }
    Outcome(c, s1, if cur.isDir != 0 then path + "/" else path);
  }

  /** With at least one match the initial result does not matter. */
  lemma AddAllFrom(c: Context, s: State, ok: bool, paths: seq<string>)
    requires ValidFs(c.fs) && paths != [] && (forall p | p in paths :: NoNul(p))
    ensures AddAll(c, s, ok, paths) == AddAll(c, s, true, paths)
  {
    hide AddState;
  }
}
