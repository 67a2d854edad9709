/** The list of file records of a package while its %files lines are processed (daemon/files.c). */
module Files {
  import opened CStrings
  import opened FileSystem
  import opened WalkSpec
  import opened WalkProofs
  import opened WalkTheorems
  import opened WalkRuns
  import opened FtsMemory
  import opened Fts
  import opened FtsWalk
  import opened Manifest

  class FileList {
    const fs: FileSys
    const env: Env
    const buildRoot: string
    var processingFailed: bool
    var largeFiles: bool
    var files: seq<FileRec>
    var def: FileEntry
    var cur: FileEntry

    function Ctx(): Context
      reads this
    {
      Context(fs, env, buildRoot, def)
    }

    function Abs(): State
      reads this
    {
      State(files, processingFailed, largeFiles, cur)
    }

    constructor (fs: FileSys, env: Env, buildRoot: string, def: FileEntry, cur: FileEntry)
      ensures Ctx() == Context(fs, env, buildRoot, def) && Abs() == State([], false, false, cur)
    {
      this.fs, this.env, this.buildRoot := fs, env, buildRoot;
      this.def, this.cur := def, cur;
      files, processingFailed, largeFiles := [], false, false;
    }

    /**
     addFile: adds one path, with the stat data when it comes from a recursion. False stands for
     RPMRC_FAIL.
    */
    method AddFile(path: string, statp: Option<StatRec>) returns (ok: bool)
      requires ValidFs(fs) && NoNul(path)
      modifies this
      ensures def == old(def)
      ensures statp.None? ==> (Abs(), ok) == AddState(old(Ctx()), old(Abs()), path)
      ensures statp.Some? ==>
                var p := Chop(path);
                if buildRoot <= p
                then ok && Abs() == Added(old(Abs()), Record(old(Ctx()), old(cur), p, statp.value))
                else !ok && Abs() == old(Abs()).(failed := true)
      decreases if statp.None? then 2 else 0
    {
      hide ValidFs, Recursed, Run, Lookup, Mode, FileMode, FakeStat, Record, First, CpioPath;
      var diskPath := Chop(path);
      if !(buildRoot <= diskPath) {
        processingFailed := true;
        return false;
      }
      var st;
      match statp {
        case Some(given) => st := given;
        case None =>
          var source := SourceOf(Ctx(), cur, diskPath);
          match source {
            case Missing =>
              if cur.attrFlags & RPMFILE_EXCLUDE != 0 {
                return true;
              }
              processingFailed := true;
              return false;
            case Faked(fake) =>
              st := fake;
              if cur.dev.None? && cur.isDir != 0 {
                cur := cur.(isDir := 1);
              }
            case OnDisk(found) => st := found;
          }
          if cur.isDir != 0 && !IsDirMode(st.mode) {
            processingFailed := true;
            return false;
          }
          if cur.isDir != 1 && IsDirMode(st.mode) {
            FoundOnDisk(old(Ctx()), old(cur), diskPath);
            ghost var left;
            ok, left := RecurseDir(diskPath);
            return;
          }
      }
      var r := Record(Ctx(), cur, diskPath, st);
      files := files + [r];
      if Large(r) {
        largeFiles := true;
      }
      return true;
    }

    /** The loop of processBinaryFile over the matches of a glob. */
    method AddMatches(matches: seq<string>) returns (ok: bool)
      requires ValidFs(fs) && forall p | p in matches :: NoNul(p)
      modifies this
      ensures def == old(def)
      ensures (Abs(), ok) == AddAll(old(Ctx()), old(Abs()), true, matches)
    {
      hide AddState, ValidFs, Record, Added, Chop, Large;
      ghost var c, s := Ctx(), Abs();
      ok := true;
      var i := 0;
      assert matches[0..] == matches;
      while i < |matches|
        invariant 0 <= i <= |matches| && Ctx() == c
        invariant forall p | p in matches[i..] :: NoNul(p)
        invariant AddAll(c, Abs(), ok, matches[i..]) == AddAll(c, s, true, matches)
      {
        assert matches[i] in matches && matches[i..][0] == matches[i] && matches[i..][1..] == matches[i + 1..];
        ok := AddFile(matches[i], None);
        i := i + 1;
      }
    }

    /**
     processBinaryFile: one name of a %files line. path is the name below the build root in canonical
     form, glob tells whether the name is a pattern and matches what the pattern matches on disk.
    */
    method ProcessBinaryFile(fileName: string, path: string, glob: bool, matches: seq<string>) returns (ok: bool)
      requires ValidFs(fs) && NoNul(path) && NoNul(path + "/") && forall p | p in matches :: NoNul(p)
      modifies this
      ensures def == old(def)
      ensures var (s, ok') := BinaryState(old(Ctx()), old(Abs()), fileName, path, glob, matches);
              ok == ok' && Abs() == s.(failed := s.failed || !ok)
    {
      hide AddState, AddAll, ValidFs, Record, Added, Chop, Large, NoNul;
      ok := true;
      if fileName != "" && fileName[|fileName| - 1] == '/' && cur.isDir == 0 {
        cur := cur.(isDir := -1);
      }
      var diskPath := path;
      if fileName == "" || fileName[0] != '/' {
        ok := false;
      } else {
        if cur.isDir != 0 {
          diskPath := diskPath + "/";
        }
        if glob {
          if cur.dev.Some? {
            ok := false;
          } else if |matches| >= 1 {
            ok := AddMatches(matches);
          } else {
            ok := AddFile(diskPath, None);
          }
        } else {
          ok := AddFile(diskPath, None);
        }
      }
      if !ok {
        processingFailed := true;
      }
    }

    /**
     recurseDir: adds a directory and everything in it, in the order of the walk, until a node cannot
     be added. left is what the walker leaves allocated. Fts_read and Fts_close accept the null stream of
     an Fts_open that failed.
    */
    method RecurseDir(diskPath: string) returns (ok: bool, ghost left: Memory)
      requires ValidFs(fs) && diskPath != "" && NoNul(diskPath)
      modifies this
      ensures def == old(def) && left == map[]
      ensures (Abs(), ok) == Recursed(old(Ctx()), old(Abs()), diskPath)
      decreases 1
    {
      hide Wf, Rep, BufOk, Run, Step, OpenWalker, WalkRoots, Future, ValidFs, Taken, Verdict, Record, StatOf, Chop,
           CStr, Reported, Settled, ActOn, Progress, Recursed, Left, Lookup;
      OpenableOpens(fs, diskPath);
      var sp;
      sp, left := Open(fs, RECURSE_OPTIONS, [diskPath]);
      NotOpened(Ctx(), Abs(), diskPath);
      if sp == null {
        return false, left;
      }
      var ftsp: Fts := sp;
      ghost var c, s0, skip := Ctx(), Abs(), NoSkip();
      OpenShape(fs, RECURSE_OPTIONS, [diskPath]);
      ReportedStart(fs, diskPath);
      ghost var vs: seq<Visit> := [];
      NothingTaken(c, s0);
      ok := false;
      var more := true;
      while more
        invariant ftsp.Valid() && ftsp.fs == fs && ftsp.o == RECURSE_OPTIONS && fresh(ftsp)
        invariant ftsp.path != null ==> fresh(ftsp.path)
        invariant Ctx() == c
        invariant more ==> ftsp.w.frames != [] && !ftsp.w.stopped && !ftsp.SkipSet()
        invariant more ==> Left(fs, RECURSE_OPTIONS, FirstWalker(fs, diskPath), vs, ftsp.w, skip)
        invariant more ==> Progress(c, s0, vs, Abs()) && (ok <==> vs != [])
        invariant !more ==> (Abs(), ok) == Recursed(c, s0, diskPath) && Settled(ftsp.w)
        decreases more, |Future(fs, RECURSE_OPTIONS, ftsp.w, |vs|, skip)|
      {
        ReadOne(fs, RECURSE_OPTIONS, FirstWalker(fs, diskPath), vs, ftsp.w, skip, false);
        var p := ftsp.Read();
        if p == NULL {
          more := false;
          AllDone(c, s0, diskPath, vs, Abs());
        } else {
          TopAccess(fs, ftsp.w, ftsp.mem, ftsp.refs);
          ghost var v, s := ftsp.View(), Abs();
          NodeStated(fs, diskPath, vs, v, ftsp.w);
          var info := ftsp.mem[p].info;
          if info in {D, F, SL, SLNONE, DEFAULT} {
            ok := AddFile(ftsp.AccessPath(p), Some(StatOf(fs, ftsp.mem[p].st.value)));
          } else {
            ok := info in {DOT, DP};
          }
          NodeDone(c, s0, diskPath, vs, v, ftsp.w, s, Abs(), ok);
          vs := vs + [v];
          more := ok;
        }
      }
      if ftsp.cur != NULL {
        LevelSet(fs, ftsp.w, ftsp.mem, ftsp.refs);
      }
      ftsp.Close();
      left := ftsp.mem;
    }
  }

  ghost function FirstWalker(fs: FileSys, path: string): Walker
    requires Openable(path)
  {
    OpenableOpens(fs, path);
    OpenWalker(fs, RECURSE_OPTIONS, [path]).value
  }

  lemma NotOpened(c: Context, s: State, path: string)
    requires ValidFs(c.fs) && NoNul(path)
    ensures !Openable(path) ==> Recursed(c, s, path) == (s, false)
  {
  }

  lemma ReportedStart(fs: FileSys, path: string)
    requires ValidFs(fs) && Openable(path)
    ensures OpenWalker(fs, RECURSE_OPTIONS, [path]).Some?
    ensures Left(fs, RECURSE_OPTIONS, FirstWalker(fs, path), [], FirstWalker(fs, path), NoSkip())
    ensures Reported(fs, path).0 != []
  {
    hide OpenWalker, Run, WalkRoots, ValidFs, Wf, Left;
    OpenableOpens(fs, path);
    OpenWf(fs, RECURSE_OPTIONS, [path]);
    LeftStart(fs, RECURSE_OPTIONS, FirstWalker(fs, path), NoSkip());
    ReportedSome(fs, path);
  }

  lemma ReportedRun(fs: FileSys, path: string)
    requires ValidFs(fs) && Openable(path)
    ensures Wf(fs, FirstWalker(fs, path))
    ensures Reported(fs, path).0 == Run(fs, RECURSE_OPTIONS, FirstWalker(fs, path), 0, NoSkip()).0
  {
    hide OpenWalker, Run, Wf;
    OpenableOpens(fs, path);
    OpenWf(fs, RECURSE_OPTIONS, [path]);
  }

  lemma ReportedSome(fs: FileSys, path: string)
    requires ValidFs(fs) && Openable(path)
    ensures Reported(fs, path).0 != []
  {
    OpenableOpens(fs, path);
    OpenWf(fs, RECURSE_OPTIONS, [path]);
  }

  /** s is what s0 has become by adding the visits vs. */
  ghost predicate Progress(c: Context, s0: State, vs: seq<Visit>, s: State) {
    && Verdict(c, s0.cur, vs) == Pass
    && s == s0.(files := s0.files + Taken(c, s0.cur, vs), large := s0.large || AnyLarge(Taken(c, s0.cur, vs)))
  }

  lemma NothingTaken(c: Context, s0: State)
    ensures Progress(c, s0, [], s0)
  {
    assert s0.files + [] == s0.files;
  }

  lemma AllDone(c: Context, s0: State, path: string, vs: seq<Visit>, s: State)
    requires ValidFs(c.fs) && Openable(path) && Progress(c, s0, vs, s) && Wf(c.fs, FirstWalker(c.fs, path))
    requires vs == Run(c.fs, RECURSE_OPTIONS, FirstWalker(c.fs, path), 0, NoSkip()).0
    ensures vs != [] && (s, true) == Recursed(c, s0, path)
  {
    hide OpenWalker, Run, Wf, ValidFs, Verdict, Taken;
    ReportedStart(c.fs, path);
  }

  /** What one iteration of recurseDir does to the state s. */
  ghost predicate NodeEffect(c: Context, cur: FileEntry, v: Visit, s: State, s': State, ok: bool) {
    if v.info in {D, F, SL, SLNONE, DEFAULT} then
      && v.st.Some? && v.st.value in c.fs.inodes
      && var p := Chop(v.path);
         if c.buildRoot <= p then ok && s' == Added(s, Record(c, cur, p, StatOf(c.fs, v.st.value)))
         else !ok && s' == s.(failed := true)
    else s' == s && (ok <==> v.info in {DOT, DP})
  }

  /** The next node is one of those of the walk. */
  lemma NodeStated(fs: FileSys, path: string, vs: seq<Visit>, v: Visit, w: Walker)
    requires ValidFs(fs) && Openable(path) && Left(fs, RECURSE_OPTIONS, FirstWalker(fs, path), vs + [v], w, NoSkip())
    ensures Stated(fs, RECURSE_OPTIONS, v) && Wf(fs, w)
    ensures Reported(fs, path).0 == vs + ([v] + Run(fs, RECURSE_OPTIONS, w, |vs| + 1, NoSkip()).0)
  {
    hide Run, Whole, Wf, ValidFs, Stated, Reported, FirstWalker;
    ReportedRun(fs, path);
    ReportedIsWhole(fs, path);
    InMiddle(Reported(fs, path).0, Whole(fs, path), vs, v, Run(fs, RECURSE_OPTIONS, w, |vs| + 1, NoSkip()).0);
    StatedWhole(fs, path, v);
  }

  lemma InMiddle<T>(part: seq<T>, all: seq<T>, a: seq<T>, x: T, b: seq<T>)
    requires part == (a + [x]) + b && part <= all
    ensures part == a + ([x] + b) && x in all
  {
    assert part[|a|] == x;
  }

  lemma NodeDone(c: Context, s0: State, path: string, vs: seq<Visit>, v: Visit, w: Walker, s: State, s': State,
                 ok: bool)
    requires ValidFs(c.fs) && Openable(path)
    requires Left(c.fs, RECURSE_OPTIONS, FirstWalker(c.fs, path), vs + [v], w, NoSkip())
    requires Progress(c, s0, vs, s) && NodeEffect(c, s.cur, v, s, s', ok)
    ensures ok ==> Progress(c, s0, vs + [v], s')
    ensures !ok ==> (s', ok) == Recursed(c, s0, path)
  {
    hide Record, StatOf, Chop, Reported, Large, Left, Run, FirstWalker;
    NodeStated(c.fs, path, vs, v, w);
    TakenNext(c, s0.cur, vs, v, Run(c.fs, RECURSE_OPTIONS, w, |vs| + 1, NoSkip()).0);
  }

  lemma TopAccess(fs: FileSys, w: Walker, mem: Memory, refs: seq<Ref>)
    requires Wf(fs, w) && Rep(mem, refs, w.frames) && w.frames != [] && Settled(w)
    ensures |refs| == |w.frames| && refs[|refs| - 1] in mem && mem[refs[|refs| - 1]].accpath == PathBuffer
    ensures NoNul(w.frames[|refs| - 1].item.path)
  {
    hide AncIds, Descendable;
    WfSize(fs, w);
    assert NodeOk(mem, refs, w.frames, |w.frames| - 1);
    assert FrameOk(fs, w, |w.frames| - 1);
  }
}
