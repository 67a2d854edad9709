/** Whole runs of the walker, from fts_open to the NULL of the last fts_read. */
module WalkRuns {
  import opened CStrings
  import opened FileSystem
  import opened WalkSpec
  import opened WalkProofs
  import opened WalkTheorems

  ghost predicate ValidArgs(args: seq<string>) {
    args != [] && forall a | a in args :: NoNul(a)
  }

  // ----- fts_open

  lemma RootIsGood(fs: FileSys, o: Options, arg: string)
    requires arg != ""
    ensures var it := RootItem(fs, o, arg);
            && it.info != INIT && it.path == it.name == arg && it.level == ROOTLEVEL
            && (it.info == D ==> Stat(fs, it.path) == it.st)
  {
    hide Lookup;
  }

  lemma RootFrameOk(fs: FileSys, o: Options, w: Walker, i: nat, arg: string)
    requires 1 <= i < |w.frames| && w.frames[0] == ROOT_PARENT
    requires w.frames[i] == Frame(RootItem(fs, o, arg), false, 0)
    requires i == 1 || (!w.frames[i - 1].open && w.frames[i - 1].up == 0)
    requires arg != "" && NoNul(arg) && |arg| < w.cap < UINT16_MAX
    ensures FrameOk(fs, w, i)
  {
    hide RootItem, Stat;
    RootIsGood(fs, o, arg);
  }

  lemma OpenShape(fs: FileSys, o: Options, args: seq<string>)
    requires OpenWalker(fs, o, args).Some? && args != []
    ensures var w := OpenWalker(fs, o, args).value;
            && |w.frames| == |args| + 2 && w.frames[0] == ROOT_PARENT && w.frames[|args| + 1] == DUMMY && !w.stopped
            && w.cap < UINT16_MAX && "" !in args
            && forall i | 1 <= i <= |args| ::
                 w.frames[i] == Frame(RootItem(fs, o, args[|args| - i]), false, 0) && |args[|args| - i]| < w.cap
  {
    var w := OpenWalker(fs, o, args).value;
    var s := Stack(RootItems(fs, o, args), 0);
    forall i | 1 <= i <= |args|
      ensures w.frames[i] == Frame(RootItem(fs, o, args[|args| - i]), false, 0) && |args[|args| - i]| < w.cap
    {
      assert w.frames[i] == s[i - 1] == s[|args| - 1 - (|args| - i)];
    }
  }

  lemma DummyOk(fs: FileSys, w: Walker)
    requires |w.frames| >= 3 && w.frames[0] == ROOT_PARENT && w.frames[|w.frames| - 1] == DUMMY
    requires w.frames[|w.frames| - 2].up == 0 && !w.frames[|w.frames| - 2].open
    ensures FrameOk(fs, w, |w.frames| - 1)
  {
  }

  lemma OpenWf(fs: FileSys, o: Options, args: seq<string>)
    requires ValidArgs(args) && OpenWalker(fs, o, args).Some?
    ensures Wf(fs, OpenWalker(fs, o, args).value)
  {
    hide OpenWalker, RootItem, FrameOk;
    var w := OpenWalker(fs, o, args).value;
    OpenShape(fs, o, args);
    assert FrameOk(fs, w, |args| + 1) by {
      DummyOk(fs, w);
    }
    forall i | 1 <= i < |w.frames| ensures FrameOk(fs, w, i) {
      assert i > 1 ==> !w.frames[i - 1].open && w.frames[i - 1].up == 0;
      if i <= |args| {
        assert args[|args| - i] in args;
        RootFrameOk(fs, o, w, i, args[|args| - i]);
      }
    }
  }

  lemma {:induction false} RootVisits(fs: FileSys, o: Options, g: seq<Frame>, args: seq<string>, m: nat, k: int,
                                      skip: SkipPlan)
    requires m <= |args| && m + 1 <= |g|
    requires forall i | 1 <= i <= m :: g[i] == Frame(RootItem(fs, o, args[|args| - i]), false, 0)
    ensures RestOf(fs, o, g, m + 1, k, skip) == WalkRoots(fs, o, args[|args| - m..], k, skip)
  {
    hide VisitTree, RootItem, RestOf, WalkRoots;
    var now := args[|args| - m..];
    if m == 0 {
      assert now == [];
      RestNone(fs, o, g, k, skip);
      WalkNone(fs, o, k, skip);
    } else {
      assert now[0] == args[|args| - m] && now[1..] == args[|args| - (m - 1)..];
      var v := VisitTree(fs, o, RootItem(fs, o, now[0]), {}, k, skip);
      assert AncIds(g, 0) == {};
      RestFirst(fs, o, g, m + 1, k, skip);
      WalkFirst(fs, o, now, k, skip);
      RootVisits(fs, o, g, args, m - 1, k + |v|, skip);
    }
  }

  lemma WalkNone(fs: FileSys, o: Options, k: int, skip: SkipPlan)
    ensures WalkRoots(fs, o, [], k, skip) == []
  {
  }

  lemma WalkFirst(fs: FileSys, o: Options, args: seq<string>, k: int, skip: SkipPlan)
    requires args != []
    ensures var v := VisitTree(fs, o, RootItem(fs, o, args[0]), {}, k, skip);
            Splits(WalkRoots(fs, o, args, k, skip), v, WalkRoots(fs, o, args[1..], k + |v|, skip))
  {
    hide VisitTree, RootItem;
  }

  /** fts_open prepares exactly the walk of all the roots. */
  lemma OpenFuture(fs: FileSys, o: Options, args: seq<string>, skip: SkipPlan)
    requires ValidArgs(args) && OpenWalker(fs, o, args).Some?
    ensures Future(fs, o, OpenWalker(fs, o, args).value, 0, skip) == WalkRoots(fs, o, args, 0, skip)
  {
    hide OpenWalker, VisitTree, RestOf, RootItem, WalkRoots;
    var w := OpenWalker(fs, o, args).value;
    OpenShape(fs, o, args);
    assert args[|args| - |args|..] == args;
    RootVisits(fs, o, w.frames, args, |args|, 0, skip);
  }

  // ----- reading to the end

  /**
   All visits from w on, with the walker after the call that returned NULL. It is defined: every
   call uses up one visit of the walk that remains, cycles in the graph or not.
  */
  ghost function Run(fs: FileSys, o: Options, w: Walker, n: int, skip: SkipPlan): (seq<Visit>, Walker)
    requires ValidFs(fs) && Wf(fs, w)
    decreases |Future(fs, o, w, n, skip)|
  {
    if w.stopped || w.frames == [] then ([], w)
    else
      StepFuture(fs, o, w, n, skip);
      var (v, w') := Step(fs, o, w, skip(n - 1));
      if v.None? then ([], w')
      else
        var (vs, end) := Run(fs, o, w', n + 1, skip);
        ([v.value] + vs, end)
  }

  /** A run gives exactly the walk that was to come, or a proper prefix of it when FTS_STOP cut it short. */
  lemma {:induction false} RunIsWalk(fs: FileSys, o: Options, w: Walker, n: int, skip: SkipPlan)
    requires ValidFs(fs) && Wf(fs, w) && !w.stopped && w.frames != []
    ensures var (vs, end) := Run(fs, o, w, n, skip);
            && vs <= Future(fs, o, w, n, skip)
            && (end.stopped <==> vs != Future(fs, o, w, n, skip))
            && (!end.stopped ==> end.frames == [])
    decreases |Future(fs, o, w, n, skip)|
  {
    hide Future, Wf, Step;
    WfSize(fs, w);
    StepFuture(fs, o, w, n, skip);
    var (v, w') := Step(fs, o, w, skip(n - 1));
    if v.Some? {
      StepLive(fs, o, w, skip(n - 1));
      RunIsWalk(fs, o, w', n + 1, skip);
    }
  }

  /** A call that returns a node leaves a current node. */
  lemma StepLive(fs: FileSys, o: Options, w: Walker, skip: bool)
    requires |w.frames| != 1 && Step(fs, o, w, skip).0.Some?
    ensures Step(fs, o, w, skip).1.frames != [] && !Step(fs, o, w, skip).1.stopped
  {
  }

  /** Fts_open and Fts_read to the end report the recursive walk of the roots, cut short only by FTS_STOP. */
  lemma WalkIsRecursive(fs: FileSys, o: Options, args: seq<string>, skip: SkipPlan)
    requires ValidFs(fs) && ValidArgs(args) && OpenWalker(fs, o, args).Some?
    ensures var w := OpenWalker(fs, o, args).value;
            && Wf(fs, w)
            && var (vs, end) := Run(fs, o, w, 0, skip);
               && vs <= WalkRoots(fs, o, args, 0, skip)
               && (end.stopped <==> vs != WalkRoots(fs, o, args, 0, skip))
               && (!end.stopped ==> end.frames == [])
  {
    OpenWf(fs, o, args);
    OpenFuture(fs, o, args, skip);
    RunIsWalk(fs, o, OpenWalker(fs, o, args).value, 0, skip);
  }

  // ----- bounds on every reachable state

  /** The directories on the way to a frame are pairwise distinct: there are as many ids as levels. */
  lemma {:induction false} AncestorsDistinct(fs: FileSys, w: Walker, a: nat)
    requires Wf(fs, w) && a < |w.frames| && w.frames[a].open
    ensures |AncIds(w.frames, a)| == w.frames[a].item.level + 1
    ensures AncIds(w.frames, a) <= Dirs(fs)
    decreases a
  {
    hide PathOk, FrameOk;
    if a > 0 {
      OpenFrame(fs, w, a);
      AncestorsDistinct(fs, w, w.frames[a].up);
    }
  }

  lemma OpenFrame(fs: FileSys, w: Walker, a: nat)
    requires Wf(fs, w) && 1 <= a < |w.frames| && w.frames[a].open
    ensures w.frames[a].up < a && w.frames[w.frames[a].up].open
    ensures w.frames[a].item.level == w.frames[w.frames[a].up].item.level + 1
    ensures w.frames[a].item.st.Some? && IsDir(fs, w.frames[a].item.st.value)
    ensures w.frames[a].item.st.value !in AncIds(w.frames, w.frames[a].up)
  {
    hide PathOk, AncIds;
    assert FrameOk(fs, w, a);
  }

  lemma SubsetSize<T>(a: set<T>, b: set<T>)
    requires a <= b
    ensures |a| <= |b|
  {
    assert b == a + (b - a);
  }

  /** However cyclic the graph, no node lies deeper than there are directories. */
  lemma DepthBound(fs: FileSys, w: Walker, i: nat)
    requires Wf(fs, w) && 1 <= i < |w.frames|
    ensures w.frames[i].item.level <= |Dirs(fs)|
  {
    assert FrameOk(fs, w, i);
    AncestorsDistinct(fs, w, w.frames[i].up);
    SubsetSize(AncIds(w.frames, w.frames[i].up), Dirs(fs));
  }

  /** fts_level fits a short and fts_pathlen a uint16_t, whatever the tree. */
  lemma FieldsFit(fs: FileSys, w: Walker, i: nat)
    requires Wf(fs, w) && 1 <= i < |w.frames|
    ensures 0 <= w.frames[i].item.level <= 32767
    ensures |w.frames[i].item.path| < UINT16_MAX
  {
    assert FrameOk(fs, w, i);
    LevelNonNegative(fs, w, i);
  }

  lemma {:induction false} LevelNonNegative(fs: FileSys, w: Walker, i: nat)
    requires Wf(fs, w) && 1 <= i < |w.frames|
    ensures w.frames[i].item.level >= 0
  {
    assert FrameOk(fs, w, i);
    if w.frames[i].up > 0 {
      LevelNonNegative(fs, w, w.frames[i].up);
    }
  }
}
