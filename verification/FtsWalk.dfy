/** A whole walk by a client of the walker: open, read to NULL, close. */
module FtsWalk {
  import opened FileSystem
  import opened WalkSpec
  import opened WalkProofs
  import opened WalkTheorems
  import opened WalkRuns
  import opened FtsMemory
  import opened Fts

  /** The current node is not the dummy node of fts_open. */
  ghost predicate Settled(w: Walker) {
    w.frames != [] ==> w.frames[|w.frames| - 1].item.info != INIT
  }

  lemma StepSettles(fs: FileSys, o: Options, w: Walker, skip: bool)
    requires Wf(fs, w) && (w.stopped ==> Settled(w))
    ensures |w.frames| != 1 && Settled(Step(fs, o, w, skip).1)
  {
    hide Kid, AncIds, Chop, Listing, PathOk, Descendable;
    if w.frames != [] && !w.stopped {
      WfSize(fs, w);
      var t := |w.frames| - 1;
      if w.frames[t].item.info == D {
        DescendSettles(fs, o, w, skip);
      } else if t > 1 {
        assert FrameOk(fs, w, t - 1);
      }
    }
  }

  lemma DescendSettles(fs: FileSys, o: Options, w: Walker, skip: bool)
    requires w.frames != [] && w.cap < UINT16_MAX && w.frames[|w.frames| - 1].item.info == D
    ensures Settled(Descend(fs, o, w, skip).1)
  {
    hide Kid, AncIds, Chop, Listing, Stack, KidItems, GrowFor;
    var it := w.frames[|w.frames| - 1].item;
    var listing := Listing(fs, o, it.st);
    if !skip && listing.Some? && listing.value != [] {
      var cap := GrowFor(w.cap, |Chop(it.path)| + 1, listing.value);
      if cap.Some? {
        EnterGrows(fs, o, w, listing.value, cap.value);
      }
    }
  }

  /** Only the level of the dummy node is never set. */
  lemma LevelSet(fs: FileSys, w: Walker, mem: Memory, refs: seq<Ref>)
    requires Wf(fs, w) && Rep(mem, refs, w.frames) && w.frames != [] && Settled(w)
    ensures |refs| == |w.frames| && refs[|refs| - 1] in mem && mem[refs[|refs| - 1]].level >= ROOTLEVEL
  {
    hide AncIds, PathOk, Descendable;
    WfSize(fs, w);
    assert NodeOk(mem, refs, w.frames, |w.frames| - 1);
    LevelNonNegative(fs, w, |w.frames| - 1);
  }

  /** FTS_SKIP matters on a directory in pre-order only. */
  lemma SkipElsewhere(fs: FileSys, o: Options, w: Walker, a: bool, b: bool)
    requires |w.frames| != 1 && (w.frames != [] && w.frames[|w.frames| - 1].item.info == D ==> a == b)
    ensures Step(fs, o, w, a) == Step(fs, o, w, b)
  {
    hide Descend, Leave;
  }

  /** What the visit shows is the top frame. */
  lemma StepTop(fs: FileSys, o: Options, w: Walker, skip: bool)
    requires Wf(fs, w) && |w.frames| != 1 && Step(fs, o, w, skip).0.Some?
    ensures var (v, w') := Step(fs, o, w, skip);
            w'.frames != [] && w'.frames[|w'.frames| - 1].item.info == v.value.info
  {
    hide Wf, Kid, AncIds, Chop, Listing, KidItems, GrowFor;
    WfSize(fs, w);
    var it := w.frames[|w.frames| - 1].item;
    if it.info == D && !skip {
      var listing := Listing(fs, o, it.st);
      if listing.Some? && listing.value != [] {
        EnterTop(fs, o, w, listing.value);
      }
    }
  }

  lemma EnterTop(fs: FileSys, o: Options, w: Walker, names: seq<string>)
    requires Wf(fs, w) && w.frames != [] && names != [] && w.frames[|w.frames| - 1].item.info == D
    requires Enter(fs, o, w, names).0.Some?
    ensures var (v, w') := Enter(fs, o, w, names);
            w'.frames != [] && w'.frames[|w'.frames| - 1].item.info == v.value.info
  {
    hide Kid, AncIds, Chop, Listing, KidItems, GrowFor, Stack, FrameOk;
    var cap := GrowFor(w.cap, |Chop(w.frames[|w.frames| - 1].item.path)| + 1, names);
    EnterGrows(fs, o, w, names, cap.value);
  }

  /**
   Opens a walk of args, reads it to the end, setting FTS_SKIP on the directories that the plan names,
   and closes it. left is what remains allocated.
  */
  method WalkAll(fs: FileSys, o: Options, args: seq<string>, skip: SkipPlan)
    returns (ok: bool, vs: seq<Visit>, ghost end: Walker, ghost left: Memory)
    requires ValidFs(fs) && ValidArgs(args)
    ensures ok <==> OpenWalker(fs, o, args).Some?
    ensures left == map[]
    ensures ok ==>
              && Wf(fs, OpenWalker(fs, o, args).value)
              && (vs, end) == Run(fs, o, OpenWalker(fs, o, args).value, 0, skip)
              && vs <= WalkRoots(fs, o, args, 0, skip)
              && (end.stopped <==> vs != WalkRoots(fs, o, args, 0, skip))
  {
    hide Wf, Rep, BufOk, Run, Step, OpenWalker, WalkRoots, Future, Left, Settled;
    vs := [];
    var sp;
    sp, left := Open(fs, o, args);
    end := Walker([], 0, false);
    if sp == null {
      return false, [], end, left;
    }
    ok := true;
    ghost var w0 := sp.w;
    WalkIsRecursive(fs, o, args, skip);
    OpenShape(fs, o, args);
    LeftStart(fs, o, w0, skip);
    var more := true;
    while more
      invariant sp.Valid() && sp.fs == fs && sp.o == o && fresh(sp) && (sp.path != null ==> fresh(sp.path))
      invariant more ==> Left(fs, o, w0, vs, sp.w, skip) && sp.w.frames != [] && !sp.w.stopped
      invariant more && sp.w.frames[|sp.w.frames| - 1].item.info == D ==> sp.SkipSet() == skip(|vs| - 1)
      invariant !more ==> (vs, sp.w) == Run(fs, o, w0, 0, skip) && Settled(sp.w)
      decreases more, |Future(fs, o, sp.w, |vs|, skip)|
    {
      ReadOne(fs, o, w0, vs, sp.w, skip, sp.SkipSet());
      var p := sp.Read();
      if p == NULL {
        more := false;
      } else {
        vs := vs + [sp.View()];
        if sp.View().info == D && skip(|vs| - 1) {
          sp.SetSkip();
        }
      }
    }
    end := sp.w;
    if sp.cur != NULL {
      LevelSet(fs, sp.w, sp.mem, sp.refs);
    }
    sp.Close();
    left := sp.mem;
  }

  /** vs has been read on the way from w0 to w. */
  ghost predicate Left(fs: FileSys, o: Options, w0: Walker, vs: seq<Visit>, w: Walker, skip: SkipPlan) {
    && ValidFs(fs) && Wf(fs, w0) && Wf(fs, w)
    && Run(fs, o, w0, 0, skip).0 == vs + Run(fs, o, w, |vs|, skip).0
    && Run(fs, o, w0, 0, skip).1 == Run(fs, o, w, |vs|, skip).1
  }

  lemma LeftStart(fs: FileSys, o: Options, w0: Walker, skip: SkipPlan)
    requires ValidFs(fs) && Wf(fs, w0)
    ensures Left(fs, o, w0, [], w0, skip)
  {
    hide ValidFs, Wf, Run;
    assert [] + Run(fs, o, w0, 0, skip).0 == Run(fs, o, w0, 0, skip).0;
  }

  /** One more call of fts_read; set says that FTS_SKIP is set on the current node. */
  lemma ReadOne(fs: FileSys, o: Options, w0: Walker, vs: seq<Visit>, w: Walker, skip: SkipPlan, set_: bool)
    requires Left(fs, o, w0, vs, w, skip) && w.frames != [] && !w.stopped
    requires w.frames[|w.frames| - 1].item.info == D ==> set_ == skip(|vs| - 1)
    ensures |w.frames| >= 2 && Wf(fs, w0)
    ensures var (v, w') := Step(fs, o, w, set_);
            && Settled(w')
            && match v
               case None => (vs, w') == Run(fs, o, w0, 0, skip)
               case Some(x) =>
                 && Left(fs, o, w0, vs + [x], w', skip) && w'.frames != [] && !w'.stopped
                 && w'.frames[|w'.frames| - 1].item.info == x.info
                 && |Future(fs, o, w', |vs + [x]|, skip)| < |Future(fs, o, w, |vs|, skip)|
  {
    hide ValidFs, Wf, Run, Step, Future, Settled;
    var n := |vs|;
    WfSize(fs, w);
    SkipElsewhere(fs, o, w, set_, skip(n - 1));
    StepFuture(fs, o, w, n, skip);
    StepSettles(fs, o, w, skip(n - 1));
    RunStep(fs, o, w, n, skip);
    var (v, w') := Step(fs, o, w, set_);
    if v.Some? {
      StepTop(fs, o, w, skip(n - 1));
      StepLive(fs, o, w, skip(n - 1));
      var rest := Run(fs, o, w', n + 1, skip).0;
      assert vs + ([v.value] + rest) == (vs + [v.value]) + rest;
    } else {
      assert vs + [] == vs;
    }
  }

  lemma RunStep(fs: FileSys, o: Options, w: Walker, n: int, skip: SkipPlan)
    requires ValidFs(fs) && Wf(fs, w) && !w.stopped && w.frames != [] && |w.frames| != 1
    ensures var (v, w') := Step(fs, o, w, skip(n - 1));
            && Wf(fs, w')
            && (v.None? ==> Run(fs, o, w, n, skip) == ([], w') && (w'.stopped || w'.frames == []))
            && (v.Some? ==>
                  var (vs, end) := Run(fs, o, w', n + 1, skip);
                  Run(fs, o, w, n, skip) == ([v.value] + vs, end))
  {
    hide Wf, Step, Future;
    StepFuture(fs, o, w, n, skip);
  }
}
