/** The shape of the recursive walk, and when it is reported in full. */
module WalkShape {
  import opened FileSystem
  import opened WalkSpec
  import opened WalkProofs
  import opened WalkTheorems
  import opened WalkRuns

  // ----- pre-order and post-order visits are brackets

  /**
   Reads a sequence of visits as brackets: FTS_D opens a directory, FTS_DP or FTS_DNR closes the
   last one opened, which must be the same inode, and every level is the number of open directories.
  */
  ghost function Brackets(vs: seq<Visit>, open: seq<Option<Id>>): Option<seq<Option<Id>>> {
    if vs == [] then Some(open)
    else
      var v := vs[0];
      var n := |open|;
      if v.info == D then
        if v.level == n then Brackets(vs[1..], open + [v.st]) else None
      else if v.info in {DP, DNR} then
        if n > 0 && v.level == n - 1 && v.st == open[n - 1] then Brackets(vs[1..], open[..n - 1]) else None
      else if v.level == n then Brackets(vs[1..], open) else None
  }

  lemma {:induction false} BracketsCat(a: seq<Visit>, b: seq<Visit>, open: seq<Option<Id>>)
    ensures Brackets(a + b, open) ==
            match Brackets(a, open) case None => None case Some(open') => Brackets(b, open')
  {
    if a == [] {
      assert a + b == b;
    } else {
      var v := a[0];
      var n := |open|;
      assert (a + b)[0] == v && (a + b)[1..] == a[1..] + b;
      if v.info == D {
        BracketsCat(a[1..], b, open + [v.st]);
      } else if v.info in {DP, DNR} {
        if n > 0 {
          BracketsCat(a[1..], b, open[..n - 1]);
        }
      } else {
        BracketsCat(a[1..], b, open);
      }
    }
  }

  ghost predicate Fresh(it: Item, ancs: set<Id>, fs: FileSys) {
    it.info !in {DP, DNR} && Descendable(fs, it, ancs)
  }

  lemma BracketsTree(fs: FileSys, o: Options, it: Item, ancs: set<Id>, k: int, skip: SkipPlan, open: seq<Option<Id>>)
    requires Fresh(it, ancs, fs) && it.level == |open|
    ensures Brackets(VisitTree(fs, o, it, ancs, k, skip), open) == Some(open)
    decreases Dirs(fs) - ancs, 1, 0
  {
    hide Inside, Descendable, Listing;
    var v := Pre(it);
    var inner := Inside(fs, o, it, ancs, k, skip);
    assert ([v] + inner)[1..] == inner;
    if it.info == D {
      BracketsInside(fs, o, it, ancs, k, skip, open);
    } else {
      InsideOther(fs, o, it, ancs, k, skip);
    }
  }

  lemma InsideOther(fs: FileSys, o: Options, it: Item, ancs: set<Id>, k: int, skip: SkipPlan)
    requires it.info != D
    ensures Inside(fs, o, it, ancs, k, skip) == []
  {
  }

  lemma BracketsInside(fs: FileSys, o: Options, it: Item, ancs: set<Id>, k: int, skip: SkipPlan, open: seq<Option<Id>>)
    requires it.info == D && Descendable(fs, it, ancs) && it.level == |open|
    ensures Brackets(Inside(fs, o, it, ancs, k, skip), open + [it.st]) == Some(open)
    decreases Dirs(fs) - ancs, 0, 0
  {
    hide VisitAll, Listing, Chop;
    var inner := open + [it.st];
    assert inner[..|open|] == open;
    var listing := Listing(fs, o, it.st);
    Closes(it, open, it.path);
    if !skip(k) && listing.Some? && listing.value != [] {
      var all := VisitAll(fs, o, it, {it.st.value} + ancs, listing.value, k + 1, skip);
      BracketsAll(fs, o, it, {it.st.value} + ancs, listing.value, k + 1, skip, inner);
      BracketsCat(all, [Post(it)], inner);
    } else if !skip(k) && listing.Some? {
      Closes(it, open, Chop(it.path));
    }
  }

  /** Either closing visit of a directory closes it. */
  lemma Closes(it: Item, open: seq<Option<Id>>, path: string)
    requires it.level == |open|
    ensures Brackets([Visit(DP, path, it.st, it.level)], open + [it.st]) == Some(open)
    ensures Brackets([Visit(DNR, path, it.st, it.level)], open + [it.st]) == Some(open)
  {
    assert (open + [it.st])[..|open|] == open;
  }

  lemma BracketsAll(fs: FileSys, o: Options, h: Item, ancs: set<Id>, names: seq<string>, k: int, skip: SkipPlan,
                    open: seq<Option<Id>>)
    requires h.level + 1 == |open|
    ensures Brackets(VisitAll(fs, o, h, ancs, names, k, skip), open) == Some(open)
    decreases Dirs(fs) - ancs, 2, |names|
  {
    hide VisitTree, Classify, Join, Find;
    if names != [] {
      var kid := Kid(fs, o, h, ancs, names[0]);
      var v := VisitTree(fs, o, kid, ancs, k, skip);
      var rest := VisitAll(fs, o, h, ancs, names[1..], k + |v|, skip);
      BracketsTree(fs, o, kid, ancs, k, skip, open);
      BracketsAll(fs, o, h, ancs, names[1..], k + |v|, skip, open);
      BracketsCat(v, rest, open);
    }
  }

  /**
   In the whole walk, pruned or not, every directory that is entered, skipped or found unreadable
   gets exactly one closing visit, after all visits inside it.
  */
  lemma {:induction false} BracketsWalk(fs: FileSys, o: Options, args: seq<string>, k: int, skip: SkipPlan)
    ensures Brackets(WalkRoots(fs, o, args, k, skip), []) == Some([])
  {
    hide VisitTree, Classify, Lookup;
    if args != [] {
      var it := RootItem(fs, o, args[0]);
      var v := VisitTree(fs, o, it, {}, k, skip);
      BracketsTree(fs, o, it, {}, k, skip, []);
      BracketsWalk(fs, o, args[1..], k + |v|, skip);
      BracketsCat(v, WalkRoots(fs, o, args[1..], k + |v|, skip), []);
    }
  }

  // ----- when nothing is cut off

  /** Paths up to this length never exhaust the path buffer, however it has grown before. */
  const SAFE_LENGTH := 32638
  const SAFE_CAP := 65533

  ghost predicate Short(vs: seq<Visit>) {
    forall v | v in vs :: |v.path| <= SAFE_LENGTH
  }

  lemma ShortParts(x: seq<Visit>, a: seq<Visit>, y: seq<Visit>)
    requires Short(x) && x == a + y
    ensures Short(a) && Short(y)
  {
    forall v | v in a ensures v in x {}
    forall v | v in y ensures v in x {}
  }

  lemma {:induction false} GrowForShort(cap: nat, len: nat, names: seq<string>)
    requires cap <= SAFE_CAP && forall n | n in names :: len + |n| <= SAFE_LENGTH
    ensures GrowFor(cap, len, names).Some? && GrowFor(cap, len, names).value <= SAFE_CAP
    decreases |names|
  {
    if names != [] {
      var n := |names[0]|;
      var c := if n >= cap - len then Grow(cap, n + len + 1) else Some(cap);
      assert names[0] in names && forall x | x in names[1..] :: x in names;
      GrowForShort(c.value, len, names[1..]);
    }
  }

  /** Every entry of a directory is visited. */
  lemma {:induction false} EntryVisited(fs: FileSys, o: Options, h: Item, ancs: set<Id>, names: seq<string>, k: int,
                                        skip: SkipPlan, j: nat)
    requires j < |names|
    ensures Pre(Kid(fs, o, h, ancs, names[j])) in VisitAll(fs, o, h, ancs, names, k, skip)
    decreases |names|
  {
    hide Inside, Kid;
    var v := VisitTree(fs, o, Kid(fs, o, h, ancs, names[0]), ancs, k, skip);
    if j == 0 {
      assert v[0] in v;
    } else {
      EntryVisited(fs, o, h, ancs, names[1..], k + |v|, skip, j - 1);
    }
  }

  lemma EnterShort(fs: FileSys, o: Options, w: Walker, names: seq<string>, n: int, skip: SkipPlan)
    requires w.frames != [] && names != [] && !w.stopped && w.cap <= SAFE_CAP
    requires var t := |w.frames| - 1;
             Short(VisitAll(fs, o, w.frames[t].item, AncIds(w.frames, t), names, n, skip))
    ensures !Enter(fs, o, w, names).1.stopped && Enter(fs, o, w, names).1.cap <= SAFE_CAP
  {
    hide VisitAll, Chop, AncIds, Classify, GrowFor;
    var t := |w.frames| - 1;
    var h := w.frames[t].item;
    forall x | x in names ensures |Chop(h.path)| + 1 + |x| <= SAFE_LENGTH {
      var j :| 0 <= j < |names| && names[j] == x;
      EntryVisited(fs, o, h, AncIds(w.frames, t), names, n, skip, j);
      assert |Pre(Kid(fs, o, h, AncIds(w.frames, t), x)).path| <= SAFE_LENGTH;
    }
    GrowForShort(w.cap, |Chop(h.path)| + 1, names);
  }

  lemma StepShort(fs: FileSys, o: Options, w: Walker, n: int, skip: SkipPlan)
    requires ValidFs(fs) && Wf(fs, w) && !w.stopped && w.frames != [] && w.cap <= SAFE_CAP
    requires Short(Future(fs, o, w, n, skip))
    ensures var w' := Step(fs, o, w, skip(n - 1)).1; !w'.stopped && w'.cap <= SAFE_CAP
  {
    hide Future, VisitAll, RestOf, AncIds, Enter, Listing, Chop, Wf;
    WfSize(fs, w);
    var t := |w.frames| - 1;
    var it := w.frames[t].item;
    if it.info == D {
      FutureOfDir(fs, o, w, n, skip);
      var listing := Listing(fs, o, it.st);
      if !skip(n - 1) && listing.Some? && listing.value != [] {
        var all := VisitAll(fs, o, it, AncIds(w.frames, t), listing.value, n, skip);
        var rest := RestOf(fs, o, w.frames, t, n + |all| + 1, skip);
        ShortParts(all + [Post(it)] + rest, all + [Post(it)], rest);
        ShortParts(all + [Post(it)], all, [Post(it)]);
        EnterShort(fs, o, w, listing.value, n, skip);
      }
    }
  }

  lemma {:induction false} RunShort(fs: FileSys, o: Options, w: Walker, n: int, skip: SkipPlan)
    requires ValidFs(fs) && Wf(fs, w) && !w.stopped && w.frames != [] && w.cap <= SAFE_CAP
    requires Short(Future(fs, o, w, n, skip))
    ensures !Run(fs, o, w, n, skip).1.stopped
    decreases |Future(fs, o, w, n, skip)|
  {
    hide Future, Wf, Step;
    WfSize(fs, w);
    StepFuture(fs, o, w, n, skip);
    StepShort(fs, o, w, n, skip);
    var (v, w') := Step(fs, o, w, skip(n - 1));
    if v.Some? {
      StepLive(fs, o, w, skip(n - 1));
      ShortParts(Future(fs, o, w, n, skip), [v.value], Future(fs, o, w', n + 1, skip));
      RunShort(fs, o, w', n + 1, skip);
    }
  }

  lemma {:induction false} MaxArgShort(args: seq<string>)
    requires forall a | a in args :: |a| <= SAFE_LENGTH
    ensures MaxArgLen(args) <= SAFE_LENGTH + 1
  {
    if args != [] {
      assert args[0] in args && forall x | x in args[1..] :: x in args;
      MaxArgShort(args[1..]);
    }
  }

  /** With no path in the walk longer than SAFE_LENGTH, the whole walk is reported and all is released. */
  lemma WalkIsWhole(fs: FileSys, o: Options, args: seq<string>, skip: SkipPlan)
    requires ValidFs(fs) && ValidArgs(args) && "" !in args && (forall a | a in args :: |a| <= SAFE_LENGTH)
    requires Short(WalkRoots(fs, o, args, 0, skip))
    ensures OpenWalker(fs, o, args).Some? && Wf(fs, OpenWalker(fs, o, args).value)
    ensures var (vs, end) := Run(fs, o, OpenWalker(fs, o, args).value, 0, skip);
            vs == WalkRoots(fs, o, args, 0, skip) && end.frames == [] && !end.stopped
  {
    hide Run, WalkRoots, Future, Wf, Short;
    MaxArgShort(args);
    var w := OpenWalker(fs, o, args).value;
    OpenWf(fs, o, args);
    OpenFuture(fs, o, args, skip);
    RunShort(fs, o, w, 0, skip);
    RunIsWalk(fs, o, w, 0, skip);
  }

  /** FTS_STOP cuts the walk in front of an opening visit: the first entry of the directory on top. */
  lemma CutAt(fs: FileSys, o: Options, w: Walker, n: int, skip: SkipPlan)
    requires ValidFs(fs) && Wf(fs, w) && !w.stopped && w.frames != [] && Step(fs, o, w, skip(n - 1)).1.stopped
    ensures Future(fs, o, w, n, skip) != [] && Future(fs, o, w, n, skip)[0].info !in {DP, DNR}
  {
    hide Future, RestOf, AncIds, Listing, Chop, Wf, VisitTree, Kid;
    WfSize(fs, w);
    var t := |w.frames| - 1;
    var it := w.frames[t].item;
    if it.info == D {
      FutureOfDir(fs, o, w, n, skip);
      var listing := Listing(fs, o, it.st);
      if !skip(n - 1) && listing.Some? && listing.value != [] {
        FirstEntry(fs, o, it, AncIds(w.frames, t), listing.value, n, skip);
      }
    }
  }

  lemma FirstEntry(fs: FileSys, o: Options, h: Item, ancs: set<Id>, names: seq<string>, k: int, skip: SkipPlan)
    requires names != []
    ensures VisitAll(fs, o, h, ancs, names, k, skip) != []
    ensures VisitAll(fs, o, h, ancs, names, k, skip)[0].info !in {DP, DNR}
  {
    hide Inside, Classify;
  }

  lemma {:induction false} RunCut(fs: FileSys, o: Options, w: Walker, n: int, skip: SkipPlan)
    requires ValidFs(fs) && Wf(fs, w) && !w.stopped && w.frames != [] && Run(fs, o, w, n, skip).1.stopped
    ensures var vs := Run(fs, o, w, n, skip).0;
            |vs| < |Future(fs, o, w, n, skip)| && Future(fs, o, w, n, skip)[|vs|].info !in {DP, DNR}
    decreases |Future(fs, o, w, n, skip)|
  {
    hide Future, Wf, Step;
    WfSize(fs, w);
    StepFuture(fs, o, w, n, skip);
    var (v, w') := Step(fs, o, w, skip(n - 1));
    if v.Some? {
      StepLive(fs, o, w, skip(n - 1));
      RunCut(fs, o, w', n + 1, skip);
    } else {
      CutAt(fs, o, w, n, skip);
    }
  }
}
