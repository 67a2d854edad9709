/**
 The size of the path buffer over a whole walk, computed from the recursive walk alone: it tells beforehand
 whether the walker will stop.
*/
module WalkBuffer {
  import opened FileSystem
  import opened WalkSpec
  import opened WalkProofs
  import opened WalkTheorems
  import opened WalkRuns

  /** The size after a visit: entering a directory stores the names of its entries behind its path. */
  function CapAfter(fs: FileSys, o: Options, v: Visit, skipped: bool, cap: nat): Option<nat> {
    if v.info != D || skipped then Some(cap)
    else match Listing(fs, o, v.st)
      case None => Some(cap)
      case Some(names) => GrowFor(cap, |Chop(v.path)| + 1, names)
  }

  /** The size after the visits vs, the first one being number k; None when it reaches the 16-bit limit. */
  function CapOver(fs: FileSys, o: Options, vs: seq<Visit>, k: int, skip: SkipPlan, cap: nat): Option<nat>
    decreases |vs|
  {
    if vs == [] then Some(cap)
    else match CapAfter(fs, o, vs[0], skip(k), cap)
      case None => None
      case Some(c) => CapOver(fs, o, vs[1..], k + 1, skip, c)
  }

  /** The size of the buffer in Fts_open. */
  function StartCap(args: seq<string>): nat {
    Max(MaxArgLen(args), MAXPATHLEN) + 256
  }

  /**
   The size for one more name behind a path of len characters: unchanged if the name and a NUL fit, else larger
   by their length and 256 more; there is none from 65535 on.
  */
  lemma RoomFor(cap: nat, len: nat, name: string, rest: seq<string>)
    ensures GrowFor(cap, len, []) == Some(cap)
    ensures var end := len + |name|;
            GrowFor(cap, len, [name] + rest) ==
            if end >= 65535 || (end >= cap && cap + end + 257 >= 65535) then None
            else GrowFor(if end >= cap then cap + end + 257 else cap, len, rest)
  {
    assert ([name] + rest)[1..] == rest;
  }

  /**
   Fts_open succeeds if and only if no argument is empty or too long; the buffer then has 1280 bytes, or 257
   more than the longest argument needs.
  */
  lemma OpenIff(fs: FileSys, o: Options, args: seq<string>)
    ensures OpenWalker(fs, o, args).Some? <==> forall a | a in args :: a != "" && |a| + 257 < 65535
    ensures OpenWalker(fs, o, args).Some? ==>
              var cap := OpenWalker(fs, o, args).value.cap;
              && cap >= 1280 && (forall a | a in args :: |a| + 257 <= cap)
              && (cap == 1280 || exists a :: a in args && cap == |a| + 257)
  {
    hide RootItem, RootItems, Stack;
    LongestArg(args);
  }

  lemma {:induction false} LongestArg(args: seq<string>)
    ensures forall a | a in args :: |a| < MaxArgLen(args)
    ensures MaxArgLen(args) == 1 || exists a :: a in args && MaxArgLen(args) == |a| + 1
  {
    if args != [] {
      LongestArg(args[1..]);
      assert args[0] in args && forall a | a in args[1..] :: a in args;
    }
  }

  /** What the size depends on: two visits of directories lead to the same size. */
  ghost predicate SameDir(v: Visit, it: Item) {
    v.info == it.info && (v.info == D ==> v.path == it.path && v.st == it.st)
  }

  lemma SameCap(fs: FileSys, o: Options, v: Visit, it: Item, skipped: bool, cap: nat)
    requires SameDir(v, it)
    ensures CapAfter(fs, o, v, skipped, cap) == CapAfter(fs, o, Pre(it), skipped, cap)
  {
    hide Listing, GrowFor, Chop;
  }

  /** One step: the size changes as the current visit says, and the walker stops when there is none. */
  lemma StepCap(fs: FileSys, o: Options, w: Walker, skip: bool)
    requires Wf(fs, w) && !w.stopped && w.frames != [] && |w.frames| != 1
    ensures var it := w.frames[|w.frames| - 1].item;
            var (v, w') := Step(fs, o, w, skip);
            match CapAfter(fs, o, Pre(it), skip, w.cap)
            case None => w'.stopped && v.None?
            case Some(c) =>
              && !w'.stopped && w'.cap == c
              && (v.Some? ==> w'.frames != [] && SameDir(v.value, w'.frames[|w'.frames| - 1].item))
  {
    hide Kid, AncIds, Chop, Listing, KidItems, GrowFor, Stack, Wf, RestOf;
    WfSize(fs, w);
    var it := w.frames[|w.frames| - 1].item;
    if it.info == D && !skip {
      var listing := Listing(fs, o, it.st);
      if listing.Some? {
        if listing.value == [] {
          NoNames(w.cap, |Chop(it.path)| + 1);
        } else {
          EnterCap(fs, o, w, listing.value);
        }
      }
    }
  }

  lemma NoNames(cap: nat, len: nat)
    ensures GrowFor(cap, len, []) == Some(cap)
  {
  }

  lemma EnterCap(fs: FileSys, o: Options, w: Walker, names: seq<string>)
    requires Wf(fs, w) && w.frames != [] && names != [] && w.frames[|w.frames| - 1].item.info == D && !w.stopped
    ensures var it := w.frames[|w.frames| - 1].item;
            var (v, w') := Enter(fs, o, w, names);
            match GrowFor(w.cap, |Chop(it.path)| + 1, names)
            case None => w'.stopped && v.None?
            case Some(c) =>
              && !w'.stopped && w'.cap == c && v.Some? && w'.frames != []
              && SameDir(v.value, w'.frames[|w'.frames| - 1].item)
  {
    hide Kid, AncIds, Chop, Listing, KidItems, GrowFor, Stack, FrameOk;
    var cap := GrowFor(w.cap, |Chop(w.frames[|w.frames| - 1].item.path)| + 1, names);
    if cap.Some? {
      EnterGrows(fs, o, w, names, cap.value);
    }
  }

  lemma CapNext(fs: FileSys, o: Options, v: Visit, vs: seq<Visit>, k: int, skip: SkipPlan, cap: nat)
    ensures CapOver(fs, o, [v] + vs, k, skip, cap) ==
            match CapAfter(fs, o, v, skip(k), cap)
            case None => None
            case Some(c) => CapOver(fs, o, vs, k + 1, skip, c)
  {
    hide CapAfter;
    assert ([v] + vs)[1..] == vs;
  }

  /** A run is stopped exactly when the buffer that the rest of the walk needs gets too large. */
  lemma {:induction false} RunCap(fs: FileSys, o: Options, w: Walker, n: int, skip: SkipPlan)
    requires ValidFs(fs) && Wf(fs, w) && !w.stopped && w.frames != []
    ensures Run(fs, o, w, n, skip).1.stopped <==>
            CapOver(fs, o, [Pre(w.frames[|w.frames| - 1].item)] + Future(fs, o, w, n, skip), n - 1, skip, w.cap).None?
    decreases |Future(fs, o, w, n, skip)|
  {
    hide Future, Wf, Step, CapAfter, CapOver, SameDir;
    WfSize(fs, w);
    StepFuture(fs, o, w, n, skip);
    StepCap(fs, o, w, skip(n - 1));
    var it := w.frames[|w.frames| - 1].item;
    var (v, w') := Step(fs, o, w, skip(n - 1));
    CapNext(fs, o, Pre(it), Future(fs, o, w, n, skip), n - 1, skip, w.cap);
    if v.Some? {
      StepLive(fs, o, w, skip(n - 1));
      RunCap(fs, o, w', n + 1, skip);
      var top := w'.frames[|w'.frames| - 1].item;
      SameCap(fs, o, v.value, top, skip(n), w'.cap);
      CapNext(fs, o, v.value, Future(fs, o, w', n + 1, skip), n, skip, w'.cap);
      CapNext(fs, o, Pre(top), Future(fs, o, w', n + 1, skip), n, skip, w'.cap);
    } else if !w'.stopped {
      CapDone(fs, o, n, skip, w'.cap);
    }
  }

  lemma CapDone(fs: FileSys, o: Options, n: int, skip: SkipPlan, cap: nat)
    ensures CapOver(fs, o, [], n, skip, cap) == Some(cap)
  {
  }

  /**
   Whether the walk is cut short can be told from the tree: FTS_STOP is set if and only if the buffer, grown
   for one directory of the recursive walk after the other, reaches the 16-bit limit.
  */
  lemma StoppedIff(fs: FileSys, o: Options, args: seq<string>, skip: SkipPlan)
    requires ValidFs(fs) && ValidArgs(args) && OpenWalker(fs, o, args).Some?
    ensures Wf(fs, OpenWalker(fs, o, args).value)
    ensures Run(fs, o, OpenWalker(fs, o, args).value, 0, skip).1.stopped <==>
            CapOver(fs, o, WalkRoots(fs, o, args, 0, skip), 0, skip, StartCap(args)).None?
  {
    hide Future, Wf, Run, CapOver, CapAfter, OpenWalker, WalkRoots, RootItem;
    var w := OpenWalker(fs, o, args).value;
    OpenWf(fs, o, args);
    OpenShape(fs, o, args);
    OpenFuture(fs, o, args, skip);
    OpenStart(fs, o, args);
    RunCap(fs, o, w, 0, skip);
    CapNext(fs, o, Pre(DUMMY.item), WalkRoots(fs, o, args, 0, skip), -1, skip, w.cap);
    DummyCap(fs, o, skip(-1), w.cap);
  }

  lemma OpenStart(fs: FileSys, o: Options, args: seq<string>)
    requires OpenWalker(fs, o, args).Some?
    ensures OpenWalker(fs, o, args).value.cap == StartCap(args)
  {
    hide RootItem, RootItems, Stack, MaxArgLen;
  }

  lemma DummyCap(fs: FileSys, o: Options, skipped: bool, cap: nat)
    ensures CapAfter(fs, o, Pre(DUMMY.item), skipped, cap) == Some(cap)
  {
  }

  // ----- what a stopped walk has reported

  /** The visits vs behind the visit v, number k, as far as the buffer suffices. */
  function Behind(fs: FileSys, o: Options, v: Visit, vs: seq<Visit>, k: int, skip: SkipPlan, cap: nat): seq<Visit>
    decreases |vs|
  {
    match CapAfter(fs, o, v, skip(k), cap)
    case None => []
    case Some(c) => if vs == [] then [] else [vs[0]] + Behind(fs, o, vs[0], vs[1..], k + 1, skip, c)
  }

  /** The visits of a walk that are reported before the buffer, size cap at the start, gets too large. */
  function Fitting(fs: FileSys, o: Options, vs: seq<Visit>, skip: SkipPlan, cap: nat): seq<Visit> {
    if vs == [] then [] else [vs[0]] + Behind(fs, o, vs[0], vs[1..], 0, skip, cap)
  }

  lemma SameBehind(fs: FileSys, o: Options, v: Visit, it: Item, vs: seq<Visit>, k: int, skip: SkipPlan, cap: nat)
    requires SameDir(v, it)
    ensures Behind(fs, o, v, vs, k, skip, cap) == Behind(fs, o, Pre(it), vs, k, skip, cap)
  {
    hide CapAfter;
    SameCap(fs, o, v, it, skip(k), cap);
  }

  lemma BehindNext(fs: FileSys, o: Options, v: Visit, x: Visit, vs: seq<Visit>, k: int, skip: SkipPlan, cap: nat)
    ensures Behind(fs, o, v, [x] + vs, k, skip, cap) ==
            match CapAfter(fs, o, v, skip(k), cap)
            case None => []
            case Some(c) => [x] + Behind(fs, o, x, vs, k + 1, skip, c)
  {
    hide CapAfter;
    assert ([x] + vs)[1..] == vs;
  }

  lemma BehindLast(fs: FileSys, o: Options, v: Visit, k: int, skip: SkipPlan, cap: nat)
    ensures Behind(fs, o, v, [], k, skip, cap) == []
  {
    hide CapAfter;
  }

  lemma BehindNone(fs: FileSys, o: Options, v: Visit, vs: seq<Visit>, k: int, skip: SkipPlan, cap: nat)
    requires CapAfter(fs, o, v, skip(k), cap).None?
    ensures Behind(fs, o, v, vs, k, skip, cap) == []
  {
    hide CapAfter;
  }

  /** A run reports the visits to come as far as the buffer suffices. */
  lemma {:induction false} RunFits(fs: FileSys, o: Options, w: Walker, n: int, skip: SkipPlan)
    requires ValidFs(fs) && Wf(fs, w) && !w.stopped && w.frames != []
    ensures Run(fs, o, w, n, skip).0 ==
            Behind(fs, o, Pre(w.frames[|w.frames| - 1].item), Future(fs, o, w, n, skip), n - 1, skip, w.cap)
    decreases |Future(fs, o, w, n, skip)|
  {
    hide Future, Wf, Step, CapAfter, Behind, SameDir;
    WfSize(fs, w);
    StepFuture(fs, o, w, n, skip);
    StepCap(fs, o, w, skip(n - 1));
    var it := w.frames[|w.frames| - 1].item;
    var (v, w') := Step(fs, o, w, skip(n - 1));
    if v.Some? {
      var rest := Future(fs, o, w', n + 1, skip);
      StepLive(fs, o, w, skip(n - 1));
      RunFits(fs, o, w', n + 1, skip);
      SameBehind(fs, o, v.value, w'.frames[|w'.frames| - 1].item, rest, n, skip, w'.cap);
      BehindNext(fs, o, Pre(it), v.value, rest, n - 1, skip, w.cap);
    } else if w'.stopped {
      BehindNone(fs, o, Pre(it), Future(fs, o, w, n, skip), n - 1, skip, w.cap);
    } else {
      BehindLast(fs, o, Pre(it), n - 1, skip, w.cap);
    }
  }

  /** What a walk reports can be told from the tree, whether it is cut short or not. */
  lemma ReportedFits(fs: FileSys, o: Options, args: seq<string>, skip: SkipPlan)
    requires ValidFs(fs) && ValidArgs(args) && OpenWalker(fs, o, args).Some?
    ensures Wf(fs, OpenWalker(fs, o, args).value)
    ensures Run(fs, o, OpenWalker(fs, o, args).value, 0, skip).0 ==
            Fitting(fs, o, WalkRoots(fs, o, args, 0, skip), skip, StartCap(args))
  {
    hide Future, Wf, Run, Behind, CapAfter, OpenWalker, WalkRoots, RootItem, StartCap;
    var w := OpenWalker(fs, o, args).value;
    var vs := WalkRoots(fs, o, args, 0, skip);
    OpenWf(fs, o, args);
    OpenShape(fs, o, args);
    OpenFuture(fs, o, args, skip);
    OpenStart(fs, o, args);
    RunFits(fs, o, w, 0, skip);
    DummyCap(fs, o, skip(-1), w.cap);
    if vs == [] {
      BehindLast(fs, o, Pre(DUMMY.item), -1, skip, w.cap);
    } else {
      assert vs == [vs[0]] + vs[1..];
      BehindNext(fs, o, Pre(DUMMY.item), vs[0], vs[1..], -1, skip, w.cap);
    }
  }
}
