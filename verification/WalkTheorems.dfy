/**
 The main results about the walk: reading to the end gives the recursive walk, pruned where the
 caller asked for it, and never more than a bounded depth.
*/
module WalkTheorems {
  import opened FileSystem
  import opened WalkSpec
  import opened WalkProofs

  lemma WfDescends(fs: FileSys, w: Walker, i: nat)
    requires Wf(fs, w) && 1 <= i < |w.frames|
    ensures UpBelow(w.frames, i) && Descendable(fs, w.frames[i].item, AncIds(w.frames, w.frames[i].up))
  {
    assert FrameOk(fs, w, i);
  }

  // Equations between visit sequences, under names so that a proof can pass them on unopened.

  ghost predicate Splits(x: seq<Visit>, a: seq<Visit>, y: seq<Visit>) {
    x == a + y
  }

  ghost predicate SplitsAt(x: seq<Visit>, a: seq<Visit>, v: Visit, y: seq<Visit>) {
    x == a + [v] + y
  }

  lemma SplitTwice(x: seq<Visit>, a: seq<Visit>, y: seq<Visit>, b: seq<Visit>, v: Visit, z: seq<Visit>, ab: seq<Visit>)
    requires Splits(x, a, y) && SplitsAt(y, b, v, z) && Splits(ab, a, b)
    ensures SplitsAt(x, ab, v, z) && |ab| == |a| + |b|
  {
  }

  /** The first entry of a directory, then the others. */
  lemma VisitFirst(fs: FileSys, o: Options, h: Item, ancs: set<Id>, names: seq<string>, k: int, skip: SkipPlan)
    requires names != []
    ensures var v := VisitTree(fs, o, Kid(fs, o, h, ancs, names[0]), ancs, k, skip);
            && Splits(VisitAll(fs, o, h, ancs, names, k, skip), v, VisitAll(fs, o, h, ancs, names[1..], k + |v|, skip))
            && |VisitAll(fs, o, h, ancs, names, k, skip)| == |v| + |VisitAll(fs, o, h, ancs, names[1..], k + |v|, skip)|
  {
    hide VisitTree, Kid;
  }

  /** The topmost of n frames, still to be visited, then the frames below it. */
  lemma RestFirst(fs: FileSys, o: Options, g: seq<Frame>, n: nat, k: int, skip: SkipPlan)
    requires 2 <= n <= |g| && !g[n - 1].open
    ensures var v := VisitTree(fs, o, g[n - 1].item, AncIds(g, g[n - 1].up), k, skip);
            Splits(RestOf(fs, o, g, n, k, skip), v, RestOf(fs, o, g, n - 1, k + |v|, skip))
  {
  }

  lemma RestOpen(fs: FileSys, o: Options, g: seq<Frame>, n: nat, k: int, skip: SkipPlan)
    requires 2 <= n <= |g| && g[n - 1].open
    ensures SplitsAt(RestOf(fs, o, g, n, k, skip), [], Post(g[n - 1].item), RestOf(fs, o, g, n - 1, k + 1, skip))
  {
  }

  lemma RestNone(fs: FileSys, o: Options, g: seq<Frame>, k: int, skip: SkipPlan)
    requires g != []
    ensures RestOf(fs, o, g, 1, k, skip) == []
  {
  }

  lemma VisitNone(fs: FileSys, o: Options, h: Item, ancs: set<Id>, k: int, skip: SkipPlan)
    ensures VisitAll(fs, o, h, ancs, [], k, skip) == []
  {
  }

  /** Above the open directory t the m last names of it are stacked, the first of them on top. */
  ghost predicate Stacked(fs: FileSys, o: Options, g: seq<Frame>, t: nat, names: seq<string>, m: nat) {
    && 1 <= t && m <= |names| && t + m < |g| && g[t].open
    && forall i | t < i <= t + m ::
         g[i] == Frame(Kid(fs, o, g[t].item, AncIds(g, t), names[t + |names| - i]), false, t)
  }

  lemma StackedTop(fs: FileSys, o: Options, g: seq<Frame>, t: nat, names: seq<string>, m: nat, k: int, skip: SkipPlan)
    requires Stacked(fs, o, g, t, names, m) && m > 0
    ensures Stacked(fs, o, g, t, names, m - 1)
    ensures var v := VisitTree(fs, o, Kid(fs, o, g[t].item, AncIds(g, t), names[|names| - m]), AncIds(g, t), k, skip);
            Splits(RestOf(fs, o, g, t + 1 + m, k, skip), v, RestOf(fs, o, g, t + m, k + |v|, skip))
  {
    hide VisitTree, Kid, AncIds;
    RestFirst(fs, o, g, t + 1 + m, k, skip);
  }

  lemma {:induction false} StackVisits(fs: FileSys, o: Options, g: seq<Frame>, t: nat, names: seq<string>, m: nat,
                                       k: int, skip: SkipPlan)
    requires Stacked(fs, o, g, t, names, m)
    ensures var v := VisitAll(fs, o, g[t].item, AncIds(g, t), names[|names| - m..], k, skip);
            SplitsAt(RestOf(fs, o, g, t + 1 + m, k, skip), v, Post(g[t].item), RestOf(fs, o, g, t, k + |v| + 1, skip))
  {
    hide VisitAll, VisitTree, RestOf, Kid, AncIds, Splits, SplitsAt;
    var h := g[t].item;
    var ancs := AncIds(g, t);
    var now := names[|names| - m..];
    if m == 0 {
      assert now == [];
      VisitNone(fs, o, h, ancs, k, skip);
      RestOpen(fs, o, g, t + 1, k, skip);
    } else {
      StackedTop(fs, o, g, t, names, m, k, skip);
      var later := names[|names| - (m - 1)..];
      assert now[0] == names[|names| - m] && now[1..] == later;
      var v := VisitTree(fs, o, Kid(fs, o, h, ancs, now[0]), ancs, k, skip);
      VisitFirst(fs, o, h, ancs, now, k, skip);
      StackVisits(fs, o, g, t, names, m - 1, k + |v|, skip);
      var rest := VisitAll(fs, o, h, ancs, later, k + |v|, skip);
      var all := VisitAll(fs, o, h, ancs, now, k, skip);
      assert k + |all| + 1 == k + |v| + |rest| + 1;
      SplitTwice(RestOf(fs, o, g, t + 1 + m, k, skip), v, RestOf(fs, o, g, t + m, k + |v|, skip),
                 rest, Post(h), RestOf(fs, o, g, t, k + |all| + 1, skip), all);
    }
  }

  /** The top frame changes in a way that leaves no further visits of its own. */
  lemma BecomeFuture(fs: FileSys, o: Options, w: Walker, path: string, info: Info, n: int, skip: SkipPlan)
    requires Wf(fs, w) && |w.frames| >= 2 && info in {DP, DNR}
    ensures Future(fs, o, Become(w, path, info).1, n, skip) == RestOf(fs, o, w.frames, |w.frames| - 1, n, skip)
  {
    hide RestOf, Wf, AncIds;
    var w' := Become(w, path, info).1;
    forall j | 1 <= j < |w.frames| - 1 ensures UpBelow(w.frames, j) {
      WfDescends(fs, w, j);
    }
    RestSame(fs, o, w.frames, w'.frames, |w.frames| - 1, n, skip);
  }

  /** Visiting the top frame leaves the rest of its own tree, then what lies below it. */
  lemma TopFuture(fs: FileSys, o: Options, w: Walker, it: Item, ancs: set<Id>, n: int, skip: SkipPlan)
    requires |w.frames| >= 2
    requires var f := w.frames[|w.frames| - 1]; f.item == it && ancs == AncIds(w.frames, f.up)
    ensures var v := VisitTree(fs, o, it, ancs, n, skip);
            Splits([Pre(it)] + Future(fs, o, w, n + 1, skip), v, RestOf(fs, o, w.frames, |w.frames| - 1, n + |v|, skip))
  {
    hide Inside, AncIds, RestOf;
    var inner := Inside(fs, o, it, ancs, n, skip);
    assert n + 1 + |inner| == n + |VisitTree(fs, o, it, ancs, n, skip)|;
  }

  lemma GrownTop(fs: FileSys, o: Options, w: Walker, names: seq<string>, w': Walker)
    requires Wf(fs, w) && |w.frames| >= 2 && Grown(fs, o, w, names, w')
    ensures var t := |w.frames| - 1;
            var ancs := AncIds(w.frames, t);
            && AncIds(w'.frames, t) == ancs
            && w'.frames[|w'.frames| - 1] == Frame(Kid(fs, o, w.frames[t].item, ancs, names[0]), false, t)
            && Stacked(fs, o, w'.frames, t, names, |names| - 1)
            && names != [] && |w'.frames| == t + 1 + |names| && w'.frames[t].item == w.frames[t].item
            && forall j | 0 <= j < t :: w.frames[j] == w'.frames[j]
  {
    hide Chop, Kid;
    AncSame(w.frames, w'.frames, |w.frames| - 1);
  }

  /** Under the first entry of an entered directory: its other entries, itself in post-order, the old rest. */
  lemma GrownRest(fs: FileSys, o: Options, w: Walker, names: seq<string>, w': Walker, k: int, skip: SkipPlan)
    requires Wf(fs, w) && |w.frames| >= 2 && Grown(fs, o, w, names, w')
    ensures var t := |w.frames| - 1;
            var h := w.frames[t].item;
            var rest := VisitAll(fs, o, h, AncIds(w.frames, t), names[1..], k, skip);
            SplitsAt(RestOf(fs, o, w'.frames, |w'.frames| - 1, k, skip),
                     rest, Post(h), RestOf(fs, o, w.frames, t, k + |rest| + 1, skip))
  {
    hide Kid, RestOf, VisitAll, AncIds, Grown, Stacked, Splits, SplitsAt, Wf;
    var t := |w.frames| - 1;
    GrownTop(fs, o, w, names, w');
    forall j | 1 <= j < t ensures UpBelow(w.frames, j) {
      WfDescends(fs, w, j);
    }
    StackVisits(fs, o, w'.frames, t, names, |names| - 1, k, skip);
    assert names[|names| - (|names| - 1)..] == names[1..];
    var rest := VisitAll(fs, o, w.frames[t].item, AncIds(w.frames, t), names[1..], k, skip);
    RestSame(fs, o, w.frames, w'.frames, t, k + |rest| + 1, skip);
  }

  lemma GrownFuture(fs: FileSys, o: Options, w: Walker, names: seq<string>, w': Walker, n: int, skip: SkipPlan)
    requires Wf(fs, w) && |w.frames| >= 2 && Grown(fs, o, w, names, w')
    ensures var t := |w.frames| - 1;
            var h := w.frames[t].item;
            var kid := Kid(fs, o, h, AncIds(w.frames, t), names[0]);
            var all := VisitAll(fs, o, h, AncIds(w.frames, t), names, n, skip);
            SplitsAt([Pre(kid)] + Future(fs, o, w', n + 1, skip),
                     all, Post(h), RestOf(fs, o, w.frames, t, n + |all| + 1, skip))
  {
    hide Kid, RestOf, Future, VisitTree, VisitAll, AncIds, Grown, Stacked, Pre, Post, Splits, SplitsAt, Wf;
    var t := |w.frames| - 1;
    var h := w.frames[t].item;
    var ancs := AncIds(w.frames, t);
    GrownTop(fs, o, w, names, w');
    var kid := Kid(fs, o, h, ancs, names[0]);
    TopFuture(fs, o, w', kid, ancs, n, skip);
    VisitFirst(fs, o, h, ancs, names, n, skip);
    var first := VisitTree(fs, o, kid, ancs, n, skip);
    GrownRest(fs, o, w, names, w', n + |first|, skip);
    var rest := VisitAll(fs, o, h, ancs, names[1..], n + |first|, skip);
    var all := VisitAll(fs, o, h, ancs, names, n, skip);
    assert n + |first| + |rest| + 1 == n + |all| + 1;
    SplitTwice([Pre(kid)] + Future(fs, o, w', n + 1, skip), first,
               RestOf(fs, o, w'.frames, |w'.frames| - 1, n + |first|, skip),
               rest, Post(h), RestOf(fs, o, w.frames, t, n + |all| + 1, skip), all);
  }

  /** Climbing: the directory's post-order visit is next. */
  lemma ClimbFuture(fs: FileSys, o: Options, w: Walker, n: int, skip: SkipPlan)
    requires Wf(fs, w) && |w.frames| >= 3 && w.frames[|w.frames| - 2].open
    ensures var (v, w') := Leave(w);
            && v.Some? && Future(fs, o, w', n + 1, skip) == RestOf(fs, o, w.frames, |w.frames| - 2, n + 1, skip)
            && RestOf(fs, o, w.frames, |w.frames| - 1, n, skip) ==
               [v.value] + RestOf(fs, o, w.frames, |w.frames| - 2, n + 1, skip)
  {
    hide VisitTree, AncIds, Wf;
    var t := |w.frames| - 2;
    var w' := Leave(w).1;
    forall j | 1 <= j < t ensures UpBelow(w.frames, j) {
      WfDescends(fs, w, j);
    }
    RestSame(fs, o, w.frames, w'.frames, t, n + 1, skip);
  }

  /** Moving on to a sibling: its visit is next, then its tree. */
  lemma SiblingFuture(fs: FileSys, o: Options, w: Walker, n: int, skip: SkipPlan)
    requires Wf(fs, w) && |w.frames| >= 3 && !w.frames[|w.frames| - 2].open
    ensures var (v, w') := Leave(w);
            v.Some? && [v.value] + Future(fs, o, w', n + 1, skip) == RestOf(fs, o, w.frames, |w.frames| - 1, n, skip)
  {
    hide VisitTree, AncIds, Wf, RestOf, Future;
    var t := |w.frames| - 2;
    var f := w.frames[t];
    var w' := Leave(w).1;
    forall j | 1 <= j < t ensures UpBelow(w.frames, j) {
      WfDescends(fs, w, j);
    }
    WfDescends(fs, w, t);
    AncSame(w.frames, w'.frames, f.up);
    TopFuture(fs, o, w', f.item, AncIds(w.frames, f.up), n, skip);
    RestFirst(fs, o, w.frames, t + 1, n, skip);
    var x := VisitTree(fs, o, f.item, AncIds(w.frames, f.up), n, skip);
    RestSame(fs, o, w.frames, w'.frames, t, n + |x|, skip);
  }

  lemma LeaveFuture(fs: FileSys, o: Options, w: Walker, n: int, skip: SkipPlan)
    requires Wf(fs, w) && |w.frames| >= 2 && w.frames[|w.frames| - 1].item.info != D
    ensures var (v, w') := Leave(w);
            if v.None? then w'.frames == [] && w'.stopped == w.stopped && Future(fs, o, w, n, skip) == []
            else Future(fs, o, w, n, skip) == [v.value] + Future(fs, o, w', n + 1, skip)
  {
    hide Wf, RestOf, Future;
    FutureOfOther(fs, o, w, n, skip);
    RestNone(fs, o, w.frames, n, skip);
    if |w.frames| >= 3 {
      if w.frames[|w.frames| - 2].open {
        ClimbFuture(fs, o, w, n, skip);
      } else {
        SiblingFuture(fs, o, w, n, skip);
      }
    }
  }

  lemma FutureOfOther(fs: FileSys, o: Options, w: Walker, n: int, skip: SkipPlan)
    requires |w.frames| >= 2 && w.frames[|w.frames| - 1].item.info != D
    ensures Future(fs, o, w, n, skip) == RestOf(fs, o, w.frames, |w.frames| - 1, n, skip)
  {
    hide RestOf;
  }

  lemma DescendFuture(fs: FileSys, o: Options, w: Walker, n: int, skip: SkipPlan)
    requires Wf(fs, w) && w.frames != [] && w.frames[|w.frames| - 1].item.info == D
    ensures var (v, w') := Descend(fs, o, w, skip(n - 1));
            if v.None? then w'.stopped && Future(fs, o, w, n, skip) != []
            else Future(fs, o, w, n, skip) == [v.value] + Future(fs, o, w', n + 1, skip)
  {
    hide Future, VisitAll, RestOf, GrowFor, Chop, AncIds, Listing;
    var it := w.frames[|w.frames| - 1].item;
    var listing := Listing(fs, o, it.st);
    FutureOfDir(fs, o, w, n, skip);
    if skip(n - 1) {
      BecomeFuture(fs, o, w, it.path, DP, n + 1, skip);
    } else if listing.None? {
      BecomeFuture(fs, o, w, it.path, DNR, n + 1, skip);
    } else if listing.value == [] {
      BecomeFuture(fs, o, w, Chop(it.path), DP, n + 1, skip);
    } else {
      EnterFuture(fs, o, w, listing.value, n, skip);
    }
  }

  /** The future of a directory just visited in pre-order, by cases. */
  lemma FutureOfDir(fs: FileSys, o: Options, w: Walker, n: int, skip: SkipPlan)
    requires Wf(fs, w) && w.frames != [] && w.frames[|w.frames| - 1].item.info == D
    ensures var t := |w.frames| - 1;
            var it := w.frames[t].item;
            var listing := Listing(fs, o, it.st);
            Future(fs, o, w, n, skip) ==
            if skip(n - 1) then [Post(it)] + RestOf(fs, o, w.frames, t, n + 1, skip)
            else if listing.None? then [Visit(DNR, it.path, it.st, it.level)] + RestOf(fs, o, w.frames, t, n + 1, skip)
            else if listing.value == [] then
              [Visit(DP, Chop(it.path), it.st, it.level)] + RestOf(fs, o, w.frames, t, n + 1, skip)
            else
              var all := VisitAll(fs, o, it, AncIds(w.frames, t), listing.value, n, skip);
              all + [Post(it)] + RestOf(fs, o, w.frames, t, n + |all| + 1, skip)
  {
    var t := |w.frames| - 1;
    var it := w.frames[t].item;
    var above := AncIds(w.frames, w.frames[t].up);
    WfDescends(fs, w, t);
    assert AncIds(w.frames, t) == {it.st.value} + above;
    assert Descendable(fs, it, above);
    var listing := Listing(fs, o, it.st);
    if !skip(n - 1) && listing.Some? && listing.value != [] {
      var all := VisitAll(fs, o, it, AncIds(w.frames, t), listing.value, n, skip);
      assert Inside(fs, o, it, above, n - 1, skip) == all + [Post(it)];
      assert n + |all + [Post(it)]| == n + |all| + 1;
    }
  }

  lemma EnterFuture(fs: FileSys, o: Options, w: Walker, names: seq<string>, n: int, skip: SkipPlan)
    requires Wf(fs, w) && w.frames != [] && w.frames[|w.frames| - 1].item.info == D && names != []
    ensures var t := |w.frames| - 1;
            var it := w.frames[t].item;
            var all := VisitAll(fs, o, it, AncIds(w.frames, t), names, n, skip);
            var (v, w') := Enter(fs, o, w, names);
            if v.None? then w'.stopped
            else [v.value] + Future(fs, o, w', n + 1, skip) ==
                 all + [Post(it)] + RestOf(fs, o, w.frames, t, n + |all| + 1, skip)
  {
    hide Future, VisitAll, RestOf, Kid, AncIds, Chop, GrowFor;
    var cap := GrowFor(w.cap, |Chop(w.frames[|w.frames| - 1].item.path)| + 1, names);
    if cap.Some? {
      EnterGrows(fs, o, w, names, cap.value);
      GrownFuture(fs, o, w, names, Enter(fs, o, w, names).1, n, skip);
    }
  }

  lemma WfSize(fs: FileSys, w: Walker)
    requires Wf(fs, w) && w.frames != []
    ensures |w.frames| >= 2
  {
  }

  /** One step reports the next visit of the walk that remains, or stops, or ends a finished walk. */
  lemma StepFuture(fs: FileSys, o: Options, w: Walker, n: int, skip: SkipPlan)
    requires ValidFs(fs) && Wf(fs, w) && !w.stopped && w.frames != []
    ensures var (v, w') := Step(fs, o, w, skip(n - 1));
            && Wf(fs, w')
            && (v.None? ==> if w'.stopped then Future(fs, o, w, n, skip) != []
                            else w'.frames == [] && Future(fs, o, w, n, skip) == [])
            && (v.Some? ==> Future(fs, o, w, n, skip) == [v.value] + Future(fs, o, w', n + 1, skip))
  {
    hide Future, Leave, Descend, Wf;
    StepWf(fs, o, w, skip(n - 1));
    WfSize(fs, w);
    if w.frames[|w.frames| - 1].item.info == D {
      DescendFuture(fs, o, w, n, skip);
    } else {
      LeaveFuture(fs, o, w, n, skip);
    }
  }
}
