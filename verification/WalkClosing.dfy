/** Which visit closes a directory, and under which path. */
module WalkClosing {
  import opened FileSystem
  import opened WalkSpec
  import opened WalkProofs
  import opened WalkRuns
  import opened WalkKinds

  /**
   u closes the directory that v opens: a note that it cannot be read, or a closing visit under the path of v,
   which loses a slash at its end if the directory was opened and had nothing to report.
  */
  ghost predicate ClosedBy(fs: FileSys, o: Options, v: Visit, skipped: bool, u: Visit) {
    if skipped then u == v.(info := DP)
    else match OpenDir(fs, v.path)
      case None => u == v.(info := DNR)
      case Some(names) => u == v.(info := DP, path := if HasEntries(o, names) then v.path else Chop(v.path))
  }

  /** Everything between two visits lies below the first one. */
  ghost predicate Deeper(vs: seq<Visit>, i: nat, j: nat)
    requires i < |vs| && j <= |vs|
  {
    forall m | i < m < j :: vs[m].level > vs[i].level
  }

  ghost predicate AllFrom(vs: seq<Visit>, level: int) {
    forall v | v in vs :: v.level >= level
  }

  lemma LevelsTree(fs: FileSys, o: Options, it: Item, ancs: set<Id>, k: int, skip: SkipPlan)
    ensures AllFrom(VisitTree(fs, o, it, ancs, k, skip), it.level)
    decreases Dirs(fs) - ancs, 1, 0
  {
    hide VisitAll, Listing, Chop;
    if it.info == D && Descendable(fs, it, ancs) && Listing(fs, o, it.st).Some? {
      LevelsAll(fs, o, it, {it.st.value} + ancs, Listing(fs, o, it.st).value, k + 1, skip);
    }
  }

  lemma LevelsAll(fs: FileSys, o: Options, h: Item, ancs: set<Id>, names: seq<string>, k: int, skip: SkipPlan)
    ensures AllFrom(VisitAll(fs, o, h, ancs, names, k, skip), h.level + 1)
    decreases Dirs(fs) - ancs, 2, |names|
  {
    hide VisitTree, Classify;
    if names != [] {
      var kid := Kid(fs, o, h, ancs, names[0]);
      LevelsTree(fs, o, kid, ancs, k, skip);
      LevelsAll(fs, o, h, ancs, names[1..], k + |VisitTree(fs, o, kid, ancs, k, skip)|, skip);
    }
  }

  /** The last visit of the tree of a directory closes it. */
  lemma LastCloses(fs: FileSys, o: Options, it: Item, ancs: set<Id>, k: int, skip: SkipPlan)
    requires ValidFs(fs) && Walkable(fs, it, ancs) && it.info == D
    ensures var vs := VisitTree(fs, o, it, ancs, k, skip);
            && |vs| >= 2 && vs[0] == Pre(it) && ClosedBy(fs, o, vs[0], skip(k), vs[|vs| - 1])
            && Deeper(vs, 0, |vs| - 1)
  {
    hide Stat, Classify, Kept, Names, ValidFs, VisitAll;
    var listing := Listing(fs, o, it.st);
    if !skip(k) && listing.Some? {
      ListingEmpty(fs, o, it);
      var all := {it.st.value} + ancs;
      var us := VisitAll(fs, o, it, all, listing.value, k + 1, skip);
      var vs := VisitTree(fs, o, it, ancs, k, skip);
      if listing.value != [] {
        LevelsAll(fs, o, it, all, listing.value, k + 1, skip);
        assert vs == [Pre(it)] + (us + [Post(it)]);
        forall m | 0 < m < |vs| - 1 ensures vs[m].level > it.level {
          assert vs[m] == us[m - 1] && us[m - 1] in us;
        }
      }
    }
  }

  lemma ClosedTree(fs: FileSys, o: Options, it: Item, ancs: set<Id>, k: int, skip: SkipPlan, i: nat) returns (j: nat)
    requires ValidFs(fs) && Walkable(fs, it, ancs)
    requires i < |VisitTree(fs, o, it, ancs, k, skip)| && VisitTree(fs, o, it, ancs, k, skip)[i].info == D
    ensures var vs := VisitTree(fs, o, it, ancs, k, skip);
            i < j < |vs| && ClosedBy(fs, o, vs[i], skip(k + i), vs[j]) && Deeper(vs, i, j)
    decreases Dirs(fs) - ancs, 1, 0
  {
    hide ValidFs, VisitAll, ClosedBy, Listing, Chop, Stat;
    var vs := VisitTree(fs, o, it, ancs, k, skip);
    if i == 0 {
      LastCloses(fs, o, it, ancs, k, skip);
      j := |vs| - 1;
    } else {
      var listing := Listing(fs, o, it.st);
      var all := {it.st.value} + ancs;
      var us := VisitAll(fs, o, it, all, listing.value, k + 1, skip);
      assert vs == [Pre(it)] + (us + [Post(it)]);
      assert i - 1 < |us| && vs[i] == us[i - 1];
      ListingValid(fs, o, it.st);
      var n := ClosedAll(fs, o, it, all, listing.value, k + 1, skip, i - 1);
      j := n + 1;
      forall m | 0 < m <= |us| ensures vs[m] == us[m - 1] {
      }
    }
  }

  lemma ClosedAll(fs: FileSys, o: Options, h: Item, ancs: set<Id>, names: seq<string>, k: int, skip: SkipPlan, i: nat)
    returns (j: nat)
    requires ValidFs(fs) && h.info == D && h.st.Some? && IsDir(fs, h.st.value)
    requires Stat(fs, h.path) == h.st && h.path != ""
    requires forall n | n in names :: ValidName(n)
    requires i < |VisitAll(fs, o, h, ancs, names, k, skip)| && VisitAll(fs, o, h, ancs, names, k, skip)[i].info == D
    ensures var vs := VisitAll(fs, o, h, ancs, names, k, skip);
            i < j < |vs| && ClosedBy(fs, o, vs[i], skip(k + i), vs[j]) && Deeper(vs, i, j)
    decreases Dirs(fs) - ancs, 2, |names|
  {
    hide ValidFs, VisitTree, ClosedBy, Classify, Stat, Join, ValidName, Find;
    var kid := Kid(fs, o, h, ancs, names[0]);
    var vs := VisitTree(fs, o, kid, ancs, k, skip);
    assert names[0] in names && forall n | n in names[1..] :: n in names;
    if i < |vs| {
      KidIsGood(fs, o, h, ancs, names[0]);
      j := ClosedTree(fs, o, kid, ancs, k, skip, i);
    } else {
      var n := ClosedAll(fs, o, h, ancs, names[1..], k + |vs|, skip, i - |vs|);
      j := n + |vs|;
    }
  }

  /** Each directory of a walk is closed, and up to there everything lies below it. */
  lemma {:induction false} ClosedWalk(fs: FileSys, o: Options, args: seq<string>, k: int, skip: SkipPlan, i: nat)
    returns (j: nat)
    requires ValidFs(fs) && "" !in args
    requires i < |WalkRoots(fs, o, args, k, skip)| && WalkRoots(fs, o, args, k, skip)[i].info == D
    ensures var vs := WalkRoots(fs, o, args, k, skip);
            i < j < |vs| && ClosedBy(fs, o, vs[i], skip(k + i), vs[j]) && Deeper(vs, i, j)
    decreases |args|
  {
    hide ValidFs, VisitTree, RootItem, ClosedBy, Stat;
    var it := RootItem(fs, o, args[0]);
    var vs := VisitTree(fs, o, it, {}, k, skip);
    assert args[0] in args && forall a | a in args[1..] :: a in args;
    if i < |vs| {
      RootIsGood(fs, o, args[0]);
      j := ClosedTree(fs, o, it, {}, k, skip, i);
    } else {
      var n := ClosedWalk(fs, o, args[1..], k + |vs|, skip, i - |vs|);
      j := n + |vs|;
    }
  }
}
