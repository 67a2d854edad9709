/**
 What the walk shows, said of the tree alone: which paths it opens, and as what each of them is reported,
 by the inode that stat(2) or lstat(2) finds under the path.
*/
module WalkKinds {
  import opened FileSystem
  import opened WalkSpec
  import opened WalkProofs
  import opened WalkRuns

  // ----- paths of the tree

  /** The path of the entry that the names lead to from a root. */
  function PathTo(root: string, names: seq<string>): string
    decreases |names|
  {
    var n := |names| - 1;
    if names == [] then root else Join(PathTo(root, names[..n]), names[n])
  }

  /** The inode is that of a directory on the way to the entry. */
  ghost predicate IsAbove(fs: FileSys, root: string, names: seq<string>, id: Id) {
    exists j :: 0 <= j < |names| && Stat(fs, PathTo(root, names[..j])) == Some(id)
  }

  /** Symbolic links are followed in a logical walk, and with FTS_COMFOLLOW for the root. */
  predicate Follows(o: Options, names: seq<string>) {
    o.logical || (o.comfollow && names == [])
  }

  function Seen(fs: FileSys, o: Options, root: string, names: seq<string>): Option<Id> {
    if Follows(o, names) then Stat(fs, PathTo(root, names)) else LStat(fs, PathTo(root, names))
  }

  function KindSeen(fs: FileSys, id: Option<Id>): Option<Kind> {
    if id.Some? && id.value in fs.inodes then Some(fs.inodes[id.value].kind) else None
  }

  predicate DotBelow(names: seq<string>) {
    names != [] && names[|names| - 1] in [".", ".."]
  }

  /**
   The visit shows the entry as what it is: NS without an inode, SLNONE for a followed link without a target,
   SL for a link that is not followed, F, DEFAULT or a kind of directory; DC is a directory met on the way to
   itself.
  */
  ghost predicate Rightly(fs: FileSys, o: Options, root: string, names: seq<string>, v: Visit) {
    var l, seen := LStat(fs, PathTo(root, names)), Seen(fs, o, root, names);
    var kind := KindSeen(fs, seen);
    && v.path == PathTo(root, names) && v.level == |names|
    && v.st == (if seen.Some? then seen else l)
    && (v.info == NS <==> l.None?)
    && (v.info == SLNONE <==> Follows(o, names) && l.Some? && seen.None?)
    && (v.info == SL <==> kind.Some? && kind.value.Symlink?)
    && (v.info == F <==> kind.Some? && kind.value.Reg?)
    && (v.info == DEFAULT <==> kind.Some? && kind.value.Other?)
    && (v.info == DOT <==> kind.Some? && kind.value.Dir? && DotBelow(names))
    && (v.info == DC <==> kind.Some? && kind.value.Dir? && !DotBelow(names) && IsAbove(fs, root, names, seen.value))
    && (v.info == D <==> kind.Some? && kind.value.Dir? && !DotBelow(names) && !IsAbove(fs, root, names, seen.value))
  }

  /** The directory at dir is entered, and name is one of its entries to report. */
  ghost predicate Enters(fs: FileSys, o: Options, root: string, dir: seq<string>, name: string) {
    var seen := Seen(fs, o, root, dir);
    && seen.Some? && IsDir(fs, seen.value) && !DotBelow(dir) && !IsAbove(fs, root, dir, seen.value)
    && var names := OpenDir(fs, PathTo(root, dir));
       names.Some? && name in names.value && (o.seedot || name !in [".", ".."])
  }

  /** Every directory on the way to the entry is entered and lists the next name. */
  ghost predicate Reached(fs: FileSys, o: Options, root: string, names: seq<string>) {
    forall j | 0 <= j < |names| :: Enters(fs, o, root, names[..j], names[j])
  }

  ghost predicate Context(fs: FileSys, o: Options, root: string, names: seq<string>, it: Item, ancs: set<Id>) {
    && Reached(fs, o, root, names) && Rightly(fs, o, root, names, Pre(it))
    && it.path != "" && (it.info == D ==> Stat(fs, it.path) == it.st)
    && forall id :: id in ancs <==> IsAbove(fs, root, names, id)
  }

  // ----- one entry

  lemma ClassifyIs(fs: FileSys, follow: bool, path: string, dot: bool, ancs: set<Id>)
    ensures var (info, st) := Classify(fs, follow, Lookup(fs, path), dot, ancs);
            var l := LStat(fs, path);
            var seen := if follow then Stat(fs, path) else l;
            var kind := KindSeen(fs, seen);
            && st == (if seen.Some? then seen else l)
            && (info == NS <==> l.None?)
            && (info == SLNONE <==> follow && l.Some? && seen.None?)
            && (info == SL <==> kind.Some? && kind.value.Symlink?)
            && (info == F <==> kind.Some? && kind.value.Reg?)
            && (info == DEFAULT <==> kind.Some? && kind.value.Other?)
            && (info == DOT <==> kind.Some? && kind.value.Dir? && dot)
            && (info == DC <==> kind.Some? && kind.value.Dir? && !dot && seen.value in ancs)
            && (info == D <==> kind.Some? && kind.value.Dir? && !dot && seen.value !in ancs)
  {
    hide Lookup, IsDot;
  }

  lemma RootContext(fs: FileSys, o: Options, root: string)
    requires root != ""
    ensures Context(fs, o, root, [], RootItem(fs, o, root), {}) && RootItem(fs, o, root).info !in {DP, DNR}
  {
    hide Lookup, IsDot, Classify, Stat, LStat;
    ClassifyIs(fs, o.logical || o.comfollow, root, IsDot(root), {});
    RootIsGood(fs, o, root);
  }

  /** The directories above an entry are those above its directory, and that directory. */
  lemma AboveNext(fs: FileSys, root: string, names: seq<string>, name: string, id: Id)
    ensures IsAbove(fs, root, names + [name], id) <==>
            IsAbove(fs, root, names, id) || Stat(fs, PathTo(root, names)) == Some(id)
  {
    hide Stat, PathTo;
    var all := names + [name];
    assert all[..|names|] == names;
    if IsAbove(fs, root, names, id) {
      var j :| 0 <= j < |names| && Stat(fs, PathTo(root, names[..j])) == Some(id);
      assert all[..j] == names[..j];
    }
    if IsAbove(fs, root, all, id) {
      var j :| 0 <= j < |all| && Stat(fs, PathTo(root, all[..j])) == Some(id);
      assert j < |names| ==> all[..j] == names[..j];
    }
  }

  lemma ReachedNext(fs: FileSys, o: Options, root: string, names: seq<string>, name: string)
    ensures Reached(fs, o, root, names + [name]) <==> Reached(fs, o, root, names) && Enters(fs, o, root, names, name)
  {
    hide Enters;
    var all := names + [name];
    assert all[..|names|] == names;
    forall j | 0 <= j < |names| ensures all[..j] == names[..j] && all[j] == names[j] {
    }
    if Reached(fs, o, root, all) {
      assert Enters(fs, o, root, all[..|names|], all[|names|]);
      forall j | 0 <= j < |names| ensures Enters(fs, o, root, names[..j], names[j]) {
        assert Enters(fs, o, root, all[..j], all[j]);
      }
    }
  }

  /** The entries of a directory in its context. */
  lemma KidContext(fs: FileSys, o: Options, root: string, names: seq<string>, h: Item, ancs: set<Id>, name: string)
    requires ValidFs(fs) && Context(fs, o, root, names, h, ancs) && h.info == D && Descendable(fs, h, ancs)
    requires Listing(fs, o, h.st).Some? && name in Listing(fs, o, h.st).value
    ensures ValidName(name)
    ensures var all := {h.st.value} + ancs; Context(fs, o, root, names + [name], Kid(fs, o, h, all, name), all)
  {
    hide Lookup, Classify, ValidFs, ValidName, Find, Entries, Enters, Reached, IsAbove, LStat, Kept, Names;
    var all := {h.st.value} + ancs;
    var kid := Kid(fs, o, h, all, name);
    ListingValid(fs, o, h.st);
    KidIsGood(fs, o, h, all, name);
    ClassifyIs(fs, o.logical, kid.path, IsDot(name), all);
    EntersListed(fs, o, root, names, h, ancs, name);
    ReachedNext(fs, o, root, names, name);
    assert (names + [name])[..|names|] == names;
    forall id ensures id in all <==> IsAbove(fs, root, names + [name], id) {
      AboveNext(fs, root, names, name, id);
    }
  }

  lemma EntersListed(fs: FileSys, o: Options, root: string, names: seq<string>, h: Item, ancs: set<Id>, name: string)
    requires Context(fs, o, root, names, h, ancs) && h.info == D && Descendable(fs, h, ancs)
    requires Listing(fs, o, h.st).Some?
    ensures name in Listing(fs, o, h.st).value <==> Enters(fs, o, root, names, name)
  {
    hide Lookup, IsAbove, Reached, Kept;
    KeptIn(o, Names(Entries(fs, h.st)));
  }

  // ----- everything that is opened is reached, and shown as what it is

  lemma ShownTree(fs: FileSys, o: Options, root: string, names: seq<string>, it: Item, ancs: set<Id>, k: int,
                  skip: SkipPlan, v: Visit) returns (at: seq<string>)
    requires ValidFs(fs) && Context(fs, o, root, names, it, ancs)
    requires v in VisitTree(fs, o, it, ancs, k, skip) && v.info !in {DP, DNR}
    ensures Reached(fs, o, root, at) && Rightly(fs, o, root, at, v)
    decreases Dirs(fs) - ancs, 1, 0
  {
    hide ValidFs, Listing, VisitAll, Reached, Rightly, IsAbove;
    if v == Pre(it) {
      at := names;
    } else {
      var listing := Listing(fs, o, it.st);
      at := ShownAll(fs, o, root, names, it, ancs, listing.value, k + 1, skip, v);
    }
  }

  lemma ShownAll(fs: FileSys, o: Options, root: string, names: seq<string>, h: Item, ancs: set<Id>, left: seq<string>,
                 k: int, skip: SkipPlan, v: Visit) returns (at: seq<string>)
    requires ValidFs(fs) && Context(fs, o, root, names, h, ancs) && h.info == D && Descendable(fs, h, ancs)
    requires Listing(fs, o, h.st).Some? && forall n | n in left :: n in Listing(fs, o, h.st).value
    requires v in VisitAll(fs, o, h, {h.st.value} + ancs, left, k, skip) && v.info !in {DP, DNR}
    ensures Reached(fs, o, root, at) && Rightly(fs, o, root, at, v)
    decreases Dirs(fs) - ({h.st.value} + ancs), 2, |left|
  {
    hide ValidFs, Listing, VisitTree, Context, Kid, Reached, Rightly;
    var all := {h.st.value} + ancs;
    var kid := Kid(fs, o, h, all, left[0]);
    var vs := VisitTree(fs, o, kid, all, k, skip);
    assert left[0] in left && forall n | n in left[1..] :: n in left;
    if v in vs {
      KidContext(fs, o, root, names, h, ancs, left[0]);
      at := ShownTree(fs, o, root, names + [left[0]], kid, all, k, skip, v);
    } else {
      at := ShownAll(fs, o, root, names, h, ancs, left[1..], k + |vs|, skip, v);
    }
  }

  /**
   Every opening visit of a walk is that of an entry which its root leads to through directories that are
   entered, and shows it as what it is.
  */
  lemma {:induction false} ShownWalk(fs: FileSys, o: Options, args: seq<string>, k: int, skip: SkipPlan, v: Visit)
    returns (root: string, names: seq<string>)
    requires ValidFs(fs) && "" !in args && v in WalkRoots(fs, o, args, k, skip) && v.info !in {DP, DNR}
    ensures root in args && Reached(fs, o, root, names) && Rightly(fs, o, root, names, v)
    decreases |args|
  {
    hide ValidFs, VisitTree, RootItem, Context, Reached, Rightly;
    var it := RootItem(fs, o, args[0]);
    var vs := VisitTree(fs, o, it, {}, k, skip);
    assert args[0] in args && forall a | a in args[1..] :: a in args;
    if v in vs {
      RootContext(fs, o, args[0]);
      root := args[0];
      names := ShownTree(fs, o, root, [], it, {}, k, skip, v);
    } else {
      root, names := ShownWalk(fs, o, args[1..], k + |vs|, skip, v);
    }
  }

  // ----- everything that is reached is opened

  ghost predicate Unskipped(skip: SkipPlan) {
    forall k :: !skip(k)
  }

  /** The visit opens the entry of that name in the directory of v. */
  predicate Opening(v: Visit, name: string, u: Visit) {
    u.path == Join(v.path, name) && u.level == v.level + 1 && u.info !in {DP, DNR}
  }

  lemma KidIn(fs: FileSys, o: Options, h: Item, ancs: set<Id>, names: seq<string>, k: int, skip: SkipPlan, name: string)
    requires name in names
    ensures Pre(Kid(fs, o, h, ancs, name)) in VisitAll(fs, o, h, ancs, names, k, skip)
    decreases Dirs(fs) - ancs, 2, |names|
  {
    hide Kid;
    var v := VisitTree(fs, o, Kid(fs, o, h, ancs, names[0]), ancs, k, skip);
    assert Pre(Kid(fs, o, h, ancs, names[0])) == v[0];
    if name != names[0] {
      KidIn(fs, o, h, ancs, names[1..], k + |v|, skip, name);
    }
  }

  lemma EntryTree(fs: FileSys, o: Options, it: Item, ancs: set<Id>, k: int, skip: SkipPlan, v: Visit, name: string)
    returns (u: Visit)
    requires v in VisitTree(fs, o, it, ancs, k, skip) && v.info == D && Unskipped(skip) && Descendable(fs, it, ancs)
    requires Listing(fs, o, v.st).Some? && name in Listing(fs, o, v.st).value
    ensures u in VisitTree(fs, o, it, ancs, k, skip) && Opening(v, name, u)
    decreases Dirs(fs) - ancs, 1, 0
  {
    hide Listing, VisitAll, Classify, Join;
    var listing := Listing(fs, o, it.st);
    var all := {it.st.value} + ancs;
    if v == Pre(it) {
      u := Pre(Kid(fs, o, it, all, name));
      KidIn(fs, o, it, all, listing.value, k + 1, skip, name);
    } else {
      u := EntryAll(fs, o, it, all, listing.value, k + 1, skip, v, name);
    }
  }

  lemma EntryAll(fs: FileSys, o: Options, h: Item, ancs: set<Id>, names: seq<string>, k: int, skip: SkipPlan, v: Visit,
                 name: string) returns (u: Visit)
    requires v in VisitAll(fs, o, h, ancs, names, k, skip) && v.info == D && Unskipped(skip)
    requires Listing(fs, o, v.st).Some? && name in Listing(fs, o, v.st).value
    ensures u in VisitAll(fs, o, h, ancs, names, k, skip) && Opening(v, name, u)
    decreases Dirs(fs) - ancs, 2, |names|
  {
    hide Listing, VisitTree, Kid, Opening, Descendable;
    var kid := Kid(fs, o, h, ancs, names[0]);
    var vs := VisitTree(fs, o, kid, ancs, k, skip);
    if v in vs {
      u := EntryTree(fs, o, kid, ancs, k, skip, v, name);
    } else {
      u := EntryAll(fs, o, h, ancs, names[1..], k + |vs|, skip, v, name);
    }
  }

  /** The names on the way can be read off a path. */
  lemma {:induction false} PathOnce(root: string, a: seq<string>, b: seq<string>)
    requires |a| == |b| && PathTo(root, a) == PathTo(root, b)
    requires (forall n | n in a :: ValidName(n)) && forall n | n in b :: ValidName(n)
    ensures a == b
    decreases |a|
  {
    hide ValidName, Join, Chop;
    var n := |a| - 1;
    if a != [] {
      var p, q := PathTo(root, a[..n]), PathTo(root, b[..n]);
      assert a[n] in a && b[n] in b;
      JoinOnce(p, a[n], q, b[n]);
      if n > 0 {
        assert a[..n][n - 1] == a[n - 1] && a[n - 1] in a && b[..n][n - 1] == b[n - 1] && b[n - 1] in b;
        NoTrailingSlash(PathTo(root, a[..n][..n - 1]), a[n - 1]);
        NoTrailingSlash(PathTo(root, b[..n][..n - 1]), b[n - 1]);
      }
      assert forall x | x in a[..n] :: x in a;
      assert forall x | x in b[..n] :: x in b;
      PathOnce(root, a[..n], b[..n]) by {
        assert n == 0 ==> p == root == q;
      }
      assert a == a[..n] + [a[n]] && b == b[..n] + [b[n]];
    }
  }

  lemma JoinOnce(p: string, a: string, q: string, b: string)
    requires Join(p, a) == Join(q, b) && ValidName(a) && ValidName(b)
    ensures Chop(p) == Chop(q) && a == b
  {
    var x, y := Chop(p), Chop(q);
    LastSlashJoin(x, a);
    LastSlashJoin(y, b);
    assert (x + "/" + a)[..|x|] == x && (y + "/" + b)[..|y|] == y;
    assert (x + "/" + a)[|x| + 1..] == a && (y + "/" + b)[|y| + 1..] == b;
  }

  lemma LastSlashJoin(x: string, a: string)
    requires '/' !in a
    ensures forall i | |x| < i < |x + "/" + a| :: (x + "/" + a)[i] != '/'
    ensures (x + "/" + a)[|x|] == '/'
  {
    forall i | |x| < i < |x + "/" + a| ensures (x + "/" + a)[i] != '/' {
      assert (x + "/" + a)[i] == a[i - |x| - 1] && a[i - |x| - 1] in a;
    }
  }

  lemma ReachedValid(fs: FileSys, o: Options, root: string, names: seq<string>)
    requires ValidFs(fs) && Reached(fs, o, root, names)
    ensures forall n | n in names :: ValidName(n)
  {
    hide Seen, IsAbove, ValidName;
    forall n | n in names ensures ValidName(n) {
      var j :| 0 <= j < |names| && names[j] == n;
      assert Enters(fs, o, root, names[..j], names[j]);
      ListedValid(fs, PathTo(root, names[..j]), n);
    }
  }

  lemma ListedValid(fs: FileSys, path: string, name: string)
    requires ValidFs(fs) && OpenDir(fs, path).Some? && name in OpenDir(fs, path).value
    ensures ValidName(name)
  {
    hide Stat;
    var es := Entries(fs, Stat(fs, path));
    var i :| 0 <= i < |es| && Names(es)[i] == name;
    assert ValidName(fs.inodes[Stat(fs, path).value].kind.entries[i].name);
  }

  /** Without skipped directories, every entry that a root leads to is opened. */
  lemma {:induction false} ReachedTree(fs: FileSys, o: Options, root: string, k: int, skip: SkipPlan,
                                       names: seq<string>)
    returns (v: Visit)
    requires ValidFs(fs) && root != "" && Unskipped(skip) && Reached(fs, o, root, names)
    ensures v in VisitTree(fs, o, RootItem(fs, o, root), {}, k, skip) && v.info !in {DP, DNR}
    ensures Rightly(fs, o, root, names, v)
    decreases |names|
  {
    hide ValidFs, VisitTree, RootItem, Reached, Rightly, Unskipped, Enters, PathTo;
    var it := RootItem(fs, o, root);
    RootContext(fs, o, root);
    if names == [] {
      v := Pre(it);
      FirstVisit(fs, o, it, {}, k, skip);
    } else {
      var n := |names| - 1;
      assert names == names[..n] + [names[n]];
      ReachedNext(fs, o, root, names[..n], names[n]);
      var d := ReachedTree(fs, o, root, k, skip, names[..n]);
      EnteredDir(fs, o, root, names[..n], names[n], d);
      v := EntryTree(fs, o, it, {}, k, skip, d, names[n]);
      var at := ShownTree(fs, o, root, [], it, {}, k, skip, v);
      SamePath(fs, o, root, names, d, at, v);
    }
  }

  lemma FirstVisit(fs: FileSys, o: Options, it: Item, ancs: set<Id>, k: int, skip: SkipPlan)
    ensures Pre(it) in VisitTree(fs, o, it, ancs, k, skip)
  {
  }

  lemma EnteredDir(fs: FileSys, o: Options, root: string, dir: seq<string>, name: string, d: Visit)
    requires Rightly(fs, o, root, dir, d) && Enters(fs, o, root, dir, name)
    ensures d.info == D && Listing(fs, o, d.st).Some? && name in Listing(fs, o, d.st).value
  {
    hide Lookup, IsAbove, PathTo, Kept;
    KeptIn(o, Names(Entries(fs, d.st)));
  }

  lemma SamePath(fs: FileSys, o: Options, root: string, names: seq<string>, d: Visit, at: seq<string>, v: Visit)
    requires ValidFs(fs) && Reached(fs, o, root, names) && Reached(fs, o, root, at) && names != []
    requires Rightly(fs, o, root, names[..|names| - 1], d) && Opening(d, names[|names| - 1], v)
    requires Rightly(fs, o, root, at, v)
    ensures at == names
  {
    hide ValidFs, Reached, Join, Stat, LStat, IsAbove, ValidName;
    ReachedValid(fs, o, root, names);
    ReachedValid(fs, o, root, at);
    PathOnce(root, names, at);
  }

  /**
   The walk of a root opens exactly the entries that the root leads to, each shown as what it is.
  */
  lemma WalkShows(fs: FileSys, o: Options, root: string, skip: SkipPlan, path: string)
    requires ValidFs(fs) && root != "" && Unskipped(skip)
    ensures (exists v :: v in WalkRoots(fs, o, [root], 0, skip) && v.info !in {DP, DNR} && v.path == path) <==>
            exists names :: Reached(fs, o, root, names) && PathTo(root, names) == path
  {
    hide ValidFs, VisitTree, RootItem, Reached, PathTo;
    var vs := VisitTree(fs, o, RootItem(fs, o, root), {}, 0, skip);
    assert [root][1..] == [] && WalkRoots(fs, o, [root], 0, skip) == vs + WalkRoots(fs, o, [], 0 + |vs|, skip);
    if v :| v in WalkRoots(fs, o, [root], 0, skip) && v.info !in {DP, DNR} && v.path == path {
      var r, names := ShownWalk(fs, o, [root], 0, skip, v);
    }
    if names :| Reached(fs, o, root, names) && PathTo(root, names) == path {
      var v := ReachedTree(fs, o, root, 0, skip, names);
    }
  }

  // ----- what follows the opening of a directory

  /** Some entry of the directory is to be reported. */
  predicate HasEntries(o: Options, names: seq<string>) {
    exists n | n in names :: o.seedot || !IsDot(n)
  }

  /**
   The visit after the opening of a directory: its closing if it is skipped or has no entries to report, a
   note that it cannot be read, or the opening of its first entry.
  */
  ghost predicate After(fs: FileSys, o: Options, v: Visit, skipped: bool, u: Visit) {
    if skipped then u == v.(info := DP)
    else match OpenDir(fs, v.path)
      case None => u == v.(info := DNR)
      case Some(names) =>
        if HasEntries(o, names) then u.level == v.level + 1 && u.info !in {DP, DNR} && Chop(v.path) + "/" <= u.path
        else u == v.(info := DP, path := Chop(v.path))
  }

  ghost predicate Walkable(fs: FileSys, it: Item, ancs: set<Id>) {
    Descendable(fs, it, ancs) && it.path != "" && (it.info == D ==> Stat(fs, it.path) == it.st)
  }

  lemma AfterFirst(fs: FileSys, o: Options, it: Item, ancs: set<Id>, k: int, skip: SkipPlan)
    requires ValidFs(fs) && Walkable(fs, it, ancs) && it.info == D
    ensures var vs := VisitTree(fs, o, it, ancs, k, skip);
            |vs| >= 2 && vs[0] == Pre(it) && After(fs, o, vs[0], skip(k), vs[1])
  {
    hide Stat, Classify, Kept, Names, ValidFs, VisitAll;
    var listing := Listing(fs, o, it.st);
    if !skip(k) && listing.Some? {
      ListingEmpty(fs, o, it);
      if listing.value != [] {
        var all := {it.st.value} + ancs;
        FirstOfAll(fs, o, it, all, listing.value, k + 1, skip);
        assert VisitTree(fs, o, it, ancs, k, skip)[1] == Pre(Kid(fs, o, it, all, listing.value[0]));
      }
    }
  }

  lemma FirstOfAll(fs: FileSys, o: Options, h: Item, ancs: set<Id>, names: seq<string>, k: int, skip: SkipPlan)
    requires names != []
    ensures var vs := VisitAll(fs, o, h, ancs, names, k, skip); vs != [] && vs[0] == Pre(Kid(fs, o, h, ancs, names[0]))
  {
    hide Kid;
    var v := VisitTree(fs, o, Kid(fs, o, h, ancs, names[0]), ancs, k, skip);
    assert v[0] == Pre(Kid(fs, o, h, ancs, names[0]));
    assert VisitAll(fs, o, h, ancs, names, k, skip) == v + VisitAll(fs, o, h, ancs, names[1..], k + |v|, skip);
  }

  lemma ListingEmpty(fs: FileSys, o: Options, it: Item)
    requires it.info == D && it.st.Some? && IsDir(fs, it.st.value) && Stat(fs, it.path) == it.st
    requires Listing(fs, o, it.st).Some?
    ensures OpenDir(fs, it.path).Some?
    ensures Listing(fs, o, it.st).value == [] <==> !HasEntries(o, OpenDir(fs, it.path).value)
  {
    hide Stat, Kept;
    var names := Names(Entries(fs, it.st));
    KeptIn(o, names);
    assert Kept(o, names) != [] ==> Kept(o, names)[0] in Kept(o, names);
  }

  lemma AfterTree(fs: FileSys, o: Options, it: Item, ancs: set<Id>, k: int, skip: SkipPlan, i: nat)
    requires ValidFs(fs) && Walkable(fs, it, ancs)
    requires i < |VisitTree(fs, o, it, ancs, k, skip)| && VisitTree(fs, o, it, ancs, k, skip)[i].info == D
    ensures var vs := VisitTree(fs, o, it, ancs, k, skip);
            i + 1 < |vs| && After(fs, o, vs[i], skip(k + i), vs[i + 1])
    decreases Dirs(fs) - ancs, 1, 0
  {
    hide ValidFs, VisitAll, After, Listing, Chop, Stat;
    var vs := VisitTree(fs, o, it, ancs, k, skip);
    if i == 0 {
      AfterFirst(fs, o, it, ancs, k, skip);
    } else {
      var listing := Listing(fs, o, it.st);
      var all := {it.st.value} + ancs;
      var us := VisitAll(fs, o, it, all, listing.value, k + 1, skip);
      assert vs == [Pre(it)] + (us + [Post(it)]);
      assert i - 1 < |us| && vs[i] == us[i - 1];
      ListingValid(fs, o, it.st);
      AfterAll(fs, o, it, all, listing.value, k + 1, skip, i - 1);
      assert vs[i + 1] == us[i];
    }
  }

  lemma AfterAll(fs: FileSys, o: Options, h: Item, ancs: set<Id>, names: seq<string>, k: int, skip: SkipPlan, i: nat)
    requires ValidFs(fs) && h.info == D && h.st.Some? && IsDir(fs, h.st.value)
    requires Stat(fs, h.path) == h.st && h.path != ""
    requires forall n | n in names :: ValidName(n)
    requires i < |VisitAll(fs, o, h, ancs, names, k, skip)| && VisitAll(fs, o, h, ancs, names, k, skip)[i].info == D
    ensures var vs := VisitAll(fs, o, h, ancs, names, k, skip);
            i + 1 < |vs| && After(fs, o, vs[i], skip(k + i), vs[i + 1])
    decreases Dirs(fs) - ancs, 2, |names|
  {
    hide ValidFs, VisitTree, After, Classify, Stat, Join, ValidName, Find;
    var kid := Kid(fs, o, h, ancs, names[0]);
    var vs := VisitTree(fs, o, kid, ancs, k, skip);
    assert names[0] in names && forall n | n in names[1..] :: n in names;
    if i < |vs| {
      KidIsGood(fs, o, h, ancs, names[0]);
      AfterTree(fs, o, kid, ancs, k, skip, i);
    } else {
      AfterAll(fs, o, h, ancs, names[1..], k + |vs|, skip, i - |vs|);
    }
  }

  /** What follows the opening of each directory of a walk. */
  lemma {:induction false} AfterWalk(fs: FileSys, o: Options, args: seq<string>, k: int, skip: SkipPlan, i: nat)
    requires ValidFs(fs) && "" !in args
    requires i < |WalkRoots(fs, o, args, k, skip)| && WalkRoots(fs, o, args, k, skip)[i].info == D
    ensures var vs := WalkRoots(fs, o, args, k, skip);
            i + 1 < |vs| && After(fs, o, vs[i], skip(k + i), vs[i + 1])
    decreases |args|
  {
    hide ValidFs, VisitTree, RootItem, After, Stat;
    var it := RootItem(fs, o, args[0]);
    var vs := VisitTree(fs, o, it, {}, k, skip);
    assert args[0] in args && forall a | a in args[1..] :: a in args;
    if i < |vs| {
      RootIsGood(fs, o, args[0]);
      AfterTree(fs, o, it, {}, k, skip, i);
    } else {
      AfterWalk(fs, o, args[1..], k + |vs|, skip, i - |vs|);
    }
  }

  // ----- directories that cannot be read

  /** A note that a directory cannot be read follows the opening of a directory that cannot be read. */
  lemma UnreadTree(fs: FileSys, o: Options, it: Item, ancs: set<Id>, k: int, skip: SkipPlan, v: Visit)
    requires v in VisitTree(fs, o, it, ancs, k, skip) && v.info == DNR && it.info !in {DNR, DP}
    ensures v.(info := D) in VisitTree(fs, o, it, ancs, k, skip) && Listing(fs, o, v.st).None?
    decreases Dirs(fs) - ancs, 1, 0
  {
    hide VisitAll, Listing;
    var listing := Listing(fs, o, it.st);
    if listing.None? {
      assert v.(info := D) == Pre(it);
    } else {
      UnreadAll(fs, o, it, {it.st.value} + ancs, listing.value, k + 1, skip, v);
    }
  }

  lemma UnreadAll(fs: FileSys, o: Options, h: Item, ancs: set<Id>, names: seq<string>, k: int, skip: SkipPlan, v: Visit)
    requires v in VisitAll(fs, o, h, ancs, names, k, skip) && v.info == DNR
    ensures v.(info := D) in VisitAll(fs, o, h, ancs, names, k, skip) && Listing(fs, o, v.st).None?
    decreases Dirs(fs) - ancs, 2, |names|
  {
    hide VisitTree, Listing, Classify;
    var kid := Kid(fs, o, h, ancs, names[0]);
    var vs := VisitTree(fs, o, kid, ancs, k, skip);
    if v in vs {
      UnreadTree(fs, o, kid, ancs, k, skip, v);
    } else {
      UnreadAll(fs, o, h, ancs, names[1..], k + |vs|, skip, v);
    }
  }

  /** The entry has no inode, or is a directory that cannot be read or lies on the way to itself. */
  ghost predicate BadEntry(fs: FileSys, o: Options, root: string, names: seq<string>) {
    var path, seen := PathTo(root, names), Seen(fs, o, root, names);
    || LStat(fs, path).None?
    || (seen.Some? && IsDir(fs, seen.value) && (OpenDir(fs, path).None? || IsAbove(fs, root, names, seen.value)))
  }

  predicate BadInfo(info: Info) {
    info in {NS, DNR, DC}
  }

  lemma BadSeen(fs: FileSys, o: Options, root: string, names: seq<string>, v: Visit)
    requires Rightly(fs, o, root, names, v) && (v.info in {NS, DC} || (v.info == D && Listing(fs, o, v.st).None?))
    ensures BadEntry(fs, o, root, names)
  {
    hide Lookup, IsAbove, PathTo, Kept;
  }

  lemma SeenBad(fs: FileSys, o: Options, root: string, names: seq<string>, v: Visit)
    requires Rightly(fs, o, root, names, v) && BadEntry(fs, o, root, names) && !DotBelow(names)
    ensures v.info in {NS, DC} || (v.info == D && OpenDir(fs, v.path).None?)
  {
    hide Lookup, IsAbove, PathTo, Names;
  }

  lemma ReachedPlain(fs: FileSys, o: Options, root: string, names: seq<string>)
    requires Reached(fs, o, root, names) && !o.seedot
    ensures !DotBelow(names)
  {
    hide Seen, IsAbove;
    if names != [] {
      assert Enters(fs, o, root, names[..|names| - 1], names[|names| - 1]);
    }
  }

  /** A walk without skipped directories meets something bad exactly if its root leads to a bad entry. */
  lemma BadInTree(fs: FileSys, o: Options, root: string, skip: SkipPlan)
    requires ValidFs(fs) && root != "" && Unskipped(skip) && !o.seedot
    ensures (exists v :: v in WalkRoots(fs, o, [root], 0, skip) && BadInfo(v.info)) <==>
            exists names :: Reached(fs, o, root, names) && BadEntry(fs, o, root, names)
  {
    hide ValidFs, VisitTree, RootItem, Reached, Rightly, BadEntry, Listing, After, Unskipped, WalkRoots;
    var it := RootItem(fs, o, root);
    var vs := WalkRoots(fs, o, [root], 0, skip);
    OneRoot(fs, o, root, skip);
    RootContext(fs, o, root);
    if v :| v in vs && BadInfo(v.info) {
      if v.info == DNR {
        UnreadTree(fs, o, it, {}, 0, skip, v);
        var r, names := ShownWalk(fs, o, [root], 0, skip, v.(info := D));
        BadSeen(fs, o, root, names, v.(info := D));
      } else {
        var r, names := ShownWalk(fs, o, [root], 0, skip, v);
        BadSeen(fs, o, root, names, v);
      }
    }
    if names :| Reached(fs, o, root, names) && BadEntry(fs, o, root, names) {
      var v := ReachedTree(fs, o, root, 0, skip, names);
      ReachedPlain(fs, o, root, names);
      SeenBad(fs, o, root, names, v);
      if v.info == D {
        var i :| 0 <= i < |vs| && vs[i] == v;
        AfterWalk(fs, o, [root], 0, skip, i);
        Unread(fs, o, v, skip, 0 + i, vs[i + 1]);
      }
    }
  }

  lemma OneRoot(fs: FileSys, o: Options, root: string, skip: SkipPlan)
    ensures WalkRoots(fs, o, [root], 0, skip) == VisitTree(fs, o, RootItem(fs, o, root), {}, 0, skip)
  {
    hide VisitTree, RootItem;
    var vs := VisitTree(fs, o, RootItem(fs, o, root), {}, 0, skip);
    assert [root][1..] == [] && WalkRoots(fs, o, [root], 0, skip) == vs + WalkRoots(fs, o, [], 0 + |vs|, skip);
  }

  lemma Unread(fs: FileSys, o: Options, v: Visit, skip: SkipPlan, k: int, u: Visit)
    requires After(fs, o, v, skip(k), u) && Unskipped(skip) && OpenDir(fs, v.path).None?
    ensures u.info == DNR
  {
    hide Stat;
  }
}
