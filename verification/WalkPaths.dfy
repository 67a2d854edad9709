/** Where the visits of the recursive walk lie: each entry below a root once, under its own path name. */
module WalkPaths {
  import opened FileSystem
  import opened WalkSpec
  import opened WalkProofs

  // ----- a path is the root and the names on the way

  function Joined(root: string, names: seq<string>): string
    decreases |names|
  {
    if names == [] then root else Joined(root + "/" + names[0], names[1..])
  }

  ghost predicate Located(path: string, level: int, v: Visit) {
    exists names: seq<string> :: IsAt(path, level, v, names)
  }

  ghost predicate IsAt(path: string, level: int, v: Visit, names: seq<string>) {
    && (forall n | n in names :: ValidName(n))
    && v.level == level + |names| && v.path == Joined(path, names)
  }

  ghost predicate Plain(path: string) {
    path != "" && Chop(path) == path
  }

  lemma KidPlain(path: string, name: string)
    requires Plain(path) && ValidName(name)
    ensures Join(path, name) == path + "/" + name && Plain(Join(path, name))
  {
    NoTrailingSlash(path, name);
  }

  lemma LocatedBelow(path: string, level: int, name: string, v: Visit)
    requires ValidName(name) && Located(path + "/" + name, level + 1, v)
    ensures Located(path, level, v)
  {
    var names :| IsAt(path + "/" + name, level + 1, v, names);
    assert ([name] + names)[1..] == names;
    assert IsAt(path, level, v, [name] + names);
  }

  lemma LocatedHere(path: string, v: Visit)
    requires v.path == path
    ensures Located(path, v.level, v)
  {
    assert IsAt(path, v.level, v, []);
  }

  lemma PathsTree(fs: FileSys, o: Options, it: Item, ancs: set<Id>, k: int, skip: SkipPlan, v: Visit)
    requires ValidFs(fs) && Plain(it.path) && v in VisitTree(fs, o, it, ancs, k, skip)
    ensures Located(it.path, it.level, v)
    decreases Dirs(fs) - ancs, 1, 0
  {
    hide ValidFs, Located, Listing, VisitAll, Plain, Classify;
    PlainChop(it.path);
    if v.path == it.path && v.level == it.level {
      LocatedHere(it.path, v);
    } else {
      var listing := Listing(fs, o, it.st);
      var d := it.st.value;
      ListingValid(fs, o, it.st);
      PathsAll(fs, o, it, {d} + ancs, listing.value, k + 1, skip, v);
    }
  }

  lemma PlainChop(path: string)
    requires Plain(path)
    ensures Chop(path) == path
  {
  }

  lemma PathsAll(fs: FileSys, o: Options, h: Item, ancs: set<Id>, names: seq<string>, k: int, skip: SkipPlan, v: Visit)
    requires ValidFs(fs) && Plain(h.path) && (forall n | n in names :: ValidName(n))
    requires v in VisitAll(fs, o, h, ancs, names, k, skip)
    ensures exists n | n in names :: Located(h.path + "/" + n, h.level + 1, v)
    ensures Located(h.path, h.level, v)
    decreases Dirs(fs) - ancs, 2, |names|
  {
    hide ValidFs, Located, VisitTree, Plain, Classify, ValidName, Join;
    var kid := Kid(fs, o, h, ancs, names[0]);
    var vs := VisitTree(fs, o, kid, ancs, k, skip);
    assert names[0] in names && forall n | n in names[1..] :: n in names;
    if v in vs {
      KidPlain(h.path, names[0]);
      PathsTree(fs, o, kid, ancs, k, skip, v);
      LocatedBelow(h.path, h.level, names[0], v);
    } else {
      PathsAll(fs, o, h, ancs, names[1..], k + |vs|, skip, v);
    }
  }

  /**
   For roots that do not end in a slash, every reported path is a root followed by the names of the
   components, joined by single slashes, and fts_level counts them.
  */
  lemma {:induction false} PathsWalk(fs: FileSys, o: Options, args: seq<string>, k: int, skip: SkipPlan, v: Visit)
    requires ValidFs(fs) && (forall a | a in args :: Plain(a)) && v in WalkRoots(fs, o, args, k, skip)
    ensures exists a | a in args :: Located(a, ROOTLEVEL, v)
  {
    hide ValidFs, Located, VisitTree, Plain, Classify, Lookup;
    var it := RootItem(fs, o, args[0]);
    var vs := VisitTree(fs, o, it, {}, k, skip);
    assert args[0] in args && forall a | a in args[1..] :: a in args;
    if v in vs {
      PathsTree(fs, o, it, {}, k, skip, v);
    } else {
      PathsWalk(fs, o, args[1..], k + |vs|, skip, v);
    }
  }

  // ----- each path once

  ghost predicate Under(p: string, q: string) {
    q == p || (|q| > |p| && q[..|p|] == p && q[|p|] == '/')
  }

  lemma {:induction false} JoinedUnder(root: string, names: seq<string>)
    ensures Under(root, Joined(root, names))
    ensures names != [] ==> |Joined(root, names)| > |root|
    decreases |names|
  {
    if names != [] {
      var r := root + "/" + names[0];
      JoinedUnder(r, names[1..]);
      assert r[..|root|] == root;
      var q := Joined(r, names[1..]);
      assert q[..|r|] == r && q[..|root|] == q[..|r|][..|root|] && q[|root|] == q[..|r|][|root|];
    }
  }

  /** The first component of a relative path. */
  function FirstName(s: string): string {
    if s == "" || s[0] == '/' then "" else [s[0]] + FirstName(s[1..])
  }

  lemma {:induction false} FirstNameIs(s: string, a: string)
    requires '/' !in a && Under(a, s)
    ensures FirstName(s) == a
  {
    if a != "" {
      assert s[0] == s[..|a|][0] == a[0];
      assert s[1..][..|a| - 1] == s[..|a|][1..];
      FirstNameIs(s[1..], a[1..]);
    }
  }

  lemma UnderOne(path: string, a: string, b: string, q: string)
    requires '/' !in a && '/' !in b && Under(path + "/" + a, q) && Under(path + "/" + b, q)
    ensures a == b
  {
    UnderTail(path, a, q);
    UnderTail(path, b, q);
    FirstNameIs(q[|path| + 1..], a);
    FirstNameIs(q[|path| + 1..], b);
  }

  lemma UnderTail(path: string, a: string, q: string)
    requires Under(path + "/" + a, q)
    ensures |q| > |path| && Under(a, q[|path| + 1..])
  {
    var n := |path| + 1;
    var x := path + "/" + a;
    assert x[n..] == a && q[..|x|] == x;
    assert q[n..][..|a|] == q[..|x|][n..];
  }

  /** The paths of all visits but the closing ones. */
  ghost function Opens(vs: seq<Visit>): seq<string> {
    if vs == [] then []
    else (if vs[0].info in {DP, DNR} then [] else [vs[0].path]) + Opens(vs[1..])
  }

  lemma {:induction false} OpensCat(a: seq<Visit>, b: seq<Visit>)
    ensures Opens(a + b) == Opens(a) + Opens(b)
  {
    if a == [] {
      assert a + b == b;
    } else {
      assert (a + b)[1..] == a[1..] + b;
      OpensCat(a[1..], b);
    }
  }

  lemma OpensHead(v: Visit, vs: seq<Visit>)
    requires v.info !in {DP, DNR}
    ensures Opens([v] + vs) == [v.path] + Opens(vs)
  {
    assert ([v] + vs)[1..] == vs;
  }

  lemma {:induction false} OpensIn(vs: seq<Visit>, p: string) returns (v: Visit)
    requires p in Opens(vs)
    ensures v in vs && v.path == p && v.info !in {DP, DNR}
  {
    if vs[0].info !in {DP, DNR} && vs[0].path == p {
      v := vs[0];
    } else {
      v := OpensIn(vs[1..], p);
    }
  }

  ghost predicate NoDup(ps: seq<string>) {
    forall i, j | 0 <= i < j < |ps| :: ps[i] != ps[j]
  }

  lemma NoneTwice(names: seq<string>)
    requires NoDup(names)
    ensures if names == [] then NoDup(Opens([])) else NoDup(names[1..])
  {
  }

  lemma NoDupCat(a: seq<string>, b: seq<string>)
    requires NoDup(a) && NoDup(b) && forall p | p in a :: p !in b
    ensures NoDup(a + b)
  {
    forall i, j | 0 <= i < j < |a + b| ensures (a + b)[i] != (a + b)[j] {
      if i < |a| <= j {
        assert a[i] in a && b[j - |a|] in b;
      }
    }
  }

  /** readdir(3) reports no name twice. */
  ghost predicate DistinctNames(fs: FileSys) {
    forall id | IsDir(fs, id) :: NoDup(Names(fs.inodes[id].kind.entries))
  }

  lemma {:induction false} KeptOnce(o: Options, names: seq<string>)
    requires NoDup(names)
    ensures NoDup(Kept(o, names))
  {
    if names != [] {
      KeptOnce(o, names[1..]);
      KeptIn(o, names[1..]);
      forall j | 0 <= j < |names[1..]| ensures names[1..][j] != names[0] {
        assert names[1..][j] == names[j + 1];
      }
    }
  }

  lemma OnceTree(fs: FileSys, o: Options, it: Item, ancs: set<Id>, k: int, skip: SkipPlan)
    requires ValidFs(fs) && DistinctNames(fs) && Plain(it.path) && it.info !in {DP, DNR}
    ensures NoDup(Opens(VisitTree(fs, o, it, ancs, k, skip)))
    decreases Dirs(fs) - ancs, 1, 0
  {
    hide ValidFs, DistinctNames, Listing, VisitAll, Plain, Located;
    var inner := Inside(fs, o, it, ancs, k, skip);
    OpensHead(Pre(it), inner);
    var listing := Listing(fs, o, it.st);
    if it.info == D && Descendable(fs, it, ancs) && !skip(k) && listing.Some? && listing.value != [] {
      var names := listing.value;
      var ancs' := {it.st.value} + ancs;
      var all := VisitAll(fs, o, it, ancs', names, k + 1, skip);
      ListingValid(fs, o, it.st);
      ListingOnce(fs, o, it.st);
      OnceAll(fs, o, it, ancs', names, k + 1, skip);
      OpensCat(all, [Post(it)]);
      assert Opens([Post(it)]) == [];
      forall p | p in Opens(all) ensures p != it.path {
        var n := OpensUnder(fs, o, it, ancs', names, k + 1, skip, p);
      }
      assert Opens(inner) == Opens(all);
      NoDupCat([it.path], Opens(all));
    } else {
      assert inner == [] || (|inner| == 1 && inner[0].info in {DP, DNR} && inner[1..] == []);
      assert Opens(inner) == [];
    }
  }

  lemma ListingOnce(fs: FileSys, o: Options, st: Option<Id>)
    requires DistinctNames(fs) && Listing(fs, o, st).Some?
    ensures NoDup(Listing(fs, o, st).value)
  {
    KeptOnce(o, Names(Entries(fs, st)));
  }

  lemma LocatedUnder(path: string, level: int, v: Visit)
    requires Located(path, level, v)
    ensures Under(path, v.path)
  {
    var names :| IsAt(path, level, v, names);
    JoinedUnder(path, names);
  }

  lemma OpensUnder(fs: FileSys, o: Options, h: Item, ancs: set<Id>, names: seq<string>, k: int, skip: SkipPlan,
                   p: string)
    returns (n: string)
    requires ValidFs(fs) && Plain(h.path) && (forall n | n in names :: ValidName(n))
    requires p in Opens(VisitAll(fs, o, h, ancs, names, k, skip))
    ensures n in names && Under(h.path + "/" + n, p)
  {
    hide ValidFs, VisitAll, Plain, ValidName, Opens, Located;
    var v := OpensIn(VisitAll(fs, o, h, ancs, names, k, skip), p);
    PathsAll(fs, o, h, ancs, names, k, skip, v);
    n :| n in names && Located(h.path + "/" + n, h.level + 1, v);
    LocatedUnder(h.path + "/" + n, h.level + 1, v);
  }

  lemma OnceAll(fs: FileSys, o: Options, h: Item, ancs: set<Id>, names: seq<string>, k: int, skip: SkipPlan)
    requires ValidFs(fs) && DistinctNames(fs) && Plain(h.path)
    requires NoDup(names) && forall n | n in names :: ValidName(n)
    ensures NoDup(Opens(VisitAll(fs, o, h, ancs, names, k, skip)))
    decreases Dirs(fs) - ancs, 2, |names|
  {
    hide ValidFs, DistinctNames, VisitTree, Plain, Classify, Join, Opens, NoDup, ValidName;
    if names == [] {
      NoneTwice(names);
    } else {
      var kid := Kid(fs, o, h, ancs, names[0]);
      var v := VisitTree(fs, o, kid, ancs, k, skip);
      var rest := VisitAll(fs, o, h, ancs, names[1..], k + |v|, skip);
      NoneTwice(names);
      assert names[0] in names && forall n | n in names[1..] :: n in names;
      KidPlain(h.path, names[0]);
      OnceTree(fs, o, kid, ancs, k, skip);
      OnceAll(fs, o, h, ancs, names[1..], k + |v|, skip);
      OpensCat(v, rest);
      forall p | p in Opens(v) ensures p !in Opens(rest) {
        OnceApart(fs, o, h, ancs, names, k, skip, p);
      }
      NoDupCat(Opens(v), Opens(rest));
    }
  }

  /** What is reported below the first entry is not reported below the others. */
  lemma OnceApart(fs: FileSys, o: Options, h: Item, ancs: set<Id>, names: seq<string>, k: int, skip: SkipPlan,
                  p: string)
    requires ValidFs(fs) && DistinctNames(fs) && Plain(h.path)
    requires NoDup(names) && names != [] && forall n | n in names :: ValidName(n)
    requires p in Opens(VisitTree(fs, o, Kid(fs, o, h, ancs, names[0]), ancs, k, skip))
    ensures var v := VisitTree(fs, o, Kid(fs, o, h, ancs, names[0]), ancs, k, skip);
            p !in Opens(VisitAll(fs, o, h, ancs, names[1..], k + |v|, skip))
  {
    hide ValidFs, DistinctNames, Located, VisitTree, VisitAll, Plain, Classify, Under, Find, Opens;
    var kid := Kid(fs, o, h, ancs, names[0]);
    var v := VisitTree(fs, o, kid, ancs, k, skip);
    var rest := VisitAll(fs, o, h, ancs, names[1..], k + |v|, skip);
    assert names[0] in names && forall n | n in names[1..] :: n in names;
    KidPlain(h.path, names[0]);
    if p in Opens(rest) {
      var n := OpensUnder(fs, o, h, ancs, names[1..], k + |v|, skip, p);
      var x := OpensIn(v, p);
      PathsTree(fs, o, kid, ancs, k, skip, x);
      LocatedUnder(kid.path, kid.level, x);
      UnderOne(h.path, names[0], n, p);
    }
  }

  /** Below one root, no path name is reported twice, closing visits aside. */
  lemma OnceWalk(fs: FileSys, o: Options, arg: string, skip: SkipPlan)
    requires ValidFs(fs) && DistinctNames(fs) && Plain(arg)
    ensures NoDup(Opens(WalkRoots(fs, o, [arg], 0, skip)))
  {
    hide ValidFs, DistinctNames, Plain, VisitTree, Classify, Lookup;
    var it := RootItem(fs, o, arg);
    OnceTree(fs, o, it, {}, 0, skip);
    var v := VisitTree(fs, o, it, {}, 0, skip);
    assert WalkRoots(fs, o, [arg], 0, skip) == v + [];
    assert v + [] == v;
  }

  // ----- roots that end in a slash

  /**
   The closing visit of an empty directory shows the path of its opening visit if and only if the
   path does not end in a slash: a root given as "dir/" is closed as "dir".
  */
  lemma EmptyRootClosing(fs: FileSys, o: Options, arg: string, skip: SkipPlan)
    requires arg != "" && RootItem(fs, o, arg).info == D && !skip(0)
    requires Listing(fs, o, RootItem(fs, o, arg).st) == Some([])
    ensures var vs := WalkRoots(fs, o, [arg], 0, skip);
            && |vs| == 2 && vs[0].path == arg
            && (vs[1].path == vs[0].path <==> arg[|arg| - 1] != '/')
  {
    hide Listing, Classify, Lookup;
    var it := RootItem(fs, o, arg);
    assert [arg][1..] == [];
    assert WalkRoots(fs, o, [arg], 0, skip) == VisitTree(fs, o, it, {}, 0, skip) + WalkRoots(fs, o, [], 2, skip);
  }

  /** A root directory with the empty directory d. */
  const EMPTY_DIR := FileSys(
    map[Id(1, 1) := Inode(Dir(true, [Entry("d", Id(1, 2))]), Attr(0x1ED, 3, 0, 0, 0, 0, 0)),
        Id(1, 2) := Inode(Dir(true, []), Attr(0x1ED, 2, 0, 0, 0, 0, 0))],
    Id(1, 1), Id(1, 1))

  /** Its walk as d/ opens under one name and closes under another. */
  lemma EmptyRootRenamed()
    ensures var vs := WalkRoots(EMPTY_DIR, Options(false, true, false), ["/d/"], 0, _ => false);
            |vs| == 2 && vs[0].path == "/d/" && vs[1].path != "/d/"
  {
    hide WalkRoots;
    var o := Options(false, true, false);
    EmptyRootFound();
    EmptyRootClosing(EMPTY_DIR, o, "/d/", _ => false);
  }

  lemma EmptyRootFound()
    ensures var it := RootItem(EMPTY_DIR, Options(false, true, false), "/d/");
            it.info == D && Listing(EMPTY_DIR, Options(false, true, false), it.st) == Some([])
  {
    var fs := EMPTY_DIR;
    assert "" + "/" + "d" == "/d" && "/d" + "/" + "" == "/d/";
    LookupIn(fs, "", "d");
    LookupIn(fs, "/d", "");
    assert Follow(fs, "") == Some(Id(1, 1)) && Lookup(fs, "/d") == Some(Id(1, 2));
    assert Follow(fs, "/d") == Some(Id(1, 2)) && Lookup(fs, "/d/") == Some(Id(1, 2));
    assert Names([]) == [] && Kept(Options(false, true, false), []) == [];
  }
}
