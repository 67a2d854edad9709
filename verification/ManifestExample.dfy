/** A glob pattern one of whose matches is added in part, without a mark. */
module ManifestExample {
  import opened CStrings
  import opened FileSystem
  import opened WalkSpec
  import opened WalkPaths
  import opened Manifest
  import opened ManifestProofs

  const ROOT := Id(1, 1)
  const DIR := Id(1, 2)
  const SUB := Id(1, 3)
  const INNER := Id(1, 4)
  const OUTER := Id(1, 5)

  const ATTR := Attr(0x1ED, 1, 0, 0, 0, 100, 0)

  /** The directory /d with a subdirectory x that cannot be read and a file f, and the file /e. */
  const TREE := FileSys(
    map[ROOT := Inode(Dir(true, [Entry("d", DIR), Entry("e", OUTER)]), ATTR),
        DIR := Inode(Dir(true, [Entry("x", SUB), Entry("f", INNER)]), ATTR),
        SUB := Inode(Dir(false, []), ATTR),
        INNER := Inode(Reg, ATTR),
        OUTER := Inode(Reg, ATTR)],
    ROOT, ROOT)

  /** A directory of two entries, the first one a directory that cannot be read. */
  lemma WholeOfTwo(fs: FileSys, path: string, d: Id, a: string, b: string, sub: Id, inner: Id)
    requires RootItem(fs, RECURSE_OPTIONS, path) == Item(path, path, D, Some(d), 0) && IsDir(fs, d)
    requires Listing(fs, RECURSE_OPTIONS, Some(d)) == Some([a, b])
    requires var h := RootItem(fs, RECURSE_OPTIONS, path);
             && Kid(fs, RECURSE_OPTIONS, h, {d}, a) == Item(Join(path, a), a, D, Some(sub), 1)
             && Kid(fs, RECURSE_OPTIONS, h, {d}, b) == Item(Join(path, b), b, F, Some(inner), 1)
    requires Listing(fs, RECURSE_OPTIONS, Some(sub)) == None && Listing(fs, RECURSE_OPTIONS, Some(inner)) == None
    ensures Whole(fs, path) == [Visit(D, path, Some(d), 0), Visit(D, Join(path, a), Some(sub), 1),
                                Visit(DNR, Join(path, a), Some(sub), 1), Visit(F, Join(path, b), Some(inner), 1),
                                Visit(DP, path, Some(d), 0)]
  {
    hide Listing, Kid, RootItem, Join, Whole, VisitAll;
    var o, h := RECURSE_OPTIONS, RootItem(fs, RECURSE_OPTIONS, path);
    var ka, kb := Kid(fs, o, h, {d}, a), Kid(fs, o, h, {d}, b);
    WholeIsTree(fs, path);
    assert {d} + {} == {d};
    var va, vb := VisitTree(fs, o, ka, {d}, 1, NoSkip()), VisitTree(fs, o, kb, {d}, 3, NoSkip());
    TreeOfOne(fs, o, ka, {d}, 1);
    TreeOfOne(fs, o, kb, {d}, 3);
    AllOfTwo(fs, o, h, {d}, a, b);
    assert Inside(fs, o, h, {}, 0, NoSkip()) == VisitAll(fs, o, h, {d}, [a, b], 1, NoSkip()) + [Post(h)];
    assert VisitAll(fs, o, h, {d}, [a, b], 1, NoSkip()) == va + vb;
  }

  lemma TreeOfOne(fs: FileSys, o: Options, it: Item, ancs: set<Id>, k: int)
    requires Listing(fs, o, it.st) == None && Descendable(fs, it, ancs)
    ensures VisitTree(fs, o, it, ancs, k, NoSkip()) ==
            if it.info == D then [Pre(it), Visit(DNR, it.path, it.st, it.level)] else [Pre(it)]
  {
    hide Listing, VisitAll;
  }

  lemma AllOfTwo(fs: FileSys, o: Options, h: Item, ancs: set<Id>, a: string, b: string)
    ensures var v := VisitTree(fs, o, Kid(fs, o, h, ancs, a), ancs, 1, NoSkip());
            VisitAll(fs, o, h, ancs, [a, b], 1, NoSkip()) ==
            v + VisitTree(fs, o, Kid(fs, o, h, ancs, b), ancs, 1 + |v|, NoSkip())
  {
    hide VisitTree, Kid;
    assert [b][1..] == [];
    var v := VisitTree(fs, o, Kid(fs, o, h, ancs, a), ancs, 1, NoSkip());
    var u := VisitTree(fs, o, Kid(fs, o, h, ancs, b), ancs, 1 + |v|, NoSkip());
    assert VisitAll(fs, o, h, ancs, [], 1 + |v| + |u|, NoSkip()) == [];
    assert VisitAll(fs, o, h, ancs, [b], 1 + |v|, NoSkip()) ==
           u + VisitAll(fs, o, h, ancs, [b][1..], 1 + |v| + |u|, NoSkip());
    assert [a, b][0] == a && [a, b][1..] == [b];
    assert VisitAll(fs, o, h, ancs, [a, b], 1, NoSkip()) ==
           v + VisitAll(fs, o, h, ancs, [a, b][1..], 1 + |v|, NoSkip());
  }

  lemma TreeValid()
    ensures ValidFs(TREE)
  {
    hide Mode;
    assert ValidMode(Inode(Reg, ATTR)) && forall r, es :: ValidMode(Inode(Dir(r, es), ATTR));
    assert NoNul("d") && NoNul("e") && NoNul("x") && NoNul("f");
    assert ValidName("d") && ValidName("e") && ValidName("x") && ValidName("f");
  }

  lemma TreePaths()
    ensures Lookup(TREE, "/d") == Some(DIR) && Lookup(TREE, "/e") == Some(OUTER)
    ensures Listing(TREE, RECURSE_OPTIONS, Some(DIR)) == Some(["x", "f"])
            && Listing(TREE, RECURSE_OPTIONS, Some(SUB)) == None
  {
    hide Lookup;
    LookupIn(TREE, "", "d");
    LookupIn(TREE, "", "e");
    assert "" + "/" + "d" == "/d" && "" + "/" + "e" == "/e";
    FollowRoot();
    TwoKept("x", "f");
    var es := [Entry("x", SUB), Entry("f", INNER)];
    assert Entries(TREE, Some(DIR)) == es;
    assert Names(es) == ["x", "f"];
    assert Find(Entries(TREE, Some(ROOT)), "d") == Some(DIR);
    FoundSecond("d", DIR, "e", OUTER);
  }

  lemma FoundSecond(a: string, p: Id, b: string, q: Id)
    requires a != b
    ensures Find([Entry(a, p), Entry(b, q)], a) == Some(p) && Find([Entry(a, p), Entry(b, q)], b) == Some(q)
  {
    assert [Entry(a, p), Entry(b, q)][1..] == [Entry(b, q)];
  }

  lemma FollowRoot()
    ensures Follow(TREE, "") == Some(ROOT)
  {
    hide Lookup;
  }

  lemma TwoKept(a: string, b: string)
    requires !IsDot(a) && !IsDot(b)
    ensures Kept(RECURSE_OPTIONS, [a, b]) == [a, b]
  {
    hide IsDot;
    assert [a, b][1..] == [b] && [b][1..] == [];
    assert Kept(RECURSE_OPTIONS, [b]) == [b] + Kept(RECURSE_OPTIONS, [b][1..]);
    assert Kept(RECURSE_OPTIONS, [a, b]) == [a] + Kept(RECURSE_OPTIONS, [a, b][1..]);
  }

  lemma LeafListing()
    ensures Listing(TREE, RECURSE_OPTIONS, Some(INNER)) == None
  {
    hide Kept;
  }

  /** The five visits of the walk of /d. */
  lemma WholeOfTree()
    ensures Whole(TREE, "/d") ==
            [Visit(D, "/d", Some(DIR), 0), Visit(D, "/d/x", Some(SUB), 1), Visit(DNR, "/d/x", Some(SUB), 1),
             Visit(F, "/d/f", Some(INNER), 1), Visit(DP, "/d", Some(DIR), 0)]
  {
    hide Lookup, Whole, Listing;
    TreePaths();
    var h := RootItem(TREE, RECURSE_OPTIONS, "/d");
    assert h == Item("/d", "/d", D, Some(DIR), 0);
    FoundSecond("x", SUB, "f", INNER);
    assert Chop("/d") == "/d" && "/d" + "/" + "x" == "/d/x" && "/d" + "/" + "f" == "/d/f";
    assert Listing(TREE, RECURSE_OPTIONS, Some(INNER)) == None by {
      LeafListing();
    }
    WholeOfTwo(TREE, "/d", DIR, "x", "f", SUB, INNER);
  }

  lemma ReportedOfTree()
    ensures ValidFs(TREE) && Openable("/d") && Reported(TREE, "/d").0 == Whole(TREE, "/d")
  {
    hide Reported, Whole, ValidFs;
    TreeValid();
    WholeOfTree();
    LimitedRun(TREE, "/d");
    ReportedIsWhole(TREE, "/d");
  }

  lemma TakenOfThree(c: Context, cur: FileEntry, vs: seq<Visit>)
    requires |vs| > 2 && ActOn(c, cur, vs[0]).Take? && ActOn(c, cur, vs[1]).Take? && ActOn(c, cur, vs[2]).Break?
    ensures Taken(c, cur, vs) == [ActOn(c, cur, vs[0]).rec, ActOn(c, cur, vs[1]).rec] && Verdict(c, cur, vs) == Break
  {
    hide ActOn;
    assert vs[1..][1..] == vs[2..] && vs[1..][0] == vs[1] && vs[2..][0] == vs[2];
    assert Taken(c, cur, vs[2..]) == [] && Verdict(c, cur, vs[2..]) == Break;
    assert Taken(c, cur, vs[1..]) == [ActOn(c, cur, vs[1]).rec] + Taken(c, cur, vs[1..][1..]);
    assert Verdict(c, cur, vs[1..]) == Break;
  }

  /** The recursion into /d takes two records and breaks off at the unreadable directory. */
  lemma TakenOfTree(c: Context, cur: FileEntry)
    requires c.fs == TREE && c.buildRoot == ""
    ensures Taken(c, cur, Whole(TREE, "/d")) ==
            [Record(c, cur, "/d", StatOf(TREE, DIR)), Record(c, cur, "/d/x", StatOf(TREE, SUB))]
    ensures Verdict(c, cur, Whole(TREE, "/d")) == Break
  {
    hide Record, StatOf, Whole;
    WholeOfTree();
    var vs := Whole(TREE, "/d");
    assert ActOn(c, cur, vs[0]) == Take(Record(c, cur, "/d", StatOf(TREE, DIR)));
    assert ActOn(c, cur, vs[1]) == Take(Record(c, cur, "/d/x", StatOf(TREE, SUB)));
    assert ActOn(c, cur, vs[2]) == Break;
    TakenOfThree(c, cur, vs);
  }

  /**
   The pattern /[de] with the matches /d and /e: the list is not marked as failed and the result is
   success, but of the directory /d the file f is missing.
  */
  lemma GlobUnnoticed(c: Context, s: State)
    requires c.fs == TREE && c.buildRoot == "" && s.cur.dev.None? && s.cur.isDir == 0
    ensures ValidFs(TREE) && NoNul("/d") && NoNul("/e")
    ensures var (s', ok) := AddAll(c, s, true, ["/d", "/e"]);
            && ok && s'.failed == s.failed
            && s'.files == s.files + [Record(c, s.cur, "/d", StatOf(TREE, DIR)),
                                      Record(c, s.cur, "/d/x", StatOf(TREE, SUB)),
                                      Record(c, s.cur, "/e", StatOf(TREE, OUTER))]
    ensures Opens(Whole(TREE, "/d")) == ["/d", "/d/x", "/d/f"]
  {
    hide Record, Whole, Reported, Lookup, ValidFs, Taken, Verdict, AnyLarge;
    TreeValid();
    TreePaths();
    ReportedOfTree();
    TakenOfTree(c, s.cur);
    OpensOfTree();
    assert ["/d", "/e"][1..] == ["/e"] && ["/e"][1..] == [];
    var (s1, ok1) := AddState(c, s, "/d");
    var (s2, ok2) := AddState(c, s1, "/e");
    assert AddAll(c, s1, ok1, ["/e"]) == AddAll(c, s2, ok2, []);
  }

  lemma OpensOfTree()
    ensures Opens(Whole(TREE, "/d")) == ["/d", "/d/x", "/d/f"]
  {
    hide Whole;
    WholeOfTree();
    var vs := Whole(TREE, "/d");
    assert Opens(vs[4..]) == [] + Opens(vs[4..][1..]) && vs[4..][1..] == [];
    assert Opens(vs[2..]) == [] + Opens(vs[2..][1..]);
    assert Opens(vs) == ["/d"] + Opens(vs[1..]);
    assert Opens(vs[1..]) == ["/d/x"] + Opens(vs[1..][1..]);
    assert Opens(vs[3..]) == ["/d/f"] + Opens(vs[3..][1..]);
    assert vs[1..][1..] == vs[2..] && vs[2..][1..] == vs[3..] && vs[3..][1..] == vs[4..];
  }
}
