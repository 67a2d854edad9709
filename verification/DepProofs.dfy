/** What the file dependency index says about the dependencies reported for each file. */
module DepProofs {
  import opened FileSystem
  import opened DepCodec
  import opened DepLines
  import opened DepSets
  import opened DepIndex

  // ----- the slices partition the index

  /** Where the slice of file f starts: behind the slices of all files before it. */
  ghost function Offset(sets: map<Tag, seq<Dep>>, keys: seq<string>, f: nat): nat
    requires sets.Keys == TAGS
  {
    |ResolveAll(sets, KeysOf(keys, 0, f))|
  }

  /**
   The slices of the files lie behind each other without gaps from 0 to the end of the index, and the
   slice of file f holds exactly the resolved keys of file f in the order in which they were recorded.
  */
  lemma SlicesPartition(sets: map<Tag, seq<Dep>>, keys: seq<string>, nfiles: nat, ddictx: seq<nat>, start: seq<nat>,
                        count: seq<nat>, f: nat)
    requires sets.Keys == TAGS && InOrder(keys, nfiles) && |count| == nfiles && f < nfiles
    requires Indexed(sets, keys, ddictx, start, count)
    ensures Offset(sets, keys, 0) == 0 && Offset(sets, keys, nfiles) == |ddictx|
    ensures Offset(sets, keys, f + 1) == Offset(sets, keys, f) + count[f] <= |ddictx|
    ensures count[f] > 0 ==> start[f] == Offset(sets, keys, f)
    ensures start[f] + count[f] <= |ddictx| && ddictx[start[f]..start[f] + count[f]] == Slice(sets, keys, f)
  {
    hide FileNo, Resolve, KeysOf, ResolveAll;
    var a, b, c := KeysOf(keys, 0, f), KeysOf(keys, f, f + 1), KeysOf(keys, f + 1, nfiles);
    AllKeys(keys, 0, nfiles);
    KeysSplit(keys, nfiles, 0, f + 1, nfiles);
    KeysSplit(keys, nfiles, 0, f, f + 1);
    ResolveCat(sets, a, b);
    ResolveCat(sets, a + b, c);
    NothingBelow(sets, keys);
    var x, y, z := ResolveAll(sets, a), ResolveAll(sets, b), ResolveAll(sets, c);
    assert ddictx == x + y + z;
    assert ddictx[|x|..|x| + |y|] == y;
  }

  lemma NothingBelow(sets: map<Tag, seq<Dep>>, keys: seq<string>)
    requires sets.Keys == TAGS
    ensures Offset(sets, keys, 0) == 0
  {
    NoKeys(keys, 0, 0);
  }

  // ----- the keys of one file

  /** The keys of the reports of one file, each once, in the order of their first report. */
  ghost function Uniq(file: nat, rs: seq<Report>): seq<string> {
    if rs == [] then [] else Intern(Uniq(file, rs[..|rs| - 1]), Key(file, rs[|rs| - 1]))
  }

  lemma {:induction false} UniqIs(file: nat, rs: seq<Report>)
    ensures forall k :: k in Uniq(file, rs) <==> exists r | r in rs :: Key(file, r) == k
    ensures forall i, j | 0 <= i < j < |Uniq(file, rs)| :: Uniq(file, rs)[i] != Uniq(file, rs)[j]
    decreases |rs|
  {
    hide Encode;
    if rs != [] {
      var n := |rs| - 1;
      UniqIs(file, rs[..n]);
      assert rs == rs[..n] + [rs[n]];
    }
  }

  lemma {:induction false} CollectKeys(c: Collected, file: nat, rs: seq<Report>)
    requires HasSets(c) && file < TWO_31 && forall k | k in c.ddict :: FileNo(k) != file
    ensures Collect(c, file, rs).ddict == c.ddict + Uniq(file, rs)
    ensures forall k | k in Uniq(file, rs) :: FileNo(k) == file
    decreases |rs|
  {
    hide Encode, FileNo, Insert;
    if rs != [] {
      var n := |rs| - 1;
      CollectKeys(c, file, rs[..n]);
      KeyFile(file, rs[n]);
    }
  }

  lemma {:induction false} KeysCat(a: seq<string>, b: seq<string>, lo: int, hi: int)
    ensures KeysOf(a + b, lo, hi) == KeysOf(a, lo, hi) + KeysOf(b, lo, hi)
    decreases |b|
  {
    hide FileNo;
    if b == [] {
      assert a + b == a;
    } else {
      var n := |b| - 1;
      assert a + b == (a + b[..n]) + [b[n]] && b == b[..n] + [b[n]];
      KeysCat(a, b[..n], lo, hi);
      KeysNext(a + b[..n], b[n], lo, hi);
      KeysNext(b[..n], b[n], lo, hi);
    }
  }

  /** Among all keys, those of file f are the ones its own reports gave. */
  lemma {:induction false} KeysOfFile(c: Collected, reports: seq<seq<Report>>, n: nat, f: nat)
    requires HasSets(c) && c.ddict == [] && n <= |reports| && n <= TWO_31 && f < TWO_31
    ensures KeysOf(CollectFiles(c, reports, n).ddict, f, f + 1) == if f < n then Uniq(f, reports[f]) else []
    decreases n
  {
    hide FileNo, Collect, Uniq, InOrder, KeysOf;
    NoKeys([], f, f + 1);
    if n > 0 {
      var m := n - 1;
      var b := CollectFiles(c, reports, m);
      KeysOfFile(c, reports, m, f);
      CollectInOrder(c, reports, m);
      BelowFile(b.ddict, m);
      CollectKeys(b, m, reports[m]);
      KeysCat(b.ddict, Uniq(m, reports[m]), f, f + 1);
      if f == m {
        NoKeys(b.ddict, f, f + 1);
        OwnKeys(Uniq(m, reports[m]), m);
      } else {
        OtherKeys(Uniq(m, reports[m]), m, f);
      }
    }
  }

  lemma BelowFile(keys: seq<string>, n: nat)
    requires InOrder(keys, n)
    ensures forall k | k in keys :: FileNo(k) != n
    ensures forall i | 0 <= i < |keys| :: FileNo(keys[i]) < n
  {
    hide FileNo;
  }

  lemma OwnKeys(keys: seq<string>, f: nat)
    requires forall k | k in keys :: FileNo(k) == f
    ensures KeysOf(keys, f, f + 1) == keys
  {
    hide FileNo, KeysOf;
    forall i | 0 <= i < |keys| ensures FileNo(keys[i]) == f {
      assert keys[i] in keys;
    }
    AllKeys(keys, f, f + 1);
  }

  lemma OtherKeys(keys: seq<string>, m: nat, f: nat)
    requires f != m && forall k | k in keys :: FileNo(k) == m
    ensures KeysOf(keys, f, f + 1) == []
  {
    hide FileNo, KeysOf;
    forall i | 0 <= i < |keys| ensures FileNo(keys[i]) == m {
      assert keys[i] in keys;
    }
    NoKeys(keys, f, f + 1);
  }

  // ----- the dependency sets

  /** The dependencies reported under a tag for the first n files. */
  ghost predicate ReportedFor(reports: seq<seq<Report>>, n: nat, tag: Tag, d: Dep)
    requires n <= |reports|
  {
    exists f :: 0 <= f < n && Report(tag, d) in reports[f]
  }

  ghost predicate SetsSorted(c: Collected) {
    HasSets(c) && forall t | t in TAGS :: SortedSet(c.sets[t])
  }

  lemma {:induction false} CollectSets(c: Collected, file: nat, rs: seq<Report>, tag: Tag)
    requires SetsSorted(c)
    ensures SetsSorted(Collect(c, file, rs)) && tag in TAGS
    ensures forall d :: d in Collect(c, file, rs).sets[tag] <==> d in c.sets[tag] || Report(tag, d) in rs
    decreases |rs|
  {
    hide Encode, Insert, SortedSet;
    AllTags(tag);
    if rs != [] {
      var n := |rs| - 1;
      var r := rs[n];
      AllTags(r.tag);
      CollectSets(c, file, rs[..n], tag);
      assert rs == rs[..n] + [r];
      InsertIs(Collect(c, file, rs[..n]).sets[r.tag], r.dep);
    }
  }

  /** Every set stays sorted, without duplicates, and gains exactly what was reported under its tag. */
  lemma {:induction false} SetsAre(c: Collected, reports: seq<seq<Report>>, n: nat, tag: Tag)
    requires SetsSorted(c) && n <= |reports|
    ensures SetsSorted(CollectFiles(c, reports, n)) && tag in TAGS
    ensures forall d :: d in CollectFiles(c, reports, n).sets[tag] <==>
            d in c.sets[tag] || ReportedFor(reports, n, tag, d)
    decreases n
  {
    hide Collect, SetsSorted, ReportedFor;
    AllTags(tag);
    SortedKeys(c);
    ReportedNext(reports, n, tag);
    if n > 0 {
      SetsAre(c, reports, n - 1, tag);
      CollectSets(CollectFiles(c, reports, n - 1), n - 1, reports[n - 1], tag);
    }
  }

  lemma SortedKeys(c: Collected)
    requires SetsSorted(c)
    ensures HasSets(c)
  {
  }

  lemma ReportedNext(reports: seq<seq<Report>>, n: nat, tag: Tag)
    requires n <= |reports|
    ensures forall d :: ReportedFor(reports, n, tag, d) <==>
                        n > 0 && (ReportedFor(reports, n - 1, tag, d) || Report(tag, d) in reports[n - 1])
  {
  }

  /** The sets of a package are sorted, whatever it has been told to provide and to require before. */
  lemma PackageSorted(slots: seq<Slot>)
    requires ValidSlots(slots)
    ensures SetsSorted(Collected([], SetsIn(slots)))
  {
    hide SortedSet;
    forall t | t in TAGS ensures SortedSet(DepsIn(slots, t)) {
      DepsSorted(slots, t);
    }
  }

  lemma {:induction false} DepsSorted(slots: seq<Slot>, tag: Tag)
    requires forall i | 0 <= i < |slots| && slots[i].Filled? :: SortedSet(slots[i].deps)
    ensures SortedSet(DepsIn(slots, tag))
  {
    hide SortedSet;
    if slots == [] {
      EmptySorted();
    } else {
      DepsSorted(slots[1..], tag);
    }
  }

  /** A dependency is reported for a file exactly if a line of a generator that ran on the file means it. */
  lemma FileReportsAre(files: seq<seq<HelperRun>>, f: nat, tag: Tag, d: Dep)
    requires f < |files|
    ensures Report(tag, d) in FileReports(files)[f] <==> Printed(files[f], tag, d)
  {
    hide Printed, RunReports;
    RunReportsAre(files[f], |files[f]|, tag, d);
    assert files[f][..|files[f]|] == files[f];
  }

  /**
   What both phases leave in a dependency set: what the package had there, and exactly the dependencies
   that some line of a generator of that kind means for some file.
  */
  lemma AppliedSets(sets: map<Tag, seq<Dep>>, files: seq<seq<HelperRun>>, tag: Tag, d: Dep)
    requires SetsSorted(Collected([], sets))
    ensures var end := CollectFiles(Collected([], sets), FileReports(files), |files|);
            && tag in TAGS && SetsSorted(end)
            && (d in end.sets[tag] <==> d in sets[tag] || exists f :: 0 <= f < |files| && Printed(files[f], tag, d))
  {
    hide Printed, RunReports, CollectFiles, SetsSorted;
    SortedKeys(Collected([], sets));
    SetsAre(Collected([], sets), FileReports(files), |files|, tag);
    forall f | 0 <= f < |files| ensures Report(tag, d) in FileReports(files)[f] <==> Printed(files[f], tag, d) {
      FileReportsAre(files, f, tag, d);
    }
  }

  // ----- every dependency is found again

  ghost predicate Proper(reports: seq<seq<Report>>) {
    forall f, r | 0 <= f < |reports| && r in reports[f] :: ProperDep(r.dep)
  }

  /** No blanks in the name and version, and flags of 32 bits. */
  ghost predicate ProperDep(d: Dep) {
    ' ' !in d.name && ' ' !in d.evr && d.flags < TWO_32
  }

  lemma ResolveKey(sets: map<Tag, seq<Dep>>, file: nat, r: Report)
    requires sets.Keys == TAGS && file < TWO_31 && ProperDep(r.dep)
    ensures TagOf(DepType(r.tag)) in TAGS
    ensures var i := DepSets.Find(sets[TagOf(DepType(r.tag))], r.dep);
            Resolve(sets, Key(file, r)) == if i < 0 then None else Some(Pack(DepType(r.tag), i))
  {
    hide Encode, Decode;
    AllTags(TagOf(DepType(r.tag)));
    RoundTrip(file, DepType(r.tag), r.dep);
  }

  /**
   A provided or required dependency of a file is found in the slice of the file, by its letter and its position
   in the final set of its kind, although later insertions have moved the entries of that set.
  */
  lemma DependencyFound(c: Collected, reports: seq<seq<Report>>, file: nat, r: Report) returns (i: nat)
    requires SetsSorted(c) && c.ddict == []
    requires |reports| <= TWO_31 && file < |reports| && r in reports[file] && ProperDep(r.dep)
    requires r.tag in {Provide, Require}
    ensures var end := CollectFiles(c, reports, |reports|);
            && i < |end.sets[r.tag]| && end.sets[r.tag][i] == r.dep
            && (if r.tag == Provide then 0x50 else 0x52) * 0x100_0000 + i % 0x100_0000 in
               Slice(end.sets, end.ddict, file)
  {
    hide Encode, FileNo, Resolve, Pack, ResolveAll, KeysOf, CollectFiles;
    var end := CollectFiles(c, reports, |reports|);
    SetsAre(c, reports, |reports|, r.tag);
    assert ReportedFor(reports, |reports|, r.tag, r.dep);
    ResolveKey(end.sets, file, r);
    i := DepSets.Find(end.sets[r.tag], r.dep);
    KeysOfFile(c, reports, |reports|, file);
    UniqIs(file, reports[file]);
    ResolvedIn(end.sets, Uniq(file, reports[file]), Key(file, r));
    PackedIs(r.tag, i);
  }

  /** The letters in front of the packed index are P and R. */
  lemma PackedIs(tag: Tag, i: nat)
    ensures Pack(DepType(tag), i) == (if tag == Provide then 0x50 else 0x52) * 0x100_0000 + i % 0x100_0000
  {
    assert 'P' as int == 0x50 && 'R' as int == 0x52;
  }

  lemma {:induction false} ResolvedIn(sets: map<Tag, seq<Dep>>, keys: seq<string>, key: string)
    requires sets.Keys == TAGS && key in keys && Resolve(sets, key).Some?
    ensures Resolve(sets, key).value in ResolveAll(sets, keys)
    decreases |keys|
  {
    hide Resolve;
    var n := |keys| - 1;
    if keys[n] != key {
      assert keys == keys[..n] + [keys[n]];
      ResolvedIn(sets, keys[..n], key);
    }
  }

  lemma {:induction false} ResolvedFrom(sets: map<Tag, seq<Dep>>, keys: seq<string>, v: nat) returns (key: string)
    requires sets.Keys == TAGS && v in ResolveAll(sets, keys)
    ensures key in keys && Resolve(sets, key) == Some(v)
    decreases |keys|
  {
    hide Resolve;
    var n := |keys| - 1;
    if Resolve(sets, keys[n]) == Some(v) {
      key := keys[n];
    } else {
      key := ResolvedFrom(sets, keys[..n], v);
    }
  }

  /** Conversely, everything in the slice of a file was reported for it. */
  lemma SliceReported(c: Collected, reports: seq<seq<Report>>, file: nat, v: nat) returns (r: Report, i: nat)
    requires SetsSorted(c) && c.ddict == [] && Proper(reports)
    requires |reports| <= TWO_31 && file < |reports|
    requires v in Slice(CollectFiles(c, reports, |reports|).sets, CollectFiles(c, reports, |reports|).ddict, file)
    ensures var end := CollectFiles(c, reports, |reports|);
            var tag := TagOf(DepType(r.tag));
            && r in reports[file] && tag in TAGS && v == Pack(DepType(r.tag), i)
            && i < |end.sets[tag]| && end.sets[tag][i] == r.dep
  {
    hide Encode, FileNo, Resolve, Pack, ResolveAll, KeysOf, CollectFiles;
    var end := CollectFiles(c, reports, |reports|);
    KeysOfFile(c, reports, |reports|, file);
    UniqIs(file, reports[file]);
    var key := ResolvedFrom(end.sets, Uniq(file, reports[file]), v);
    r :| r in reports[file] && Key(file, r) == key;
    ResolveKey(end.sets, file, r);
    i := DepSets.Find(end.sets[TagOf(DepType(r.tag))], r.dep);
  }

  /**
   The weak dependencies, conflicts and obsoletes of a file have no type of their own. They are looked
   up among the requires: one of them is indexed if and only if the package or some file requires the
   very same dependency, and then the index says that this file requires it.
  */
  lemma OthersAmongRequires(c: Collected, reports: seq<seq<Report>>, file: nat, r: Report)
    requires SetsSorted(c) && c.ddict == []
    requires |reports| <= TWO_31 && file < |reports| && r in reports[file] && ProperDep(r.dep)
    requires r.tag !in {Provide, Require}
    ensures Resolve(CollectFiles(c, reports, |reports|).sets, Key(file, r)).Some? <==>
            Require in TAGS && (r.dep in c.sets[Require] || ReportedFor(reports, |reports|, Require, r.dep))
    ensures Key(file, r) == Key(file, Report(Require, r.dep))
  {
    hide Encode, Resolve, Pack, CollectFiles;
    var end := CollectFiles(c, reports, |reports|);
    SetsAre(c, reports, |reports|, Require);
    ResolveKey(end.sets, file, r);
  }

  /** A file of a package without any dependency recommends something: it is not indexed. */
  lemma RecommendLost()
    ensures var r := Report(Recommend, Dep("a", "", 0));
            var c := Collected([], map t | t in TAGS :: []);
            Resolve(CollectFiles(c, [[r]], 1).sets, Key(0, r)).None?
  {
    hide Resolve, CollectFiles, Key;
    var r := Report(Recommend, Dep("a", "", 0));
    var c := Collected([], map t | t in TAGS :: []);
    EmptySorted();
    assert SetsSorted(c) && !ReportedFor([[r]], 1, Require, r.dep);
    OthersAmongRequires(c, [[r]], 0, r);
  }

  // ----- packed values

  /** Type and index are read back from a packed value if and only if the index has at most 24 bits. */
  lemma PackBack(tag: Tag, dix: nat)
    ensures Pack(DepType(tag), dix) / 0x100_0000 == DepType(tag) as nat
    ensures Pack(DepType(tag), dix) % 0x100_0000 == dix <==> dix < 0x100_0000
    ensures Pack(DepType(tag), dix) < TWO_32
  {
  }
}
