/** The two phases of the file classifier (daemon/rpmfc.c): collecting dependencies and indexing them. */
module DepIndex {
  import opened FileSystem
  import opened DepCodec
  import opened DepLines
  import opened DepSets

  // ----- phase one: collecting

  /** Only provides keep their type; all other kinds are recorded as requires. */
  function DepType(tag: Tag): char {
    if tag == Provide then 'P' else 'R'
  }

  function Key(file: nat, r: Report): string {
    Encode(file, DepType(r.tag), r.dep)
  }

  /** rpmstrPoolId with creation: ids are positions in the order of first use. */
  function Intern(pool: seq<string>, s: string): seq<string> {
    if s in pool then pool else pool + [s]
  }

  datatype Collected = Collected(ddict: seq<string>, sets: map<Tag, seq<Dep>>)

  ghost predicate HasSets(c: Collected) {
    c.sets.Keys == TAGS
  }

  ghost function Collect(c: Collected, file: nat, rs: seq<Report>): (c': Collected)
    requires HasSets(c)
    ensures HasSets(c')
  {
    if rs == [] then c
    else
      var r := rs[|rs| - 1];
      var b := Collect(c, file, rs[..|rs| - 1]);
      AllTags(r.tag);
      Collected(Intern(b.ddict, Key(file, r)), b.sets[r.tag := Insert(b.sets[r.tag], r.dep)])
  }

  lemma CollectNone(c: Collected, file: nat)
    requires HasSets(c)
    ensures Collect(c, file, []) == c
  {
  }

  lemma CollectNext(c: Collected, file: nat, rs: seq<Report>, r: Report)
    requires HasSets(c)
    ensures var b := Collect(c, file, rs);
            && r.tag in b.sets
            && Collect(c, file, rs + [r]) ==
               Collected(Intern(b.ddict, Key(file, r)), b.sets[r.tag := Insert(b.sets[r.tag], r.dep)])
  {
    AllTags(r.tag);
    assert (rs + [r])[..|rs|] == rs;
  }

  ghost function CollectFiles(c: Collected, reports: seq<seq<Report>>, n: nat): (c': Collected)
    requires HasSets(c) && n <= |reports|
    ensures HasSets(c')
  {
    if n == 0 then c else Collect(CollectFiles(c, reports, n - 1), n - 1, reports[n - 1])
  }

  lemma NoFiles(c: Collected, reports: seq<seq<Report>>)
    requires HasSets(c)
    ensures CollectFiles(c, reports, 0) == c
  {
  }

  lemma NextFile(c: Collected, reports: seq<seq<Report>>, n: nat)
    requires HasSets(c) && n < |reports|
    ensures CollectFiles(c, reports, n + 1) == Collect(CollectFiles(c, reports, n), n, reports[n])
  {
  }

  // ----- phase two: indexing

  function TagOf(deptype: char): Tag {
    if deptype == 'P' then Provide else Require
  }

  function Pack(deptype: char, dix: nat): nat {
    deptype as nat % 256 * 0x100_0000 + dix % 0x100_0000
  }

  /** The packed index of a key, or None when the package has no such dependency. */
  ghost function Resolve(sets: map<Tag, seq<Dep>>, key: string): Option<nat>
    requires sets.Keys == TAGS
  {
    var d := Decode(key);
    AllTags(TagOf(d.deptype));
    var dix := DepSets.Find(sets[TagOf(d.deptype)], d.dep);
    if dix < 0 then None else Some(Pack(d.deptype, dix))
  }

  ghost function ResolveAll(sets: map<Tag, seq<Dep>>, keys: seq<string>): seq<nat>
    requires sets.Keys == TAGS
  {
    if keys == [] then []
    else
      var n := |keys| - 1;
      ResolveAll(sets, keys[..n]) + match Resolve(sets, keys[n]) case Some(v) => [v] case None => []
  }

  function FileNo(key: string): int {
    Decode(key).file
  }

  /** The keys of the files with numbers in a range. */
  function KeysOf(keys: seq<string>, lo: int, hi: int): seq<string> {
    if keys == [] then []
    else
      var n := |keys| - 1;
      KeysOf(keys[..n], lo, hi) + if lo <= FileNo(keys[n]) < hi then [keys[n]] else []
  }

  ghost function Slice(sets: map<Tag, seq<Dep>>, keys: seq<string>, file: int): seq<nat>
    requires sets.Keys == TAGS
  {
    ResolveAll(sets, KeysOf(keys, file, file + 1))
  }

  /** Keys of one file follow the keys of all files before it. */
  ghost predicate InOrder(keys: seq<string>, nfiles: nat) {
    && (forall i | 0 <= i < |keys| :: 0 <= FileNo(keys[i]) < nfiles)
    && forall i, j | 0 <= i < j < |keys| :: FileNo(keys[i]) <= FileNo(keys[j])
  }

  /**
   The index after the keys have been looked up: the counts, and the start of each slice that is not
   empty behind the slices of all files before.
  */
  ghost predicate Indexed(sets: map<Tag, seq<Dep>>, keys: seq<string>, ddictx: seq<nat>, start: seq<nat>,
                          count: seq<nat>)
    requires sets.Keys == TAGS
  {
    && ddictx == ResolveAll(sets, keys)
    && |start| == |count|
    && forall f | 0 <= f < |count| ::
         && count[f] == |Slice(sets, keys, f)|
         && start[f] == if count[f] == 0 then 0 else |ResolveAll(sets, KeysOf(keys, 0, f))|
  }

  class Rpmfc {
    const nfiles: nat
    const pkg: Package
    var ddict: seq<string>
    const fddictx: array<nat>
    const fddictn: array<nat>
    var ddictx: seq<nat>

    ghost predicate Valid()
      reads this, pkg, pkg.slots, fddictx, fddictn
    {
      && pkg.Valid()
      && fddictx.Length == fddictn.Length == nfiles <= TWO_31
      && fddictx != fddictn
    }

    ghost function Abs(): Collected
      reads this, pkg, pkg.slots
    {
      Collected(ddict, pkg.Sets())
    }

    /** A classifier for a package, which may have dependencies of its own. */
    constructor (nfiles: nat, pkg: Package)
      requires nfiles <= TWO_31 && pkg.Valid()
      ensures Valid() && this.nfiles == nfiles && this.pkg == pkg && ddictx == [] && Abs() == Collected([], pkg.Sets())
      ensures fresh(fddictx) && fresh(fddictn)
      ensures forall f | 0 <= f < nfiles :: fddictx[f] == 0 && fddictn[f] == 0
    {
      this.nfiles, this.pkg := nfiles, pkg;
      ddict, ddictx := [], [];
      fddictx := new nat[nfiles](_ => 0);
      fddictn := new nat[nfiles](_ => 0);
    }

    /** rpmfcHelper on the output of a generator; rc is the number of malformed lines. */
    method Helper(ix: nat, run: HelperRun) returns (rc: nat)
      requires Valid()
      modifies `ddict, pkg.slots
      ensures Valid() && Abs() == old(Collect(Abs(), ix, Reports(run, |run.lines|)))
      ensures rc == Malformed(run.lines)
    {
      hide Insert, Encode, DepsIn, ParseLine, ValidSlots, Collect, WellFormed, LineMeans;
      CollectNone(Abs(), ix);
      rc := 0;
      var i := 0;
      while i < |run.lines|
        invariant 0 <= i <= |run.lines| && Valid()
        invariant Abs() == old(Collect(Abs(), ix, Reports(run, i))) && rc == Malformed(run.lines[..i])
      {
        assert run.lines[..i + 1][..i] == run.lines[..i];
        ParseLineIs(run.lines[i], run);
        var d := ParseDep(run.lines[i], run.namespace, run.tag);
        match d {
          case Some(dep) =>
            if run.keep(dep) {
              ghost var rs, r := Reports(run, i), Report(run.tag, dep);
              CollectNext(old(Abs()), ix, rs, r);
              assert Reports(run, i + 1) == rs + [r];
              pkg.Merge(run.tag, dep);
              var key := Encode(ix, DepType(run.tag), dep);
              if key !in ddict {
                ddict := ddict + [key];
              }
            } else {
              assert Reports(run, i + 1) == Reports(run, i);
            }
          case None =>
            assert Reports(run, i + 1) == Reports(run, i);
            rc := rc + 1;
        }
        i := i + 1;
      }
      assert run.lines[..i] == run.lines;
    }

    /** The second loop of rpmfcApplyInternal: looks the keys up in the finished dependency sets. */
    method Index()
      requires Valid() && InOrder(ddict, nfiles) && ddictx == []
      requires forall f | 0 <= f < nfiles :: fddictx[f] == 0 && fddictn[f] == 0
      modifies `ddictx, fddictx, fddictn
      ensures Valid() && Indexed(pkg.Sets(), ddict, ddictx, fddictx[..], fddictn[..])
    {
      hide Decode, DepsIn, ValidSlots, ResolveAll, KeysOf, InOrder, Indexed, SortedSet, SetsIn;
      ghost var sets := pkg.Sets();
      assert sets.Keys == TAGS by { SetsKeys(pkg.slots[..]); }
      IndexedStart(sets, fddictx[..], fddictn[..]);
      assert ddict[..0] == [];
      var previx: int := -1;
      var id := 0;
      while id < |ddict|
        invariant 0 <= id <= |ddict| && Valid()
        invariant sets.Keys == TAGS && Indexed(sets, ddict[..id], ddictx, fddictx[..], fddictn[..])
        invariant -1 <= previx < nfiles && LastFile(ddict[..id], fddictn[..], previx)
      {
        var s := ddict[id];
        assert ddict[..id + 1] == ddict[..id] + [s];
        var d := ParseKey(s);
        KeyInRange(ddict, nfiles, id);
        var ix := d.file;
        AllTags(TagOf(d.deptype));
        var slot := pkg.Dependencies(TagOf(d.deptype));
        var dix := match pkg.slots[slot] case Empty => -1 case Filled(_, deps) => DepSets.Find(deps, d.dep);
        ghost var start, count := fddictx[..], fddictn[..];
        IndexedNext(sets, ddict, nfiles, id, ddictx, start, count, previx);
        if dix >= 0 {
          ddictx := ddictx + [Pack(d.deptype, dix)];
          if previx != ix {
            previx := ix;
            fddictx[ix] := |ddictx| - 1;
          }
          fddictn[ix] := fddictn[ix] + 1;
          assert fddictn[..] == count[ix := count[ix] + 1];
          assert fddictx[..] == start || fddictx[..] == start[ix := (|ddictx| - 1) as nat];
        }
        id := id + 1;
      }
      assert ddict[..id] == ddict;
    }

    /**
     rpmfcApplyInternal. files gives, for every file in order, the runs of the generators: one for each
     attribute of the file and each kind of dependency.
    */
    method Apply(files: seq<seq<HelperRun>>)
      requires Valid() && |files| == nfiles && ddict == [] && ddictx == []
      requires forall f | 0 <= f < nfiles :: fddictx[f] == 0 && fddictn[f] == 0
      modifies `ddict, `ddictx, pkg.slots, fddictx, fddictn
      ensures Valid() && Abs() == CollectFiles(Collected([], old(pkg.Sets())), FileReports(files), nfiles)
      ensures Indexed(Abs().sets, ddict, ddictx, fddictx[..], fddictn[..])
    {
      hide Decode, DepsIn, ValidSlots, Indexed, SortedSet, SetsIn, Collect, CollectFiles, Reports, InOrder;
      SetsKeys(pkg.slots[..]);
      ghost var c0 := Abs();
      ghost var reports := FileReports(files);
      var ix := 0;
      NoFiles(c0, reports);
      while ix < nfiles
        invariant 0 <= ix <= nfiles && Valid() && HasSets(c0)
        invariant Abs() == CollectFiles(c0, reports, ix)
        modifies `ddict, pkg.slots
      {
        ghost var c1 := Abs();
        CollectNone(c1, ix);
        var i := 0;
        while i < |files[ix]|
          invariant 0 <= i <= |files[ix]| && Valid() && HasSets(c1)
          invariant Abs() == Collect(c1, ix, RunReports(files[ix], i))
          modifies `ddict, pkg.slots
        {
          var run := files[ix][i];
          CollectMore(c1, ix, RunReports(files[ix], i), Reports(run, |run.lines|));
          var rc := Helper(ix, run);
          i := i + 1;
        }
        NextFile(c0, reports, ix);
        ix := ix + 1;
      }
      CollectInOrder(c0, reports, nfiles);
      Index();
    }
  }

  lemma {:induction false} CollectMore(c: Collected, file: nat, a: seq<Report>, b: seq<Report>)
    requires HasSets(c)
    ensures Collect(c, file, a + b) == Collect(Collect(c, file, a), file, b)
    decreases |b|
  {
    hide Insert, Encode;
    if b == [] {
      assert a + b == a;
    } else {
      var n := |b| - 1;
      assert a + b == (a + b[..n]) + [b[n]] && b == b[..n] + [b[n]];
      CollectMore(c, file, a, b[..n]);
      CollectNext(c, file, a + b[..n], b[n]);
      CollectNext(Collect(c, file, a), file, b[..n], b[n]);
    }
  }

  lemma SetsKeys(slots: seq<Slot>)
    ensures SetsIn(slots).Keys == TAGS
  {
  }

  // ----- the order of the keys

  lemma KeyFile(file: nat, r: Report)
    requires file < TWO_31
    ensures FileNo(Key(file, r)) == file
  {
    hide Decode, Encode;
    FileBack(file, DepType(r.tag), r.dep);
  }

  lemma InternOrder(pool: seq<string>, key: string, n: nat)
    requires n > 0 && InOrder(pool, n) && FileNo(key) == n - 1
    ensures InOrder(Intern(pool, key), n)
  {
    hide FileNo;
  }

  lemma {:induction false} CollectOrder(c: Collected, file: nat, rs: seq<Report>)
    requires HasSets(c) && file < TWO_31 && InOrder(c.ddict, file + 1)
    ensures InOrder(Collect(c, file, rs).ddict, file + 1)
    decreases |rs|
  {
    hide InOrder, FileNo, Insert, Encode;
    if rs != [] {
      var r := rs[|rs| - 1];
      CollectOrder(c, file, rs[..|rs| - 1]);
      KeyFile(file, r);
      InternOrder(Collect(c, file, rs[..|rs| - 1]).ddict, Key(file, r), file + 1);
    }
  }

  /** The files are processed in order, and so are the ids of their keys. */
  lemma {:induction false} CollectInOrder(c: Collected, reports: seq<seq<Report>>, n: nat)
    requires HasSets(c) && c.ddict == [] && n <= |reports| && n <= TWO_31
    ensures InOrder(CollectFiles(c, reports, n).ddict, n)
    decreases n
  {
    hide FileNo, Collect;
    if n > 0 {
      CollectInOrder(c, reports, n - 1);
      CollectOrder(CollectFiles(c, reports, n - 1), n - 1, reports[n - 1]);
    }
  }

  lemma KeyInRange(keys: seq<string>, nfiles: nat, id: nat)
    requires InOrder(keys, nfiles) && id < |keys|
    ensures 0 <= Decode(keys[id]).file < nfiles
  {
    hide Decode;
    assert 0 <= FileNo(keys[id]) < nfiles;
  }

  // ----- one more key

  lemma KeysNext(keys: seq<string>, key: string, lo: int, hi: int)
    ensures KeysOf(keys + [key], lo, hi) == KeysOf(keys, lo, hi) + if lo <= FileNo(key) < hi then [key] else []
  {
    hide FileNo;
    assert (keys + [key])[..|keys|] == keys;
  }

  lemma ResolveNext(sets: map<Tag, seq<Dep>>, keys: seq<string>, key: string)
    requires sets.Keys == TAGS
    ensures ResolveAll(sets, keys + [key]) ==
            ResolveAll(sets, keys) + match Resolve(sets, key) case Some(v) => [v] case None => []
  {
    hide Resolve;
    assert (keys + [key])[..|keys|] == keys;
  }

  /** One more key adds at most its packed index to the slice of its file. */
  lemma SliceNext(sets: map<Tag, seq<Dep>>, keys: seq<string>, key: string, lo: int, hi: int)
    requires sets.Keys == TAGS
    ensures ResolveAll(sets, KeysOf(keys + [key], lo, hi)) ==
            ResolveAll(sets, KeysOf(keys, lo, hi)) +
            if lo <= FileNo(key) < hi && Resolve(sets, key).Some? then [Resolve(sets, key).value] else []
  {
    hide Resolve, FileNo, ResolveAll;
    KeysNext(keys, key, lo, hi);
    if lo <= FileNo(key) < hi {
      ResolveNext(sets, KeysOf(keys, lo, hi), key);
    } else {
      assert KeysOf(keys, lo, hi) + [] == KeysOf(keys, lo, hi);
    }
  }

  lemma {:induction false} ResolveCat(sets: map<Tag, seq<Dep>>, a: seq<string>, b: seq<string>)
    requires sets.Keys == TAGS
    ensures ResolveAll(sets, a + b) == ResolveAll(sets, a) + ResolveAll(sets, b)
    decreases |b|
  {
    hide Resolve;
    if b == [] {
      assert a + b == a;
    } else {
      var n := |b| - 1;
      assert a + b == (a + b[..n]) + [b[n]] && b == b[..n] + [b[n]];
      ResolveCat(sets, a, b[..n]);
      ResolveNext(sets, a + b[..n], b[n]);
      ResolveNext(sets, b[..n], b[n]);
    }
  }

  /** Keys in order: those of the lower files come first. */
  lemma {:induction false} KeysSplit(keys: seq<string>, nfiles: nat, lo: int, mid: int, hi: int)
    requires InOrder(keys, nfiles) && lo <= mid <= hi
    ensures KeysOf(keys, lo, hi) == KeysOf(keys, lo, mid) + KeysOf(keys, mid, hi)
    decreases |keys|
  {
    hide FileNo;
    if keys != [] {
      var n := |keys| - 1;
      KeysSplit(keys[..n], nfiles, lo, mid, hi);
      var a, b := KeysOf(keys[..n], lo, mid), KeysOf(keys[..n], mid, hi);
      assert KeysOf(keys[..n], lo, hi) == a + b;
      if lo <= FileNo(keys[n]) < mid {
        NoKeys(keys[..n], mid, hi);
      } else if mid <= FileNo(keys[n]) < hi {
        assert (a + b) + [keys[n]] == a + (b + [keys[n]]);
      } else {
        assert KeysOf(keys, lo, mid) == a && KeysOf(keys, mid, hi) == b;
      }
    }
  }

  lemma {:induction false} NoKeys(keys: seq<string>, lo: int, hi: int)
    requires forall i | 0 <= i < |keys| :: !(lo <= FileNo(keys[i]) < hi)
    ensures KeysOf(keys, lo, hi) == []
    decreases |keys|
  {
    hide FileNo;
    if keys != [] {
      NoKeys(keys[..|keys| - 1], lo, hi);
    }
  }

  lemma {:induction false} AllKeys(keys: seq<string>, lo: int, hi: int)
    requires forall i | 0 <= i < |keys| :: lo <= FileNo(keys[i]) < hi
    ensures KeysOf(keys, lo, hi) == keys
    decreases |keys|
  {
    hide FileNo;
    if keys != [] {
      AllKeys(keys[..|keys| - 1], lo, hi);
    }
  }

  lemma OrderPart(keys: seq<string>, nfiles: nat, n: nat)
    requires InOrder(keys, nfiles) && n <= |keys|
    ensures InOrder(keys[..n], nfiles)
  {
  }

  // ----- the index grows with the keys

  lemma IndexedStart(sets: map<Tag, seq<Dep>>, start: seq<nat>, count: seq<nat>)
    requires sets.Keys == TAGS && |start| == |count|
    requires forall f | 0 <= f < |count| :: start[f] == 0 && count[f] == 0
    ensures Indexed(sets, [], [], start, count) && LastFile([], count, -1)
  {
  }

  /** previx is the file of the last key that was resolved, or -1. */
  ghost predicate LastFile(keys: seq<string>, count: seq<nat>, previx: int) {
    && -1 <= previx < |count|
    && (previx >= 0 ==> count[previx] > 0)
    && forall f | 0 <= f < |count| && previx < f :: count[f] == 0
  }

  /** What looking up key number id does to the index. */
  lemma IndexedNext(sets: map<Tag, seq<Dep>>, ddict: seq<string>, nfiles: nat, id: nat, ddictx: seq<nat>,
                    start: seq<nat>, count: seq<nat>, previx: int)
    requires sets.Keys == TAGS && InOrder(ddict, nfiles) && id < |ddict| && |count| == nfiles
    requires Indexed(sets, ddict[..id], ddictx, start, count) && LastFile(ddict[..id], count, previx)
    ensures var key := ddict[id];
            var ix := FileNo(key);
            && 0 <= ix < |count| && |start| == |count|
            && match Resolve(sets, key)
               case None => Indexed(sets, ddict[..id] + [key], ddictx, start, count)
               case Some(v) =>
                 && Indexed(sets, ddict[..id] + [key], ddictx + [v],
                            if previx != ix then start[ix := |ddictx|] else start, count[ix := count[ix] + 1])
                 && LastFile(ddict[..id] + [key], count[ix := count[ix] + 1], ix)
  {
    hide FileNo, Resolve, ResolveAll, KeysOf;
    var keys, key := ddict[..id], ddict[id];
    var ix := FileNo(key);
    ResolveNext(sets, keys, key);
    OrderPart(ddict, nfiles, id);
    NoLater(sets, keys, nfiles, count, previx, ix, ddictx, start);
    AllBefore(sets, keys, nfiles, ix);
    var start' := if previx != ix then start[ix := |ddictx|] else start;
    forall f | 0 <= f < nfiles
      ensures |Slice(sets, keys + [key], f)| ==
              count[f] + if f == ix && Resolve(sets, key).Some? then 1 else 0
      ensures f <= ix ==> |ResolveAll(sets, KeysOf(keys + [key], 0, f))| == |ResolveAll(sets, KeysOf(keys, 0, f))|
    {
      SliceNext(sets, keys, key, f, f + 1);
      SliceNext(sets, keys, key, 0, f);
    }
  }

  /** No file after that of the next key has a slice yet. */
  lemma NoLater(sets: map<Tag, seq<Dep>>, keys: seq<string>, nfiles: nat, count: seq<nat>, previx: int, ix: int,
                ddictx: seq<nat>, start: seq<nat>)
    requires sets.Keys == TAGS && 0 <= ix < |count| && Indexed(sets, keys, ddictx, start, count)
    requires forall i | 0 <= i < |keys| :: FileNo(keys[i]) <= ix
    requires LastFile(keys, count, previx)
    ensures previx <= ix && forall f | ix < f < |count| :: count[f] == 0
  {
    hide FileNo, Resolve, KeysOf;
    forall f | ix < f < |count| ensures count[f] == 0 {
      NoKeys(keys, f, f + 1);
    }
  }

  lemma AllBefore(sets: map<Tag, seq<Dep>>, keys: seq<string>, nfiles: nat, ix: int)
    requires sets.Keys == TAGS && InOrder(keys, nfiles) && 0 <= ix
    requires forall i | 0 <= i < |keys| :: FileNo(keys[i]) <= ix
    ensures ResolveAll(sets, keys) == ResolveAll(sets, KeysOf(keys, 0, ix)) + Slice(sets, keys, ix)
  {
    hide FileNo, Resolve, KeysOf, ResolveAll;
    AllKeys(keys, 0, ix + 1);
    KeysSplit(keys, nfiles, 0, ix, ix + 1);
    ResolveCat(sets, KeysOf(keys, 0, ix), KeysOf(keys, ix, ix + 1));
  }
}
