/** What the header says about the files of the package, whatever order the sort gives equal paths. */
module HeaderProofs {
  import opened Manifest
  import opened HeaderSpec

  // ----- strcmp is a total order

  /** What strcmp(3) compares: a is a proper prefix of b, or has the smaller character at the first difference. */
  ghost predicate SmallerAt(a: string, b: string, i: nat) {
    i < |a| && i < |b| && a[..i] == b[..i] && a[i] < b[i]
  }

  lemma {:induction false} BeforeIs(a: string, b: string)
    ensures Before(a, b) <==> (a <= b && |a| < |b|) || exists i: nat :: SmallerAt(a, b, i)
  {
    if a != "" && b != "" {
      if a[0] == b[0] {
        var x, y := a[1..], b[1..];
        BeforeIs(x, y);
        assert a == [a[0]] + x && b == [b[0]] + y;
        if i: nat :| SmallerAt(x, y, i) {
          assert a[..i + 1] == [a[0]] + x[..i] && b[..i + 1] == [b[0]] + y[..i];
          assert SmallerAt(a, b, i + 1);
        }
        if i: nat :| SmallerAt(a, b, i) {
          assert x[..i - 1] == a[..i][1..] && y[..i - 1] == b[..i][1..];
          assert SmallerAt(x, y, i - 1);
        }
      } else {
        if a[0] < b[0] {
          assert SmallerAt(a, b, 0);
        }
        if i: nat :| SmallerAt(a, b, i) {
          assert i > 0 ==> a[..i][0] == b[..i][0];
        }
      }
    }
  }

  lemma {:induction false} BeforeTotal(a: string, b: string)
    ensures a == b || Before(a, b) || Before(b, a)
  {
    if a != "" && b != "" && a[0] == b[0] {
      BeforeTotal(a[1..], b[1..]);
      assert a == [a[0]] + a[1..] && b == [b[0]] + b[1..];
    }
  }

  lemma {:induction false} BeforeAsym(a: string, b: string)
    requires Before(a, b)
    ensures !Before(b, a) && a != b
  {
    if a != "" && a[0] == b[0] {
      BeforeAsym(a[1..], b[1..]);
    }
  }

  // ----- runs of equal paths

  /** In sorted records, an emitted record is the last one of its path. */
  lemma EmittedLast(recs: seq<FileRec>, i: nat, j: nat)
    requires SortedPaths(recs) && i < j < |recs| && Emitted(recs, i)
    ensures Before(recs[i].cpioPath, recs[j].cpioPath)
  {
    var a, b, c := recs[i].cpioPath, recs[i + 1].cpioPath, recs[j].cpioPath;
    assert !Repeats(recs, i + 1);
    BeforeTotal(a, b);
    BeforeTotal(a, c);
    if j > i + 1 {
      BeforeTotal(b, c);
    }
  }

  /** All records of one path form a run. */
  lemma {:induction false} RunOf(recs: seq<FileRec>, i: nat, j: nat)
    requires SortedPaths(recs) && i <= j < |recs| && recs[i].cpioPath == recs[j].cpioPath
    ensures RunStart(recs, j) <= i
    decreases j - i
  {
    if i < j {
      BeforeTotal(recs[j - 1].cpioPath, recs[j].cpioPath);
      assert recs[j - 1].cpioPath == recs[j].cpioPath by {
        assert !Before(recs[j - 1].cpioPath, recs[i].cpioPath) && !Before(recs[j].cpioPath, recs[j - 1].cpioPath);
      }
      RunOf(recs, i, j - 1);
    }
  }

  lemma {:induction false} LastOf(recs: seq<FileRec>, i: nat) returns (l: nat)
    requires i < |recs|
    ensures i <= l < |recs| && recs[l].cpioPath == recs[i].cpioPath && (l + 1 < |recs| ==> !Repeats(recs, l + 1))
    decreases |recs| - i
  {
    if i + 1 < |recs| && Repeats(recs, i + 1) {
      l := LastOf(recs, i + 1);
    } else {
      l := i;
    }
  }

  /** Excluding one of the duplicates excludes the path. */
  lemma {:induction false} ExcludedRun(recs: seq<FileRec>, i: nat)
    requires i < |recs|
    ensures Excluded(Merged(recs, i)) <==> exists j :: RunStart(recs, i) <= j <= i && Excluded(recs[j])
    decreases i
  {
    if Repeats(recs, i) {
      ExcludedRun(recs, i - 1);
      ExcludedOr(Merged(recs, i - 1), recs[i]);
    }
  }

  lemma ExcludedOr(a: FileRec, b: FileRec)
    ensures Excluded(Override(a, b)) <==> Excluded(a) || Excluded(b)
  {
  }

  // ----- the names

  function Names(es: seq<HeaderEntry>): (ns: seq<string>)
    ensures |ns| == |es| && forall k | 0 <= k < |es| :: ns[k] == es[k].name
  {
    seq(|es|, k requires 0 <= k < |es| => es[k].name)
  }

  lemma {:induction false} EntriesAt(recs: seq<FileRec>, n: nat, large: bool, docDirs: seq<string>)
    requires n <= |recs|
    ensures var ps := Positions(recs, n);
            && |HeaderEntries(recs, n, large, docDirs)| == |DiskPaths(recs, n)| == |ps|
            && forall k | 0 <= k < |ps| ::
                 && HeaderEntries(recs, n, large, docDirs)[k] ==
                    HeaderOf(Merged(recs, ps[k]), FileId(recs, ps[k]), large, docDirs)
                 && DiskPaths(recs, n)[k] == recs[ps[k]].diskPath
    decreases n
  {
    hide Emitted, HeaderOf, FileId, Merged;
    if n > 0 {
      EntriesAt(recs, n - 1, large, docDirs);
    }
  }

  lemma {:induction false} PositionsIncrease(recs: seq<FileRec>, n: nat)
    requires n <= |recs|
    ensures forall k, m | 0 <= k < m < |Positions(recs, n)| :: Positions(recs, n)[k] < Positions(recs, n)[m]
    decreases n
  {
    hide Emitted;
    if n > 0 {
      PositionsIncrease(recs, n - 1);
    }
  }

  lemma {:induction false} PositionOf(recs: seq<FileRec>, n: nat, i: nat)
    requires i < n <= |recs| && Emitted(recs, i)
    ensures i in Positions(recs, n)
    decreases n
  {
    hide Emitted;
    if i < n - 1 {
      PositionOf(recs, n - 1, i);
    }
  }

  ghost predicate Increasing(ns: seq<string>) {
    forall k, m | 0 <= k < m < |ns| :: Before(ns[k], ns[m])
  }

  /** The path occurs in the records and none of its records is excluded. */
  ghost predicate Wanted(recs: seq<FileRec>, p: string) {
    && (exists r | r in recs :: r.cpioPath == p)
    && forall r | r in recs && r.cpioPath == p :: !Excluded(r)
  }

  lemma EmittedIsWanted(recs: seq<FileRec>, i: nat)
    requires SortedPaths(recs) && i < |recs| && Emitted(recs, i)
    ensures Wanted(recs, recs[i].cpioPath)
  {
    hide Merged;
    var p := recs[i].cpioPath;
    ExcludedRun(recs, i);
    forall r | r in recs && r.cpioPath == p ensures !Excluded(r) {
      var j :| 0 <= j < |recs| && recs[j] == r;
      if i < j {
        EmittedLast(recs, i, j);
        BeforeAsym(p, p);
      } else {
        RunOf(recs, j, i);
      }
    }
  }

  lemma WantedIsEmitted(recs: seq<FileRec>, p: string) returns (l: nat)
    requires Wanted(recs, p)
    ensures l < |recs| && Emitted(recs, l) && recs[l].cpioPath == p
  {
    hide Merged;
    var i :| 0 <= i < |recs| && recs[i].cpioPath == p;
    l := LastOf(recs, i);
    ExcludedRun(recs, l);
    forall j | RunStart(recs, l) <= j <= l ensures !Excluded(recs[j]) {
      assert recs[j] in recs;
    }
  }

  ghost predicate Listed(recs: seq<FileRec>, name: string, diskPath: string) {
    exists r | r in recs :: r.cpioPath == name && r.diskPath == diskPath
  }

  lemma NamesIncrease(recs: seq<FileRec>, large: bool, docDirs: seq<string>)
    requires SortedPaths(recs)
    ensures Increasing(Names(HeaderEntries(recs, |recs|, large, docDirs)))
  {
    hide Emitted, Merged, Positions, HeaderEntries, DiskPaths, FileId, SortedPaths, FinalFlags, FinalVerify, RunStart,
         IsDoc, Before;
    var ns, ps := Names(HeaderEntries(recs, |recs|, large, docDirs)), Positions(recs, |recs|);
    EntriesAt(recs, |recs|, large, docDirs);
    PositionsIncrease(recs, |recs|);
    forall k, m | 0 <= k < m < |ns| ensures Before(ns[k], ns[m]) {
      EmittedLast(recs, ps[k], ps[m]);
    }
  }

  lemma NameWanted(recs: seq<FileRec>, large: bool, docDirs: seq<string>, p: string)
    requires SortedPaths(recs)
    ensures p in Names(HeaderEntries(recs, |recs|, large, docDirs)) <==> Wanted(recs, p)
  {
    hide Emitted, Merged, Positions, HeaderEntries, DiskPaths, FileId, Wanted, SortedPaths, FinalFlags, FinalVerify,
         RunStart, IsDoc;
    var ns, ps := Names(HeaderEntries(recs, |recs|, large, docDirs)), Positions(recs, |recs|);
    EntriesAt(recs, |recs|, large, docDirs);
    if p in ns {
      var k :| 0 <= k < |ns| && ns[k] == p;
      EmittedIsWanted(recs, ps[k]);
    }
    if Wanted(recs, p) {
      var l := WantedIsEmitted(recs, p);
      PositionOf(recs, |recs|, l);
      var k :| 0 <= k < |ps| && ps[k] == l;
      assert ns[k] == p;
    }
  }

  /**
   The emitted names are strictly increasing, and are exactly the paths that are listed and nowhere
   excluded; the k-th disk path belongs to a record of the k-th name.
  */
  lemma NamesExact(recs: seq<FileRec>, large: bool, docDirs: seq<string>)
    requires SortedPaths(recs)
    ensures var ns := Names(HeaderEntries(recs, |recs|, large, docDirs));
            var ds := DiskPaths(recs, |recs|);
            && Increasing(ns) && (forall p :: p in ns <==> Wanted(recs, p))
            && |ds| == |ns| && forall k | 0 <= k < |ns| :: Listed(recs, ns[k], ds[k])
  {
    hide Emitted, Merged, Positions, HeaderEntries, DiskPaths, FileId, Wanted, SortedPaths, FinalFlags, FinalVerify,
         RunStart, IsDoc, Increasing;
    NamesIncrease(recs, large, docDirs);
    forall p ensures p in Names(HeaderEntries(recs, |recs|, large, docDirs)) <==> Wanted(recs, p) {
      NameWanted(recs, large, docDirs, p);
    }
    var ns := Names(HeaderEntries(recs, |recs|, large, docDirs));
    var ds, ps := DiskPaths(recs, |recs|), Positions(recs, |recs|);
    EntriesAt(recs, |recs|, large, docDirs);
    forall k | 0 <= k < |ns| ensures Listed(recs, ns[k], ds[k]) {
      assert recs[ps[k]] in recs;
    }
  }

  lemma HasMember(a: seq<string>)
    ensures a != [] ==> exists p :: p in a
  {
    if a != [] {
      assert a[0] in a;
    }
  }

  lemma {:induction false} IncreasingUnique(a: seq<string>, b: seq<string>)
    requires Increasing(a) && Increasing(b) && forall p :: p in a <==> p in b
    ensures a == b
    decreases |a|
  {
    HasMember(a);
    HasMember(b);
    if a != [] {
      var n, m := |a| - 1, |b| - 1;
      assert a[n] in a && a[n] in b;
      assert b[m] in b && b[m] in a;
      LastOfIncreasing(a, b[m]);
      LastOfIncreasing(b, a[n]);
      forall p ensures p in a[..n] <==> p in b[..m] {
        InitOfIncreasing(a, p);
        InitOfIncreasing(b, p);
      }
      IncreasingUnique(a[..n], b[..m]);
      assert a == a[..n] + [a[n]] && b == b[..m] + [b[m]];
    }
  }

  lemma LastOfIncreasing(a: seq<string>, p: string)
    requires Increasing(a) && p in a
    ensures p == a[|a| - 1] || (Before(p, a[|a| - 1]) && !Before(a[|a| - 1], p))
  {
    var k :| 0 <= k < |a| && a[k] == p;
    if k < |a| - 1 {
      BeforeAsym(p, a[|a| - 1]);
    }
  }

  lemma InitOfIncreasing(a: seq<string>, p: string)
    requires Increasing(a) && a != []
    ensures p in a[..|a| - 1] <==> p in a && p != a[|a| - 1]
  {
    var n := |a| - 1;
    if p in a[..n] {
      var k :| 0 <= k < n && a[k] == p;
      BeforeAsym(p, a[n]);
    }
    assert a == a[..n] + [a[n]];
  }

  /** Two sorts of the same records emit the same names, however they order equal paths. */
  lemma NamesStable(a: seq<FileRec>, b: seq<FileRec>, large: bool, docDirs: seq<string>)
    requires SortedPaths(a) && SortedPaths(b) && multiset(a) == multiset(b)
    ensures Names(HeaderEntries(a, |a|, large, docDirs)) == Names(HeaderEntries(b, |b|, large, docDirs))
  {
    hide HeaderEntries, SortedPaths, DiskPaths, Names, Excluded;
    NamesExact(a, large, docDirs);
    NamesExact(b, large, docDirs);
    assert forall r :: r in a <==> r in multiset(a);
    assert forall r :: r in b <==> r in multiset(b);
    forall p ensures Wanted(a, p) <==> Wanted(b, p) {
    }
    IncreasingUnique(Names(HeaderEntries(a, |a|, large, docDirs)), Names(HeaderEntries(b, |b|, large, docDirs)));
  }
}
