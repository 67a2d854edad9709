/** genCpioListAndHeader and checkHardLinks (daemon/files.c), in place on the array of records. */
module Header {
  import opened Manifest
  import opened HeaderSpec

  method CheckHardLinks(recs: array<FileRec>) returns (partial: bool)
    ensures partial <==> exists i, j :: 0 <= i < j < recs.Length && IsHardLink(recs[i], recs[j])
  {
    var i := 0;
    while i < recs.Length
      invariant 0 <= i <= recs.Length
      invariant forall k, j | 0 <= k < i && k < j < recs.Length :: !IsHardLink(recs[k], recs[j])
    {
      if IsRegMode(recs[i].st.mode) && recs[i].st.nlink > 1 {
        var j := i + 1;
        while j < recs.Length
          invariant i < j <= recs.Length
          invariant forall m | i < m < j :: !IsHardLink(recs[i], recs[m])
        {
          if IsHardLink(recs[i], recs[j]) {
            return true;
          }
          j := j + 1;
        }
      }
      i := i + 1;
    }
    return false;
  }

  /** seenHardLink: the first record in front of flp that is hard-linked to it. */
  method SeenHardLink(recs: array<FileRec>, flp: nat, fileid: nat) returns (seen: bool, id: nat)
    requires flp < recs.Length
    ensures seen <==> exists j :: 0 <= j < flp && IsHardLink(recs[flp], recs[j])
    ensures seen ==>
              && id < flp && IsHardLink(recs[flp], recs[id])
              && forall j | 0 <= j < id :: !IsHardLink(recs[flp], recs[j])
    ensures !seen ==> id == fileid
  {
    var ilp := 0;
    while ilp < flp
      invariant 0 <= ilp <= flp
      invariant forall j | 0 <= j < ilp :: !IsHardLink(recs[flp], recs[j])
    {
      if IsHardLink(recs[flp], recs[ilp]) {
        return true, ilp;
      }
      ilp := ilp + 1;
    }
    return false, fileid;
  }

  /** The first i records have the stat data that merging gives them. */
  ghost predicate StatsMerged(now: seq<FileRec>, recs: seq<FileRec>, i: nat) {
    i <= |now| == |recs| && forall j | 0 <= j < i :: now[j].st == Merged(recs, j).st
  }

  lemma StatsStart(recs: seq<FileRec>)
    ensures StatsMerged(recs, recs, 0)
  {
  }

  lemma StatsNext(before: seq<FileRec>, now: seq<FileRec>, recs: seq<FileRec>, i: nat)
    requires StatsMerged(before, recs, i) && i < |recs| == |now| && now[..i] == before[..i]
    requires now[i].st == Merged(recs, i).st
    ensures StatsMerged(now, recs, i + 1)
  {
    hide Merged;
    forall j | 0 <= j < i ensures now[j] == before[j] {
      assert now[..i][j] == before[..i][j];
    }
  }

  /** The hard links of a record depend on the stat data only, which stay as they were merged. */
  lemma LinkFound(recs: seq<FileRec>, now: seq<FileRec>, i: nat, seen: bool, id: nat)
    requires i < |recs| == |now| && now[i] == Merged(recs, i)
    requires StatsMerged(now, recs, i)
    requires IsRegMode(now[i].st.mode) && now[i].st.nlink != 1
    requires seen <==> exists j :: 0 <= j < i && IsHardLink(now[i], now[j])
    requires seen ==> id < i && IsHardLink(now[i], now[id]) && forall j | 0 <= j < id :: !IsHardLink(now[i], now[j])
    requires !seen ==> id == RunStart(recs, i)
    ensures id == FileId(recs, i) && (Counted(recs, i) <==> !seen)
  {
    hide Merged, IsRegMode;
    var k := FirstLink(recs, i, 0);
    assert k < i ==> IsHardLink(now[i], now[k]);
  }

  lemma NoLink(recs: seq<FileRec>, i: nat)
    requires i < |recs| && (!IsRegMode(Merged(recs, i).st.mode) || Merged(recs, i).st.nlink == 1)
    ensures FileId(recs, i) == RunStart(recs, i) && (Counted(recs, i) <==> IsRegMode(Merged(recs, i).st.mode))
  {
  }

  lemma RunBegins(recs: seq<FileRec>, i: nat)
    requires i < |recs| && !Repeats(recs, i)
    ensures Merged(recs, i) == recs[i] && RunStart(recs, i) == i
  {
  }

  lemma RunGoesOn(recs: seq<FileRec>, i: nat)
    requires i + 1 < |recs| && recs[i].cpioPath == recs[i + 1].cpioPath
    ensures Merged(recs, i + 1) == Override(Merged(recs, i), recs[i + 1]) && RunStart(recs, i + 1) == RunStart(recs, i)
    ensures !Emitted(recs, i)
  {
  }

  lemma RunEnds(recs: seq<FileRec>, i: nat)
    requires i < |recs| && (i + 1 < |recs| ==> recs[i].cpioPath != recs[i + 1].cpioPath)
    ensures i + 1 < |recs| ==> !Repeats(recs, i + 1)
    ensures Emitted(recs, i) <==> !Excluded(Merged(recs, i))
  {
  }

  lemma Empty(recs: seq<FileRec>, large: bool, docDirs: seq<string>)
    ensures HeaderEntries(recs, 0, large, docDirs) == [] && DiskPaths(recs, 0) == [] && Total(recs, 0) == 0
    ensures recs != [] ==> !Repeats(recs, 0)
  {
  }

  /** A record that is not emitted adds nothing to the header. */
  lemma Dropped(recs: seq<FileRec>, i: nat, large: bool, docDirs: seq<string>)
    requires i < |recs| && !Emitted(recs, i)
    ensures HeaderEntries(recs, i + 1, large, docDirs) == HeaderEntries(recs, i, large, docDirs)
    ensures DiskPaths(recs, i + 1) == DiskPaths(recs, i) && Total(recs, i + 1) == Total(recs, i)
  {
    hide Emitted, Counted, Merged;
  }

  lemma Appended(recs: seq<FileRec>, i: nat, large: bool, docDirs: seq<string>)
    requires i < |recs| && Emitted(recs, i)
    ensures HeaderEntries(recs, i + 1, large, docDirs) ==
            HeaderEntries(recs, i, large, docDirs) + [HeaderOf(Merged(recs, i), FileId(recs, i), large, docDirs)]
    ensures DiskPaths(recs, i + 1) == DiskPaths(recs, i) + [recs[i].diskPath]
    ensures Total(recs, i + 1) % TWO_64 ==
            if Counted(recs, i) then (Total(recs, i) % TWO_64 + recs[i].st.size) % TWO_64 else Total(recs, i) % TWO_64
  {
    hide Emitted, Counted, Merged, HeaderOf;
    if Counted(recs, i) {
      ModNext(Total(recs, i), recs[i].st.size);
    }
  }

  lemma ModNext(a: nat, b: nat)
    ensures (a + b) % TWO_64 == (a % TWO_64 + b) % TWO_64
  {
  }

  /** The inner loop: every record of a run is merged into the next one; i is the last record of the run. */
  method MergeDuplicates(recs: array<FileRec>, start: nat, ghost r: seq<FileRec>) returns (i: nat)
    requires start < recs.Length == |r| && !Repeats(r, start)
    requires forall j | start <= j < recs.Length :: recs[j] == r[j]
    requires StatsMerged(recs[..], r, start)
    modifies recs
    ensures start <= i < recs.Length && RunStart(r, i) == start
    ensures i + 1 < recs.Length ==> r[i].cpioPath != r[i + 1].cpioPath
    ensures recs[i] == Merged(r, i)
    ensures forall j | i < j < recs.Length :: recs[j] == r[j]
    ensures StatsMerged(recs[..], r, i)
  {
    hide Override, Merged, RunStart, Repeats, Emitted, StatsMerged;
    i := start;
    RunBegins(r, i);
    while i < recs.Length - 1 && recs[i].cpioPath == recs[i + 1].cpioPath
      invariant start <= i < recs.Length && RunStart(r, i) == start
      invariant recs[i] == Merged(r, i)
      invariant forall j | i < j < recs.Length :: recs[j] == r[j]
      invariant StatsMerged(recs[..], r, i)
    {
      RunGoesOn(r, i);
      ghost var before := recs[..];
      recs[i + 1] := Override(recs[i], recs[i + 1]);
      StatsNext(before, recs[..], r, i);
      i := i + 1;
    }
  }

  lemma {:induction false} DroppedRun(recs: seq<FileRec>, start: nat, i: nat, large: bool, docDirs: seq<string>)
    requires start <= i < |recs| && RunStart(recs, i) == start
    ensures HeaderEntries(recs, i, large, docDirs) == HeaderEntries(recs, start, large, docDirs)
    ensures DiskPaths(recs, i) == DiskPaths(recs, start) && Total(recs, i) == Total(recs, start)
    decreases i
  {
    hide Merged, HeaderEntries, DiskPaths, Total;
    if start < i {
      Dropped(recs, i - 1, large, docDirs);
      DroppedRun(recs, start, i - 1, large, docDirs);
    }
  }

  /**
   The loop over the sorted records: merges duplicates, drops excluded records and builds the list of
   entries. longSize tells which of the two tags holds the total size.
  */
  method GenCpioListAndHeader(recs: array<FileRec>, large: bool, docDirs: seq<string>)
    returns (entries: seq<HeaderEntry>, dpaths: seq<string>, totalFileSize: nat, longSize: bool)
    modifies recs
    ensures entries == HeaderEntries(old(recs[..]), recs.Length, large, docDirs)
    ensures dpaths == DiskPaths(old(recs[..]), recs.Length)
    ensures totalFileSize == Total(old(recs[..]), recs.Length) % 0x1_0000_0000_0000_0000
    ensures longSize <==> totalFileSize >= 0xFFFF_FFFF
  {
    hide Override, FinalVerify, FinalFlags, IsRegMode, Excluded, HeaderEntries, DiskPaths, Total, FileId, Counted,
         FirstLink, HeaderOf, IsHardLink, StatsMerged, Merged, RunStart, Repeats, Emitted;
    ghost var r := recs[..];
    entries, dpaths, totalFileSize := [], [], 0;
    Empty(r, large, docDirs);
    StatsStart(r);
    var i := 0;
    while i < recs.Length
      invariant 0 <= i <= recs.Length && (i < recs.Length ==> !Repeats(r, i))
      invariant forall j | i <= j < recs.Length :: recs[j] == r[j]
      invariant StatsMerged(recs[..], r, i)
      invariant entries == HeaderEntries(r, i, large, docDirs) && dpaths == DiskPaths(r, i)
      invariant totalFileSize == Total(r, i) % TWO_64
    {
      var fileid := i;
      i := MergeDuplicates(recs, i, r);
      DroppedRun(r, fileid, i, large, docDirs);
      RunEnds(r, i);
      ghost var before := recs[..];
      var flp := recs[i];
      if Excluded(flp) {
        Dropped(r, i, large, docDirs);
      } else {
        Appended(r, i, large, docDirs);
        dpaths := dpaths + [flp.diskPath];
        if IsRegMode(flp.st.mode) {
          var seen := false;
          if flp.st.nlink != 1 {
            seen, fileid := SeenHardLink(recs, i, fileid);
            LinkFound(r, recs[..], i, seen, fileid);
          }
          if flp.st.nlink == 1 {
            NoLink(r, i);
          }
          if !seen {
            totalFileSize := (totalFileSize + flp.st.size) % TWO_64;
          }
        } else {
          NoLink(r, i);
        }
        entries := entries + [HeaderOf(flp, fileid, large, docDirs)];
        recs[i] := flp.(verify := FinalVerify(flp), flags := FinalFlags(docDirs, flp));
      }
      StatsNext(before, recs[..], r, i);
      i := i + 1;
    }
    longSize := totalFileSize >= UINT32_MAX;
  }
}
