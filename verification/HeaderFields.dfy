/** Each field of a header entry, told from the records of its path as they were added. */
module HeaderFields {
  import opened Flags
  import opened Manifest
  import opened HeaderSpec
  import opened HeaderProofs
  import opened HeaderInodes

  // ----- who wins

  /** Record k is less explicit than the one in front of it: %attr and %verify weigh more than the defaults. */
  predicate Falls(recs: seq<FileRec>, k: nat, mask: bv32)
    requires 0 < k < |recs|
  {
    recs[k].specd & mask < recs[k - 1].specd & mask
  }

  /** The winner is the record from which explicitness falls strictly to the last record of the path. */
  lemma {:induction false} WinnerIs(recs: seq<FileRec>, i: nat, mask: bv32, w: nat)
    requires i < |recs| && RunStart(recs, i) <= w <= i
    ensures w == Winner(recs, i, mask) <==>
            && (forall k | w < k <= i :: Falls(recs, k, mask)) && (w == RunStart(recs, i) || !Falls(recs, w, mask))
    decreases i
  {
    hide Falls, Stronger;
    if Repeats(recs, i) {
      FallsIs(recs, i, mask);
      if w < i && Falls(recs, i, mask) {
        WinnerIs(recs, i - 1, mask, w);
      }
    }
  }

  lemma FallsIs(recs: seq<FileRec>, k: nat, mask: bv32)
    requires 0 < k < |recs|
    ensures Falls(recs, k, mask) <==> Stronger(recs[k - 1], recs[k], mask)
  {
  }

  /** The record that the mode comes from: the kind of the merged file says which bits count. */
  function ModeWinner(recs: seq<FileRec>, i: nat): (w: nat)
    requires i < |recs|
    ensures RunStart(recs, i) <= w <= i
  {
    if i == 0 || recs[i - 1].cpioPath != recs[i].cpioPath then i
    else
      var w := ModeWinner(recs, i - 1);
      if Falls(recs, i, if recs[w].st.mode & 0xF000 == 0x4000 then 0x202 else 0x101) then w else i
  }

  lemma {:induction false} ModeFrom(recs: seq<FileRec>, i: nat)
    requires i < |recs|
    ensures Merged(recs, i).st.mode == recs[ModeWinner(recs, i)].st.mode
    decreases i
  {
    hide Override, RunStart, Falls, Stronger;
    if Repeats(recs, i) {
      ModeFrom(recs, i - 1);
      FallsIs(recs, i, 0x202);
      FallsIs(recs, i, 0x101);
      OverrideMode(Merged(recs, i - 1), recs[i], recs[i - 1]);
    }
  }

  // ----- the flags, bit by bit

  ghost predicate AnyHas(recs: seq<FileRec>, lo: nat, hi: nat, b: bv32)
    requires hi < |recs|
  {
    exists j :: lo <= j <= hi && Has(recs[j].flags, b)
  }

  lemma {:induction false} MergedFlags(recs: seq<FileRec>, i: nat, b: bv32)
    requires i < |recs|
    ensures Has(Merged(recs, i).flags, b) <==> AnyHas(recs, RunStart(recs, i), i, b)
    decreases i
  {
    hide Override, Has;
    if Repeats(recs, i) {
      MergedFlags(recs, i - 1, b);
      OverrideFlags(Merged(recs, i - 1), recs[i], b);
    }
  }

  lemma OverrideFlags(a: FileRec, c: FileRec, b: bv32)
    ensures Has(Override(a, c).flags, b) <==> Has(a.flags, b) || Has(c.flags, b)
  {
    hide Has, Plus, Override;
    OverridePlus(a, c);
    HasPlus(a.flags, c.flags, b);
  }

  lemma OverridePlus(a: FileRec, c: FileRec)
    ensures Override(a, c).flags == Plus(a.flags, c.flags)
  {
    hide Stronger, ModeMask, Plus;
    PlusIs(a.flags, c.flags);
  }

  /** The path lies in a documentation directory: one of them and a slash begin it. */
  ghost predicate InDocs(docDirs: seq<string>, name: string) {
    exists d, rest | d in docDirs :: name == d + "/" + rest
  }

  lemma IsDocIs(docDirs: seq<string>, name: string)
    ensures IsDoc(docDirs, name) <==> InDocs(docDirs, name)
  {
    if IsDoc(docDirs, name) {
      var d :| d in docDirs && |d| < |name| && d <= name && name[|d|] == '/';
      assert name == d + "/" + name[|d| + 1..];
    }
  }

  lemma FinalBits(docDirs: seq<string>, r: FileRec, b: bv32)
    requires SingleBit(b)
    ensures Has(FinalFlags(docDirs, r), b) <==>
            && Has(0xFFFF, b) && !(IsDirMode(r.st.mode) && Has(0x83, b))
            && (Has(r.flags, b) || (Has(0x2, b) && IsDoc(docDirs, r.cpioPath)))
  {
    hide Has, Plus, And, SingleBit, IsDoc, IsDirMode;
    var f := if IsDoc(docDirs, r.cpioPath) then Plus(r.flags, 0x2) else r.flags;
    var not := Outside();
    var g := if IsDirMode(r.st.mode) then And(f, not) else f;
    PlusIs(r.flags, 0x2);
    AndIs(f, not);
    AndIs(g, 0xFFFF);
    assert FinalFlags(docDirs, r) == And(g, 0xFFFF);
    HasPlus(r.flags, 0x2, b);
    HasNot(0x83, b);
    HasAnd(f, not, b);
    HasAnd(g, 0xFFFF, b);
  }

  /** What a directory keeps of its flags: not %config, %doc and %license. */
  function Outside(): (m: bv32)
    ensures m == !0x83
  {
    !0x83
  }

  // ----- the verify flags

  lemma FinalVerifyBits(r: FileRec, b: bv32)
    requires SingleBit(b)
    ensures Has(FinalVerify(r), b) <==> Has(r.verify, b) && !(Has(r.flags, 0x40) && Has(0x27, b))
  {
    hide Has, And, SingleBit, FinalVerify;
    FinalVerifyIs(r);
    HasNot(0x27, b);
    HasAnd(r.verify, !0x27, b);
  }

  lemma FinalVerifyIs(r: FileRec)
    ensures FinalVerify(r) == if Has(r.flags, 0x40) then And(r.verify, !0x27) else r.verify
  {
  }

  // ----- an entry

  /**
   The k-th entry of the header comes from the records of one path, the last of which is record i: owner,
   group, mode and verify flags from the winners, everything else from the last one.
  */
  lemma EntryFields(recs: seq<FileRec>, large: bool, docDirs: seq<string>, k: nat)
    requires k < |HeaderEntries(recs, |recs|, large, docDirs)|
    ensures k < |Positions(recs, |recs|)|
    ensures var e, i := HeaderEntries(recs, |recs|, large, docDirs)[k], Positions(recs, |recs|)[k];
            var l := recs[i];
            && e.name == l.cpioPath
            && e.user == recs[Winner(recs, i, 0x404)].uname && e.group == recs[Winner(recs, i, 0x808)].gname
            && e.mode == recs[ModeWinner(recs, i)].st.mode & 0xFFFF
            && e.size == (if large then l.st.size else l.st.size % 0x1_0000_0000)
            && e.mtime == l.st.mtime % 0x1_0000_0000 && e.rdev == l.st.rdev % 0x1_0000
            && e.ino == (FileId(recs, i) + 1) % 0x1_0000_0000
            && e.dev == (if l.st.dev == 0 then 0 else 1) && e.langs == l.langs && e.caps == l.caps
  {
    hide HeaderEntries, Positions, DiskPaths, Emitted, FileId, FinalVerify, FinalFlags, RunStart;
    EntriesAt(recs, |recs|, large, docDirs);
    var i := Positions(recs, |recs|)[k];
    MergedAttributes(recs, i);
    ModeFrom(recs, i);
    MergedLast(recs, i);
  }

  /** Time, device, languages and capabilities are not merged. */
  lemma {:induction false} MergedLast(recs: seq<FileRec>, i: nat)
    requires i < |recs|
    ensures var m, l := Merged(recs, i), recs[i];
            m.st.mtime == l.st.mtime && m.st.rdev == l.st.rdev && m.langs == l.langs && m.caps == l.caps
  {
    hide Stronger, RunStart;
  }

  /**
   The flags of an entry, bit by bit. A flag is set if some record of the path has it, or if it is the one of
   documentation and the path lies in a documentation directory; but a directory has none of %config, %doc
   and %license, and bits above the lower 16 are internal. A verify flag is that of the winner, without digest,
   size, link and time if some record of the path is a %ghost.
  */
  lemma EntryFlags(recs: seq<FileRec>, large: bool, docDirs: seq<string>, k: nat, b: bv32)
    requires k < |HeaderEntries(recs, |recs|, large, docDirs)| && SingleBit(b)
    ensures k < |Positions(recs, |recs|)|
    ensures var e, i := HeaderEntries(recs, |recs|, large, docDirs)[k], Positions(recs, |recs|)[k];
            var s := RunStart(recs, i);
            && (Has(e.flags, b) <==>
                  && Has(0xFFFF, b) && !(recs[ModeWinner(recs, i)].st.mode & 0xF000 == 0x4000 && Has(0x83, b))
                  && (AnyHas(recs, s, i, b) || (Has(0x2, b) && InDocs(docDirs, recs[i].cpioPath))))
            && (Has(e.verify, b) <==>
                  && Has(recs[Winner(recs, i, 0x1010)].verify, b) && !(AnyHas(recs, s, i, 0x40) && Has(0x27, b)))
  {
    hide HeaderEntries, Positions, DiskPaths, Emitted, FileId, FinalVerify, FinalFlags, RunStart, Has, SingleBit,
         AnyHas, InDocs, IsDoc;
    EntriesAt(recs, |recs|, large, docDirs);
    var i := Positions(recs, |recs|)[k];
    var m := Merged(recs, i);
    MergedAttributes(recs, i);
    ModeFrom(recs, i);
    MergedFlags(recs, i, b);
    MergedFlags(recs, i, 0x40);
    FinalBits(docDirs, m, b);
    FinalVerifyBits(m, b);
    IsDocIs(docDirs, m.cpioPath);
  }
}
