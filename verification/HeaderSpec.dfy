/**
 The header of a package: duplicate records are merged, excluded ones dropped, inode numbers replaced
 by positions in the list, and the sizes added up.
*/
module HeaderSpec {
  import opened FileSystem
  import opened Manifest

  const SPECD_DEFFILEMODE: bv32 := 0x1
  const SPECD_DEFDIRMODE: bv32 := 0x2
  const SPECD_DEFUID: bv32 := 0x4
  const SPECD_DEFGID: bv32 := 0x8
  const SPECD_DEFVERIFY: bv32 := 0x10
  const SPECD_FILEMODE: bv32 := 0x100
  const SPECD_DIRMODE: bv32 := 0x200
  const SPECD_UID: bv32 := 0x400
  const SPECD_GID: bv32 := 0x800
  const SPECD_VERIFY: bv32 := 0x1000

  const PARSEATTR_MASK: bv32 := 0xFFFF

  /** RPMVERIFY_FILEDIGEST, _FILESIZE, _LINKTO and _MTIME, which mean nothing for a ghost. */
  const GHOST_UNVERIFIED: bv32 := 0x27

  const TWO_32 := 0x1_0000_0000
  const TWO_64 := 0x1_0000_0000_0000_0000

  /** strcmp(a, b) < 0 */
  predicate Before(a: string, b: string) {
    b != "" && (a == "" || a[0] < b[0] || (a[0] == b[0] && Before(a[1..], b[1..])))
  }

  ghost predicate SortedPaths(recs: seq<FileRec>) {
    forall i, j | 0 <= i < j < |recs| :: !Before(recs[j].cpioPath, recs[i].cpioPath)
  }

  predicate IsHardLink(a: FileRec, b: FileRec) {
    && IsRegMode(a.st.mode) && IsRegMode(b.st.mode)
    && a.st.nlink > 1 && a.st.nlink == b.st.nlink
    && a.st.ino == b.st.ino && a.st.dev == b.st.dev
  }

  // ----- merging duplicates

  function ModeMask(a: FileRec): bv32 {
    if IsDirMode(a.st.mode) then SPECD_DIRMODE | SPECD_DEFDIRMODE else SPECD_FILEMODE | SPECD_DEFFILEMODE
  }

  /** a specifies the attribute that the mask stands for more explicitly than b does. */
  predicate Stronger(a: FileRec, b: FileRec, mask: bv32) {
    b.specd & mask < a.specd & mask
  }

  /** The record b after the duplicate a in front of it has been merged into it. */
  function Override(a: FileRec, b: FileRec): FileRec {
    var uid := Stronger(a, b, SPECD_UID | SPECD_DEFUID);
    var gid := Stronger(a, b, SPECD_GID | SPECD_DEFGID);
    b.(flags := a.flags | b.flags,
       st := b.st.(mode := if Stronger(a, b, ModeMask(a)) then a.st.mode else b.st.mode,
                   uid := if uid then a.st.uid else b.st.uid,
                   gid := if gid then a.st.gid else b.st.gid),
       uname := if uid then a.uname else b.uname,
       gname := if gid then a.gname else b.gname,
       verify := if Stronger(a, b, SPECD_VERIFY | SPECD_DEFVERIFY) then a.verify else b.verify)
  }

  /** Record i repeats the path of the record in front of it. */
  predicate Repeats(recs: seq<FileRec>, i: nat)
    requires i < |recs|
  {
    i > 0 && recs[i - 1].cpioPath == recs[i].cpioPath
  }

  /** Record i once its duplicates in front of it have been merged into it. */
  function Merged(recs: seq<FileRec>, i: nat): (r: FileRec)
    requires i < |recs|
    ensures r.cpioPath == recs[i].cpioPath && r.diskPath == recs[i].diskPath && r.specd == recs[i].specd
    ensures r.st.nlink == recs[i].st.nlink && r.st.ino == recs[i].st.ino && r.st.dev == recs[i].st.dev
    ensures r.st.size == recs[i].st.size
  {
    if Repeats(recs, i) then Override(Merged(recs, i - 1), recs[i]) else recs[i]
  }

  function RunStart(recs: seq<FileRec>, i: nat): (s: nat)
    requires i < |recs|
    ensures s <= i && !Repeats(recs, s)
    ensures forall j | s < j <= i :: Repeats(recs, j)
    ensures forall j | s <= j <= i :: recs[j].cpioPath == recs[i].cpioPath
  {
    if Repeats(recs, i) then RunStart(recs, i - 1) else i
  }

  predicate Excluded(r: FileRec) {
    r.flags & RPMFILE_EXCLUDE != 0
  }

  /** Record i is the last one of its path and none of that path is excluded. */
  predicate Emitted(recs: seq<FileRec>, i: nat)
    requires i < |recs|
  {
    (i + 1 < |recs| ==> !Repeats(recs, i + 1)) && !Excluded(Merged(recs, i))
  }

  // ----- the emitted entries

  /** The first record up to i that is hard-linked to record i, or i. */
  function FirstLink(recs: seq<FileRec>, i: nat, j: nat): (k: nat)
    requires j <= i < |recs|
    ensures j <= k <= i
    ensures k < i ==> IsHardLink(Merged(recs, i), Merged(recs, k))
    ensures forall m | j <= m < k :: !IsHardLink(Merged(recs, i), Merged(recs, m))
    decreases i - j
  {
    if j == i || IsHardLink(Merged(recs, i), Merged(recs, j)) then j else FirstLink(recs, i, j + 1)
  }

  /** The size of record i goes into the total: it is no second link to a regular file. */
  predicate Counted(recs: seq<FileRec>, i: nat)
    requires i < |recs|
  {
    var r := Merged(recs, i);
    IsRegMode(r.st.mode) && (r.st.nlink == 1 || FirstLink(recs, i, 0) == i)
  }

  function FileId(recs: seq<FileRec>, i: nat): nat
    requires i < |recs|
  {
    var r := Merged(recs, i);
    if IsRegMode(r.st.mode) && r.st.nlink != 1 && FirstLink(recs, i, 0) < i then FirstLink(recs, i, 0)
    else RunStart(recs, i)
  }

  datatype HeaderEntry = HeaderEntry(
    name: string, user: Option<string>, group: Option<string>, size: nat, mtime: nat, mode: bv32, rdev: nat,
    ino: nat, dev: nat, langs: string, caps: string, verify: bv32, flags: bv32)

  predicate IsDoc(docDirs: seq<string>, name: string) {
    exists d | d in docDirs :: |d| < |name| && d <= name && name[|d|] == '/'
  }

  function FinalVerify(r: FileRec): bv32 {
    if r.flags & RPMFILE_GHOST != 0 then r.verify & !GHOST_UNVERIFIED else r.verify
  }

  function FinalFlags(docDirs: seq<string>, r: FileRec): bv32 {
    var f := if IsDoc(docDirs, r.cpioPath) then r.flags | RPMFILE_DOC else r.flags;
    var g := if IsDirMode(r.st.mode) then f & !(RPMFILE_CONFIG | RPMFILE_DOC | RPMFILE_LICENSE) else f;
    g & PARSEATTR_MASK
  }

  function HeaderOf(r: FileRec, fileid: nat, large: bool, docDirs: seq<string>): HeaderEntry {
    HeaderEntry(r.cpioPath, r.uname, r.gname, if large then r.st.size else r.st.size % TWO_32,
                r.st.mtime % TWO_32, r.st.mode & 0xFFFF, r.st.rdev % 0x1_0000,
                (fileid + 1) % TWO_32, if r.st.dev != 0 then 1 else 0, r.langs, r.caps,
                FinalVerify(r), FinalFlags(docDirs, r))
  }

  /** The positions of the emitted records among the first n. */
  function Positions(recs: seq<FileRec>, n: nat): (ks: seq<nat>)
    requires n <= |recs|
    ensures forall k | 0 <= k < |ks| :: ks[k] < n && Emitted(recs, ks[k])
  {
    if n == 0 then [] else Positions(recs, n - 1) + if Emitted(recs, n - 1) then [n - 1] else []
  }

  function HeaderEntries(recs: seq<FileRec>, n: nat, large: bool, docDirs: seq<string>): seq<HeaderEntry>
    requires n <= |recs|
  {
    if n == 0 then []
    else HeaderEntries(recs, n - 1, large, docDirs) +
         if Emitted(recs, n - 1) then [HeaderOf(Merged(recs, n - 1), FileId(recs, n - 1), large, docDirs)] else []
  }

  function DiskPaths(recs: seq<FileRec>, n: nat): seq<string>
    requires n <= |recs|
  {
    if n == 0 then [] else DiskPaths(recs, n - 1) + if Emitted(recs, n - 1) then [recs[n - 1].diskPath] else []
  }

  function Total(recs: seq<FileRec>, n: nat): nat
    requires n <= |recs|
  {
    if n == 0 then 0
    else Total(recs, n - 1) + if Emitted(recs, n - 1) && Counted(recs, n - 1) then recs[n - 1].st.size else 0
  }
}
