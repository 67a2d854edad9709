/**
 Adding files to the package manifest: what one path on disk contributes to the list of file
 records, and what a whole directory contributes.
*/
module Manifest {
  import opened CStrings
  import opened FileSystem
  import opened WalkSpec
  import opened WalkProofs
  import opened WalkRuns

  const S_IFCHR: bv32 := 0x2000
  const S_IFBLK: bv32 := 0x6000
  const RPMFILE_CONFIG: bv32 := 0x1
  const RPMFILE_DOC: bv32 := 0x2
  const RPMFILE_GHOST: bv32 := 0x40
  const RPMFILE_LICENSE: bv32 := 0x80
  const RPMFILE_EXCLUDE: bv32 := 0x1_0000
  const UINT32_MAX := 0xFFFF_FFFF

  /** struct stat, as far as the manifest uses it. */
  datatype StatRec = StatRec(dev: nat, ino: nat, mode: bv32, nlink: nat, uid: nat, gid: nat, rdev: nat, size: nat,
                             mtime: nat)

  datatype FileRec = FileRec(st: StatRec, diskPath: string, cpioPath: string, uname: Option<string>,
                             gname: Option<string>, flags: bv32, specd: bv32, verify: bv32, langs: string, caps: string)

  datatype AttrRec = AttrRec(fmodeSet: bool, dmodeSet: bool, user: Option<string>, group: Option<string>,
                             fmode: bv32, dmode: bv32)

  datatype Device = Device(block: bool, major: nat, minor: int)

  /** isDir is 1 for %dir, -1 for a name with a trailing slash, 0 otherwise. */
  datatype FileEntry = FileEntry(attrFlags: bv32, specd: bv32, verify: bv32, ar: AttrRec, langs: seq<string>,
                                 caps: Option<string>, dev: Option<Device>, isDir: int)

  /** The user database, the user who builds and the time. */
  datatype Env = Env(users: map<nat, string>, groups: map<nat, string>, uid: nat, gid: nat, now: nat)

  datatype Context = Context(fs: FileSys, env: Env, buildRoot: string, def: FileEntry)

  /** What adding files changes. */
  datatype State = State(files: seq<FileRec>, failed: bool, large: bool, cur: FileEntry)

  predicate IsDirMode(mode: bv32) {
    mode & S_IFMT == S_IFDIR
  }

  predicate IsRegMode(mode: bv32) {
    mode & S_IFMT == S_IFREG
  }

  predicate IsLnkMode(mode: bv32) {
    mode & S_IFMT == S_IFLNK
  }

  predicate Large(r: FileRec) {
    r.flags & RPMFILE_EXCLUDE == 0 && IsRegMode(r.st.mode) && r.st.size >= UINT32_MAX
  }

  predicate AnyLarge(recs: seq<FileRec>) {
    exists r | r in recs :: Large(r)
  }

  // ----- the record of one file

  function StatOf(fs: FileSys, id: Id): StatRec
    requires id in fs.inodes
  {
    var n := fs.inodes[id];
    StatRec(id.dev, id.ino, Mode(n), n.attr.nlink, n.attr.uid, n.attr.gid, n.attr.rdev, n.attr.size, n.attr.mtime)
  }

  /** %attr wins, except for symbolic links; %defattr knows separate modes for files and directories. */
  function FileMode(cur: AttrRec, def: AttrRec, mode: bv32): bv32 {
    if cur.fmodeSet then if IsLnkMode(mode) then mode else Chmod(mode, cur.fmode)
    else if IsDirMode(mode) then if def.dmodeSet then Chmod(mode, def.dmode) else mode
    else if !IsLnkMode(mode) && def.fmodeSet then Chmod(mode, def.fmode)
    else mode
  }

  /** All but the file type is replaced. */
  function Chmod(mode: bv32, perm: bv32): bv32 {
    (mode & S_IFMT) | perm
  }

  /**
   The mode of an %attr may carry bits above 07777. The file type survives exactly when such bits do
   not reach into it.
  */
  lemma FileModeType(cur: AttrRec, def: AttrRec, mode: bv32)
    requires cur.fmodeSet && !IsLnkMode(mode)
    ensures FileMode(cur, def, mode) & S_IFMT == mode & S_IFMT <==> cur.fmode & S_IFMT & !mode == 0
    ensures FileMode(cur, def, mode) & 0xFFF == cur.fmode & 0xFFF
  {
  }

  /** %attr(40755, ...) makes a socket of a regular file. */
  lemma FileTypeLost(def: AttrRec)
    ensures IsRegMode(0x81A4) && FileMode(AttrRec(true, false, None, None, 0x41ED, 0), def, 0x81A4) & S_IFMT == 0xC000
  {
    assert IsRegMode(0x81A4) && !IsLnkMode(0x81A4);
  }

  function First(a: Option<string>, b: Option<string>): Option<string> {
    if a.Some? then a else b
  }

  function NameOf(names: map<nat, string>, id: nat): Option<string> {
    if id in names then Some(names[id]) else None
  }

  function JoinLangs(langs: seq<string>): string {
    if langs == [] then ""
    else if |langs| == 1 then langs[0]
    else langs[0] + "|" + JoinLangs(langs[1..])
  }

  function CpioPath(buildRoot: string, path: string): string
    requires buildRoot <= path
  {
    var p := if buildRoot != "/" then path[|buildRoot|..] else path;
    if p == "" then "/" else p
  }

  function Record(c: Context, cur: FileEntry, path: string, st: StatRec): FileRec
    requires c.buildRoot <= path
  {
    FileRec(st.(mode := FileMode(cur.ar, c.def.ar, st.mode)), path, CpioPath(c.buildRoot, path),
            First(First(cur.ar.user, c.def.ar.user),
                  First(NameOf(c.env.users, st.uid), NameOf(c.env.users, c.env.uid))),
            First(First(cur.ar.group, c.def.ar.group),
                  First(NameOf(c.env.groups, st.gid), NameOf(c.env.groups, c.env.gid))),
            cur.attrFlags, cur.specd, cur.verify, JoinLangs(cur.langs), if cur.caps.Some? then cur.caps.value else "")
  }

  /** The record was made from an inode of the tree, unless it has no further links. */
  ghost predicate FromTree(fs: FileSys, r: FileRec) {
    r.st.nlink > 1 ==>
      var id := Id(r.st.dev, r.st.ino);
      id in fs.inodes && r.st.size == fs.inodes[id].attr.size && r.st.nlink == fs.inodes[id].attr.nlink
  }

  // ----- a directory

  const RECURSE_OPTIONS := Options(false, true, false)

  function NoSkip(): SkipPlan {
    (n: int) => false
  }

  /** What recurseDir does with a node that fts_read returns. */
  datatype Act = Pass | Take(rec: FileRec) | Refuse | Break

  function ActOn(c: Context, cur: FileEntry, v: Visit): Act {
    if v.info in {D, F, SL, SLNONE, DEFAULT} && v.st.Some? && v.st.value in c.fs.inodes then
      var p := Chop(v.path);
      if c.buildRoot <= p then Take(Record(c, cur, p, StatOf(c.fs, v.st.value))) else Refuse
    else if v.info in {DOT, DP} then Pass
    else Break
  }

  predicate Fine(a: Act) {
    a.Pass? || a.Take?
  }

  /** The records added for the visits up to the first one that ends the recursion. */
  function Taken(c: Context, cur: FileEntry, vs: seq<Visit>): seq<FileRec> {
    if vs == [] || !Fine(ActOn(c, cur, vs[0])) then []
    else
      var a := ActOn(c, cur, vs[0]);
      (if a.Take? then [a.rec] else []) + Taken(c, cur, vs[1..])
  }

  /** Pass, or what ended the recursion. */
  function Verdict(c: Context, cur: FileEntry, vs: seq<Visit>): (a: Act)
    ensures !a.Take?
  {
    if vs == [] then Pass
    else if !Fine(ActOn(c, cur, vs[0])) then ActOn(c, cur, vs[0])
    else Verdict(c, cur, vs[1..])
  }

  lemma {:induction false} TakenCat(c: Context, cur: FileEntry, a: seq<Visit>, b: seq<Visit>)
    requires Verdict(c, cur, a) == Pass
    ensures Taken(c, cur, a + b) == Taken(c, cur, a) + Taken(c, cur, b)
    ensures Verdict(c, cur, a + b) == Verdict(c, cur, b)
  {
    hide ActOn;
    if a == [] {
      assert a + b == b;
    } else {
      assert (a + b)[1..] == a[1..] + b;
      TakenCat(c, cur, a[1..], b);
    }
  }

  /** Fts_open succeeds on this path: it is not empty and fits the buffer that Fts_open allocates. */
  ghost predicate Openable(path: string) {
    path != "" && NoNul(path) && |path| + 257 < UINT16_MAX
  }

  lemma OpenableOpens(fs: FileSys, path: string)
    requires path != "" && NoNul(path)
    ensures ValidArgs([path]) && (OpenWalker(fs, RECURSE_OPTIONS, [path]).Some? <==> Openable(path))
  {
    hide RootItem, RootItems, Stack;
    assert [path][1..] == [];
    assert MaxArgLen([path]) == Max(|path| + 1, 1);
    assert "" !in [path];
  }

  /** What Fts_read returns for the directory until it returns NULL, and whether FTS_STOP was the reason. */
  ghost function Reported(fs: FileSys, path: string): (seq<Visit>, bool)
    requires ValidFs(fs) && Openable(path)
  {
    OpenableOpens(fs, path);
    OpenWf(fs, RECURSE_OPTIONS, [path]);
    var (vs, end) := Run(fs, RECURSE_OPTIONS, OpenWalker(fs, RECURSE_OPTIONS, [path]).value, 0, NoSkip());
    (vs, end.stopped)
  }

  ghost function Whole(fs: FileSys, path: string): seq<Visit> {
    WalkRoots(fs, RECURSE_OPTIONS, [path], 0, NoSkip())
  }

  lemma ReportedIsWhole(fs: FileSys, path: string)
    requires ValidFs(fs) && Openable(path)
    ensures Reported(fs, path).0 <= Whole(fs, path)
    ensures Reported(fs, path).1 <==> Reported(fs, path).0 != Whole(fs, path)
  {
    hide Run, WalkRoots, OpenWalker, Wf;
    OpenableOpens(fs, path);
    WalkIsRecursive(fs, RECURSE_OPTIONS, [path], NoSkip());
  }

  /** recurseDir: a stream that could not be opened reads as NULL at once, and the result is failure. */
  ghost function Recursed(c: Context, s: State, path: string): (State, bool)
    requires ValidFs(c.fs) && NoNul(path)
  {
    if !Openable(path) then (s, false) else AllTaken(c, s, Reported(c.fs, path).0)
  }

  /** The records of the visits, and RPMRC_OK if none of them ended the recursion. */
  function AllTaken(c: Context, s: State, vs: seq<Visit>): (State, bool) {
    var recs := Taken(c, s.cur, vs);
    var a := Verdict(c, s.cur, vs);
    (State(s.files + recs, s.failed || a.Refuse?, s.large || AnyLarge(recs), s.cur), a.Pass?)
  }

  // ----- every node that is added has been stat'ed

  /**
   A node to be added carries the stat data of an inode: in a physical walk, below the roots, of the
   inode that lstat(2) finds under the reported path.
  */
  ghost predicate Stated(fs: FileSys, o: Options, v: Visit) {
    && v.info !in {INIT, ERR} && (v.info == DOT ==> o.seedot)
    && (v.info in {D, F, SL, SLNONE, DEFAULT} ==>
          v.st.Some? && v.st.value in fs.inodes && (!o.logical && v.level >= 1 ==> Lookup(fs, v.path) == v.st))
  }

  ghost predicate Walkable(fs: FileSys, it: Item) {
    it.level >= 0 && it.path != "" && (it.info == D ==> Stat(fs, it.path) == it.st)
  }

  lemma StatedTree(fs: FileSys, o: Options, it: Item, ancs: set<Id>, k: int, skip: SkipPlan, v: Visit)
    requires ValidFs(fs) && v in VisitTree(fs, o, it, ancs, k, skip) && Stated(fs, o, Pre(it)) && Walkable(fs, it)
    ensures Stated(fs, o, v)
    decreases Dirs(fs) - ancs, 1, 0
  {
    hide Listing, VisitAll, Chop, Lookup, ValidFs;
    var listing := Listing(fs, o, it.st);
    if v != Pre(it) && v.info !in {DP, DNR} {
      ListingNames(fs, o, it.st);
      StatedAll(fs, o, it, {it.st.value} + ancs, listing.value, k + 1, skip, v);
    }
  }

  lemma ListingNames(fs: FileSys, o: Options, st: Option<Id>)
    requires ValidFs(fs) && Listing(fs, o, st).Some?
    ensures forall n | n in Listing(fs, o, st).value :: ValidName(n) && (o.seedot || !IsDot(n))
  {
    ListingValid(fs, o, st);
    KeptIn(o, Names(Entries(fs, st)));
  }

  lemma StatedAll(fs: FileSys, o: Options, h: Item, ancs: set<Id>, names: seq<string>, k: int, skip: SkipPlan, v: Visit)
    requires ValidFs(fs) && v in VisitAll(fs, o, h, ancs, names, k, skip)
    requires Walkable(fs, h) && h.info == D && h.st.Some? && IsDir(fs, h.st.value)
    requires forall n | n in names :: ValidName(n) && (o.seedot || !IsDot(n))
    ensures Stated(fs, o, v)
    decreases Dirs(fs) - ancs, 2, |names|
  {
    hide VisitTree, Find, Join, Lookup, ValidFs, ValidName, Entries;
    var kid := Kid(fs, o, h, ancs, names[0]);
    var vs := VisitTree(fs, o, kid, ancs, k, skip);
    assert names[0] in names && forall n | n in names[1..] :: n in names;
    if v in vs {
      KidIsGood(fs, o, h, ancs, names[0]);
      StatedTree(fs, o, kid, ancs, k, skip, v);
    } else {
      StatedAll(fs, o, h, ancs, names[1..], k + |vs|, skip, v);
    }
  }

  lemma StatedWhole(fs: FileSys, path: string, v: Visit)
    requires ValidFs(fs) && path != "" && v in Whole(fs, path)
    ensures Stated(fs, RECURSE_OPTIONS, v)
  {
    hide VisitTree, Lookup, ValidFs;
    var it := RootItem(fs, RECURSE_OPTIONS, path);
    var vs := VisitTree(fs, RECURSE_OPTIONS, it, {}, 0, NoSkip());
    assert WalkRoots(fs, RECURSE_OPTIONS, [path], 0, NoSkip()) ==
           vs + WalkRoots(fs, RECURSE_OPTIONS, [path][1..], 0 + |vs|, NoSkip());
    RootIsGood(fs, RECURSE_OPTIONS, path);
    StatedTree(fs, RECURSE_OPTIONS, it, {}, 0, NoSkip(), v);
  }

  /** One more visit: either it is added to what has been taken, or it ends the recursion. */
  lemma TakenNext(c: Context, cur: FileEntry, done: seq<Visit>, v: Visit, rest: seq<Visit>)
    requires Verdict(c, cur, done) == Pass
    ensures var a := ActOn(c, cur, v);
            if Fine(a) then
              && Verdict(c, cur, done + [v]) == Pass
              && Taken(c, cur, done + [v]) == Taken(c, cur, done) + (if a.Take? then [a.rec] else [])
            else
              && Verdict(c, cur, done + ([v] + rest)) == a
              && Taken(c, cur, done + ([v] + rest)) == Taken(c, cur, done)
  {
    hide ActOn;
    TakenCat(c, cur, done, [v]);
    TakenCat(c, cur, done, [v] + rest);
    assert [v][1..] == [];
  }

  // ----- one path

  function FakeStat(env: Env, cur: FileEntry): StatRec {
    var kind := if cur.dev.Some? then if cur.dev.value.block then S_IFBLK else S_IFCHR
                else if cur.isDir != 0 then S_IFDIR else S_IFREG;
    var dev := if cur.dev.Some? then cur.dev.value.major % 256 * 256 + cur.dev.value.minor % 256 else 0;
    StatRec(dev, 0, kind | (cur.ar.fmode & 0x1FF), 1, 0, 0, dev, 0, env.now)
  }

  datatype Source = Faked(st: StatRec) | OnDisk(st: StatRec) | Missing

  /** Devices are made up even when they exist; other files are made up when they are missing %ghosts. */
  function SourceOf(c: Context, cur: FileEntry, path: string): Source {
    if cur.dev.Some? then Faked(FakeStat(c.env, cur))
    else match LStat(c.fs, path)
      case Some(id) => OnDisk(StatOf(c.fs, id))
      case None => if cur.attrFlags & RPMFILE_GHOST != 0 then Faked(FakeStat(c.env, cur)) else Missing
  }

  /** Only directories that exist are descended into. */
  lemma FoundOnDisk(c: Context, cur: FileEntry, path: string)
    requires !SourceOf(c, cur, path).Missing? && IsDirMode(SourceOf(c, cur, path).st.mode)
    requires SourceOf(c, cur, path).Faked? ==> cur.dev.Some? || cur.isDir == 0
    ensures SourceOf(c, cur, path).OnDisk? && path != ""
  {
    hide Follow;
  }

  function Added(s: State, r: FileRec): State {
    s.(files := s.files + [r], large := s.large || Large(r))
  }

  /** addFile on a path that is not the result of a recursion: the new state, and RPMRC_OK or not. */
  ghost function AddState(c: Context, s: State, diskPath: string): (State, bool)
    requires ValidFs(c.fs) && NoNul(diskPath)
  {
    var p := Chop(diskPath);
    if !(c.buildRoot <= p) then (s.(failed := true), false)
    else
      var src := SourceOf(c, s.cur, p);
      if src.Missing? then
        if s.cur.attrFlags & RPMFILE_EXCLUDE != 0 then (s, true) else (s.(failed := true), false)
      else
        var s' := if src.Faked? && s.cur.dev.None? && s.cur.isDir != 0 then s.(cur := s.cur.(isDir := 1)) else s;
        if s'.cur.isDir != 0 && !IsDirMode(src.st.mode) then (s'.(failed := true), false)
        else if s'.cur.isDir != 1 && IsDirMode(src.st.mode) then
          FoundOnDisk(c, s.cur, p);
          Recursed(c, s', p)
        else (Added(s', Record(c, s'.cur, p, src.st)), true)
  }

  /** The matches of a glob one after the other; the result is that of the last one. */
  ghost function AddAll(c: Context, s: State, ok: bool, paths: seq<string>): (State, bool)
    requires ValidFs(c.fs) && forall p | p in paths :: NoNul(p)
    decreases |paths|
  {
    if paths == [] then (s, ok)
    else
      var (s', ok') := AddState(c, s, paths[0]);
      AddAll(c, s', ok', paths[1..])
  }

  /** A name that ends in a slash must be a directory. */
  function Slashed(cur: FileEntry, fileName: string): FileEntry {
    if fileName != "" && fileName[|fileName| - 1] == '/' && cur.isDir == 0 then cur.(isDir := -1) else cur
  }

  /** processBinaryFile before its result is entered into the list. */
  ghost function BinaryState(c: Context, s: State, fileName: string, path: string, glob: bool,
                             matches: seq<string>): (State, bool)
    requires ValidFs(c.fs) && NoNul(path + "/") && NoNul(path) && forall p | p in matches :: NoNul(p)
  {
    var s' := s.(cur := Slashed(s.cur, fileName));
    if fileName == "" || fileName[0] != '/' then (s', false)
    else if glob && s'.cur.dev.Some? then (s', false)
    else if glob && matches != [] then AddAll(c, s', true, matches)
    else AddState(c, s', if s'.cur.isDir != 0 then path + "/" else path)
  }
}
