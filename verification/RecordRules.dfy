/** What one path adds to the manifest, spelled out: which record, and which of its fields come from where. */
module RecordRules {
  import opened CStrings
  import opened FileSystem
  import opened Flags
  import opened Manifest
  import ManifestProofs

  // ----- where the stat data comes from

  /** The bits of the file type for each kind of inode. */
  function TypeBits(k: Kind): bv32 {
    match k
    case Dir(_, _) => 0x4000
    case Reg => 0x8000
    case Symlink(_) => 0xA000
    case Other(fmt) => fmt
  }

  /** mode has the file type fmt and the permissions perm, and nothing else. */
  ghost predicate Splits(mode: bv32, fmt: bv32, perm: bv32) {
    And(mode, 0xFFF) == perm && And(mode, 0xFFFF_F000) == fmt
  }

  /** The stat data of an inode. */
  ghost predicate OfInode(fs: FileSys, id: Id, st: StatRec) {
    && id in fs.inodes
    && var n := fs.inodes[id];
       && st.dev == id.dev && st.ino == id.ino && st.nlink == n.attr.nlink && st.uid == n.attr.uid
       && st.gid == n.attr.gid && st.rdev == n.attr.rdev && st.size == n.attr.size && st.mtime == n.attr.mtime
       && Splits(st.mode, TypeBits(n.kind), n.attr.perm)
  }

  lemma StatOfIs(fs: FileSys, id: Id)
    requires ValidFs(fs) && id in fs.inodes
    ensures OfInode(fs, id, StatOf(fs, id))
  {
    hide ValidFs, Mode, Splits;
    ModesValid(fs, id);
    ModeSplits(fs.inodes[id]);
  }

  lemma ModeSplits(n: Inode)
    requires ValidMode(n)
    ensures Splits(Mode(n), TypeBits(n.kind), n.attr.perm)
  {
    hide Splits, ValidMode, Mode, TypeBits, FileType;
    ModePlus(n);
    TypeInside(n);
    Split(FileType(n.kind), n.attr.perm, Mode(n));
  }

  lemma ModePlus(n: Inode)
    ensures FileType(n.kind) == TypeBits(n.kind) && Mode(n) == FileType(n.kind) | n.attr.perm
  {
    hide FileType, TypeBits;
    SameType(n.kind);
  }

  lemma SameType(k: Kind)
    ensures FileType(k) == TypeBits(k)
  {
  }

  lemma TypeInside(n: Inode)
    requires ValidMode(n)
    ensures TypeBits(n.kind) & !0xF000 == 0 && n.attr.perm & 0xFFFF_F000 == 0
  {
  }

  lemma ModesValid(fs: FileSys, id: Id)
    requires ValidFs(fs) && id in fs.inodes
    ensures ValidMode(fs.inodes[id])
  {
    hide ValidMode;
  }

  lemma Split(fmt: bv32, perm: bv32, mode: bv32)
    requires fmt & !0xF000 == 0 && perm & 0xFFFF_F000 == 0 && mode == fmt | perm
    ensures Splits(mode, fmt, perm)
  {
  }

  /**
   The stat data made up for a %dev, and for a %ghost that is not there: the type is that of the device, or a
   directory for a name given as one, or a regular file.
  */
  ghost predicate MadeUp(env: Env, cur: FileEntry, st: StatRec) {
    && st.nlink == 1 && st.uid == 0 && st.gid == 0 && st.ino == 0 && st.size == 0 && st.mtime == env.now
    && st.dev == st.rdev
    && match cur.dev
       case Some(d) =>
         && Splits(st.mode, if d.block then 0x6000 else 0x2000, And(cur.ar.fmode, 0x1FF))
         && st.rdev / 256 == d.major % 256 && st.rdev % 256 == d.minor % 256
       case None => st.rdev == 0 && Splits(st.mode, if cur.isDir == 0 then 0x8000 else 0x4000, And(cur.ar.fmode, 0x1FF))
  }

  lemma FakeStatIs(env: Env, cur: FileEntry)
    ensures MadeUp(env, cur, FakeStat(env, cur))
  {
    hide Splits, And;
    var kind: bv32 := if cur.dev.Some? then if cur.dev.value.block then 0x6000 else 0x2000
                      else if cur.isDir == 0 then 0x8000 else 0x4000;
    FakeMode(env, cur, kind);
    KindSplits(kind, cur.ar.fmode, FakeStat(env, cur).mode);
  }

  lemma FakeMode(env: Env, cur: FileEntry, kind: bv32)
    requires kind == if cur.dev.Some? then if cur.dev.value.block then 0x6000 else 0x2000
                     else if cur.isDir == 0 then 0x8000 else 0x4000
    ensures FakeStat(env, cur).mode == kind | (cur.ar.fmode & 0x1FF)
  {
  }

  lemma KindSplits(kind: bv32, f: bv32, mode: bv32)
    requires kind & !0xF000 == 0 && mode == kind | (f & 0x1FF)
    ensures Splits(mode, kind, And(f, 0x1FF))
  {
  }

  /** What addFile uses for the path: a device is made up even if it exists, a %ghost only if it does not. */
  ghost predicate Known(c: Context, cur: FileEntry, p: string, st: StatRec) {
    if cur.dev.Some? then MadeUp(c.env, cur, st)
    else match LStat(c.fs, p)
      case Some(id) => OfInode(c.fs, id, st)
      case None => Has(cur.attrFlags, 0x40) && MadeUp(c.env, cur, st)
  }

  /** The path is not there and nothing is made up for it. */
  ghost predicate NotThere(c: Context, cur: FileEntry, p: string) {
    cur.dev.None? && LStat(c.fs, p).None? && !Has(cur.attrFlags, 0x40)
  }

  /** The path stands for a directory: one in the tree, or a missing %ghost given as one. */
  ghost predicate ForDir(c: Context, cur: FileEntry, p: string) {
    cur.dev.None? && match LStat(c.fs, p) case Some(id) => IsDir(c.fs, id) case None => cur.isDir != 0
  }

  // ----- the fields of a record

  /** %attr first, then %defattr, then what the disk says, then the user who builds. */
  ghost predicate OwnerIs(given: Option<string>, def: Option<string>, names: map<nat, string>, id: nat, builder: nat,
                          name: Option<string>) {
    if given.Some? then name == given
    else if def.Some? then name == def
    else if id in names then name == Some(names[id])
    else if builder in names then name == Some(names[builder])
    else name == None
  }

  /**
   A symbolic link keeps its mode. Otherwise %attr replaces everything but the file type; without it, %defattr
   does, by its mode for directories or the one for other files; without that the mode is that on disk.
  */
  ghost predicate ModeIs(cur: AttrRec, def: AttrRec, mode: bv32, r: bv32) {
    var fmt := And(mode, 0xF000);
    if fmt == 0xA000 then r == mode
    else if cur.fmodeSet then r == Plus(fmt, cur.fmode)
    else if fmt == 0x4000 then r == if def.dmodeSet then Plus(fmt, def.dmode) else mode
    else r == if def.fmodeSet then Plus(fmt, def.fmode) else mode
  }

  ghost predicate RecordIs(c: Context, cur: FileEntry, p: string, st: StatRec, r: FileRec) {
    && r.diskPath == p
    && (if c.buildRoot == "/" then r.cpioPath == (if p == "" then "/" else p)
        else if p == c.buildRoot then r.cpioPath == "/"
        else p == c.buildRoot + r.cpioPath)
    && r.st == st.(mode := r.st.mode) && ModeIs(cur.ar, c.def.ar, st.mode, r.st.mode)
    && OwnerIs(cur.ar.user, c.def.ar.user, c.env.users, st.uid, c.env.uid, r.uname)
    && OwnerIs(cur.ar.group, c.def.ar.group, c.env.groups, st.gid, c.env.gid, r.gname)
    && r.flags == cur.attrFlags && r.specd == cur.specd && r.verify == cur.verify
    && Joined(cur.langs, r.langs) && r.caps == if cur.caps.Some? then cur.caps.value else ""
  }

  /** The languages one after the other with a bar between them. */
  ghost predicate Joined(langs: seq<string>, s: string) {
    if |langs| <= 1 then s == if langs == [] then "" else langs[0]
    else
      var n := |langs| - 1;
      |langs[n]| < |s| && s[|s| - |langs[n]| - 1..] == "|" + langs[n] && Joined(langs[..n], s[..|s| - |langs[n]| - 1])
  }

  lemma {:induction false} JoinLangsIs(langs: seq<string>)
    ensures Joined(langs, JoinLangs(langs))
  {
    if |langs| > 1 {
      var n := |langs| - 1;
      JoinLangsIs(langs[..n]);
      JoinLast(langs);
      var s := JoinLangs(langs);
      assert s == JoinLangs(langs[..n]) + "|" + langs[n];
      assert s[..|s| - |langs[n]| - 1] == JoinLangs(langs[..n]);
    }
  }

  lemma {:induction false} JoinLast(langs: seq<string>)
    requires |langs| > 1
    ensures JoinLangs(langs) == JoinLangs(langs[..|langs| - 1]) + "|" + langs[|langs| - 1]
  {
    var n := |langs| - 1;
    if n > 1 {
      JoinLast(langs[1..]);
      assert langs[1..][..n - 1] == langs[..n][1..];
    }
  }

  lemma FileModeIs(cur: AttrRec, def: AttrRec, mode: bv32)
    ensures ModeIs(cur, def, mode, FileMode(cur, def, mode))
  {
    hide And, Plus, IsLnkMode, IsDirMode, Chmod;
    TypeIs(mode);
    ChmodIs(mode, cur.fmode);
    ChmodIs(mode, def.fmode);
    ChmodIs(mode, def.dmode);
  }

  lemma TypeIs(mode: bv32)
    ensures IsLnkMode(mode) <==> And(mode, 0xF000) == 0xA000
    ensures IsDirMode(mode) <==> And(mode, 0xF000) == 0x4000
    ensures IsRegMode(mode) <==> And(mode, 0xF000) == 0x8000
  {
  }

  lemma ChmodIs(mode: bv32, perm: bv32)
    ensures Chmod(mode, perm) == Plus(And(mode, 0xF000), perm)
  {
    hide And, Plus;
    AndIs(mode, 0xF000);
    PlusIs(And(mode, 0xF000), perm);
  }

  lemma RecordSpelled(c: Context, cur: FileEntry, p: string, st: StatRec)
    requires c.buildRoot <= p
    ensures RecordIs(c, cur, p, st, Record(c, cur, p, st))
  {
    hide FileMode, JoinLangs, Joined, ModeIs;
    FileModeIs(cur.ar, c.def.ar, st.mode);
    JoinLangsIs(cur.langs);
    assert p[..|c.buildRoot|] == c.buildRoot;
    assert p == p[..|c.buildRoot|] + p[|c.buildRoot|..];
  }

  // ----- one path

  /** A regular file, not excluded, whose size does not fit 32 bits, or is the largest that does. */
  predicate TooLarge(r: FileRec) {
    !Has(r.flags, 0x1_0000) && And(r.st.mode, 0xF000) == 0x8000 && r.st.size >= 0xFFFF_FFFF
  }

  lemma LargeIs(r: FileRec)
    ensures Large(r) <==> TooLarge(r)
  {
    hide Has, And, IsRegMode;
    HasIs(r.flags, 0x1_0000);
    TypeIs(r.st.mode);
  }

  /** r is added, and nothing else happens. */
  ghost predicate Grows(s: State, s': State, r: FileRec) {
    && s'.files == s.files + [r] && s'.failed == s.failed
    && (s'.large <==> s.large || TooLarge(r))
  }

  /**
   addFile on a path of the %files list, in all cases. Outside the build root nothing is added. A path that is
   not there is an error, except for an %exclude. A name given as a directory must be one. A directory that is
   there is recursed into unless the line has a %dir. In all other cases exactly one record is added, with the
   stat data, and the fields, that the rules say.
  */
  lemma PathAdded(c: Context, s: State, path: string)
    requires ValidFs(c.fs) && NoNul(path)
    ensures var (s', ok) := AddState(c, s, path);
            var p, cur := Chop(path), s.cur;
            if !(c.buildRoot <= p) then s' == s.(failed := true) && !ok
            else if NotThere(c, cur, p) then
              if Has(cur.attrFlags, 0x1_0000) then s' == s && ok else s' == s.(failed := true) && !ok
            else if cur.isDir != 0 && !ForDir(c, cur, p) then s' == s.(failed := true) && !ok
            else if cur.isDir != 1 && ForDir(c, cur, p) && LStat(c.fs, p).Some? then (s', ok) == Recursed(c, s, p)
            else
              && ok
              && s'.cur == (if ForDir(c, cur, p) && LStat(c.fs, p).None? then cur.(isDir := 1) else cur)
              && exists st, r :: Known(c, cur, p, st) && RecordIs(c, cur, p, st, r) && Grows(s, s', r)
  {
    hide Has, And, OfInode, MadeUp, RecordIs, Grows, Recursed, IsDirMode, IsRegMode, Large, Record, StatOf,
         FakeStat, ValidFs, LStat;
    var p, cur := Chop(path), s.cur;
    HasIs(cur.attrFlags, 0x40);
    HasIs(cur.attrFlags, 0x1_0000);
    if c.buildRoot <= p && !NotThere(c, cur, p) {
      var src := SourceOf(c, cur, p);
      SourceKnown(c, cur, p);
      var cur' := if src.Faked? && cur.dev.None? && cur.isDir != 0 then cur.(isDir := 1) else cur;
      var r := Record(c, cur', p, src.st);
      RecordSpelled(c, cur', p, src.st);
      SameRecord(c, cur, cur', p, src.st, r);
      GrowsBy(s, cur', r);
    }
  }

  lemma HasIs(f: bv32, b: bv32)
    ensures Has(f, b) <==> f & b != 0
  {
  }

  /** The stat data are those of the rules, and tell a directory. */
  lemma SourceKnown(c: Context, cur: FileEntry, p: string)
    requires ValidFs(c.fs) && !NotThere(c, cur, p)
    ensures var src := SourceOf(c, cur, p);
            && !src.Missing? && Known(c, cur, p, src.st)
            && (IsDirMode(src.st.mode) <==> ForDir(c, cur, p))
            && (src.OnDisk? <==> cur.dev.None? && LStat(c.fs, p).Some?)
  {
    hide Has, StatOf, FakeStat, LStat, OfInode, MadeUp, ValidFs, IsDirMode, IsDir;
    HasIs(cur.attrFlags, 0x40);
    FakeStatIs(c.env, cur);
    MadeUpDir(c.env, cur, FakeStat(c.env, cur));
    match LStat(c.fs, p)
    case None =>
    case Some(id) =>
      Found(c.fs, p);
      StatOfIs(c.fs, id);
      InodeDir(c.fs, id, StatOf(c.fs, id));
  }

  lemma Found(fs: FileSys, p: string)
    requires LStat(fs, p).Some?
    ensures LStat(fs, p).value in fs.inodes
  {
    hide Lookup;
  }

  lemma MadeUpDir(env: Env, cur: FileEntry, st: StatRec)
    requires MadeUp(env, cur, st)
    ensures IsDirMode(st.mode) <==> cur.dev.None? && cur.isDir != 0
  {
    hide Splits, And, IsDirMode;
    var kind: bv32 := if cur.dev.Some? then if cur.dev.value.block then 0x6000 else 0x2000
                      else if cur.isDir == 0 then 0x8000 else 0x4000;
    SplitType(st.mode, kind, And(cur.ar.fmode, 0x1FF));
  }

  lemma InodeDir(fs: FileSys, id: Id, st: StatRec)
    requires ValidFs(fs) && OfInode(fs, id, st)
    ensures IsDirMode(st.mode) <==> IsDir(fs, id)
  {
    hide ValidFs, ValidMode, Splits, IsDirMode, TypeBits;
    ModesValid(fs, id);
    var n := fs.inodes[id];
    TypeInside(n);
    DirType(n);
    SplitType(st.mode, TypeBits(n.kind), n.attr.perm);
  }

  lemma DirType(n: Inode)
    requires ValidMode(n)
    ensures TypeBits(n.kind) == 0x4000 <==> n.kind.Dir?
  {
  }

  lemma SplitType(mode: bv32, fmt: bv32, perm: bv32)
    requires Splits(mode, fmt, perm) && fmt & !0xF000 == 0
    ensures IsDirMode(mode) <==> fmt == 0x4000
  {
  }

  /** Whether the entry is one of a directory does not show in its record. */
  lemma SameRecord(c: Context, cur: FileEntry, cur': FileEntry, p: string, st: StatRec, r: FileRec)
    requires cur' == cur.(isDir := cur'.isDir) && RecordIs(c, cur', p, st, r)
    ensures RecordIs(c, cur, p, st, r)
  {
    hide ModeIs, Joined;
  }

  lemma GrowsBy(s: State, cur: FileEntry, r: FileRec)
    ensures Grows(s, Added(s.(cur := cur), r), r)
  {
    hide Large, TooLarge;
    LargeIs(r);
  }

  /** A record that a recursion adds for an entry of the directory follows the same rules. */
  lemma RecordedIs(c: Context, cur: FileEntry, r: FileRec, p: string)
    requires ValidFs(c.fs) && ManifestProofs.Recorded(c, cur, r, p)
    ensures exists st :: OfInode(c.fs, LStat(c.fs, p).value, st) && RecordIs(c, cur, p, st, r)
  {
    hide ValidFs, OfInode, RecordIs, StatOf, Record, Lookup;
    var id := LStat(c.fs, p).value;
    StatOfIs(c.fs, id);
    RecordSpelled(c, cur, p, StatOf(c.fs, id));
  }

  // ----- the flag for large files

  /** The flag says whether some regular file that is not excluded has a size beyond 32 bits. */
  ghost predicate LargeFits(s: State) {
    s.large <==> exists r :: r in s.files && TooLarge(r)
  }

  lemma AllLarge(recs: seq<FileRec>)
    ensures AnyLarge(recs) <==> exists r :: r in recs && TooLarge(r)
  {
    hide Large, TooLarge;
    forall r ensures Large(r) <==> TooLarge(r) {
      LargeIs(r);
    }
  }

  /** No path makes the flag wrong. */
  lemma LargeKept(c: Context, s: State, path: string)
    requires ValidFs(c.fs) && NoNul(path) && LargeFits(s)
    ensures LargeFits(AddState(c, s, path).0)
  {
    hide ValidFs, TooLarge, Large, SourceOf, Taken, Verdict, Reported, Record, IsDirMode;
    var recs := if Openable(Chop(path)) then Taken(c, s.cur, Reported(c.fs, Chop(path)).0) else [];
    AllLarge(recs);
    forall r ensures Large(r) <==> TooLarge(r) {
      LargeIs(r);
    }
  }

  lemma {:induction false} LargeGlob(c: Context, s: State, ok: bool, paths: seq<string>)
    requires ValidFs(c.fs) && (forall p | p in paths :: NoNul(p)) && LargeFits(s)
    ensures LargeFits(AddAll(c, s, ok, paths).0)
    decreases |paths|
  {
    hide ValidFs, LargeFits, AddState;
    if paths != [] {
      assert paths[0] in paths && forall p | p in paths[1..] :: p in paths;
      LargeKept(c, s, paths[0]);
      var (s', ok') := AddState(c, s, paths[0]);
      LargeGlob(c, s', ok', paths[1..]);
    }
  }

  /** So the sizes of a list made name by name satisfy what the header requires of the flag. */
  lemma LargeName(c: Context, s: State, fileName: string, path: string, glob: bool, matches: seq<string>)
    requires ValidFs(c.fs) && NoNul(path + "/") && NoNul(path) && (forall p | p in matches :: NoNul(p)) && LargeFits(s)
    ensures var s' := BinaryState(c, s, fileName, path, glob, matches).0;
            LargeFits(s') && (AnyLarge(s'.files) ==> s'.large)
  {
    hide ValidFs, AddState, AddAll, TooLarge, AnyLarge;
    var s1 := s.(cur := Slashed(s.cur, fileName));
    LargeGlob(c, s1, true, matches);
    LargeKept(c, s1, if s1.cur.isDir != 0 then path + "/" else path);
    AllLarge(BinaryState(c, s, fileName, path, glob, matches).0.files);
  }

  // ----- one name of a line

  /** One record is added, with the stat data of the inode. */
  ghost predicate AddedAs(c: Context, s: State, path: string, id: Id, s': State) {
    exists st, r :: OfInode(c.fs, id, st) && RecordIs(c, s'.cur, path, st, r) && Grows(s, s', r)
  }

  /** A name that stands for a directory is looked up as it is; of any other a slash at the end is dropped. */
  function DiskName(s: State, fileName: string, path: string): string
    requires fileName != ""
  {
    if s.cur.isDir != 0 || fileName[|fileName| - 1] == '/' then path else Chop(path)
  }

  /**
   A name given with a slash at its end, or on a line with %dir, must be a directory: anything else that is
   there adds nothing and marks the list. A directory with a slash is recursed into; with %dir it gets a record
   of its own, as does any other name.
  */
  lemma NameAdded(c: Context, s: State, fileName: string, path: string, glob: bool, id: Id)
    requires ValidFs(c.fs) && NoNul(path + "/") && NoNul(path) && fileName != "" && fileName[0] == '/'
    requires s.cur.dev.None? && c.buildRoot <= DiskName(s, fileName, path)
    requires LStat(c.fs, DiskName(s, fileName, path)) == Some(id)
    ensures var (s', ok) := BinaryState(c, s, fileName, path, glob, []);
            var slash, disk := fileName[|fileName| - 1] == '/', DiskName(s, fileName, path);
            if IsDir(c.fs, id) && s.cur.isDir != 1 then
              var isDir := if slash && s.cur.isDir == 0 then -1 else s.cur.isDir;
              (s', ok) == Recursed(c, s.(cur := s.cur.(isDir := isDir)), disk)
            else if !IsDir(c.fs, id) && (slash || s.cur.isDir != 0) then
              !ok && s'.failed && s'.files == s.files
            else ok && AddedAs(c, s, disk, id, s')
  {
    hide ValidFs, AddState, Recursed, LStat, IsDir, Chop, BinaryState, Has, AddedAs, Slashed, NoNul;
    var cur := Slashed(s.cur, fileName);
    var p := if cur.isDir != 0 then path + "/" else path;
    SlashedIs(s.cur, fileName);
    ChopSlash(path);
    OneName(c, s, fileName, path, glob);
    PathAddedAs(c, s, cur, p, id);
  }

  lemma PathAddedAs(c: Context, s: State, cur: FileEntry, path: string, id: Id)
    requires ValidFs(c.fs) && NoNul(path) && c.buildRoot <= Chop(path) && cur.dev.None?
    requires LStat(c.fs, Chop(path)) == Some(id)
    ensures var s1 := s.(cur := cur);
            var (s', ok) := AddState(c, s1, path);
            if IsDir(c.fs, id) && cur.isDir != 1 then (s', ok) == Recursed(c, s1, Chop(path))
            else if !IsDir(c.fs, id) && cur.isDir != 0 then !ok && s'.failed && s'.files == s.files
            else ok && AddedAs(c, s, Chop(path), id, s')
  {
    hide ValidFs, AddState, Recursed, OfInode, MadeUp, RecordIs, LStat, IsDir, Chop, Has, Grows;
    var s1 := s.(cur := cur);
    PathAdded(c, s1, path);
    GrowsFrom(s, cur);
    if if IsDir(c.fs, id) then cur.isDir == 1 else cur.isDir == 0 {
      var s' := AddState(c, s1, path).0;
      var st, r :| Known(c, cur, Chop(path), st) && RecordIs(c, cur, Chop(path), st, r) && Grows(s1, s', r);
    }
  }

  lemma SlashedIs(cur: FileEntry, fileName: string)
    requires fileName != ""
    ensures Slashed(cur, fileName) ==
            cur.(isDir := if fileName[|fileName| - 1] == '/' && cur.isDir == 0 then -1 else cur.isDir)
  {
  }

  lemma ChopSlash(path: string)
    ensures Chop(path + "/") == path && (path == "" || path[|path| - 1] != '/' ==> Chop(path) == path)
  {
  }

  lemma OneName(c: Context, s: State, fileName: string, path: string, glob: bool)
    requires s.cur.dev.None?
    requires ValidFs(c.fs) && NoNul(path + "/") && NoNul(path) && fileName != "" && fileName[0] == '/'
    ensures var cur := Slashed(s.cur, fileName);
            BinaryState(c, s, fileName, path, glob, []) ==
            AddState(c, s.(cur := cur), if cur.isDir != 0 then path + "/" else path)
  {
    hide ValidFs, AddState, AddAll;
  }

  lemma GrowsFrom(s: State, cur: FileEntry)
    ensures forall s', r :: Grows(s.(cur := cur), s', r) <==> Grows(s, s', r)
  {
    hide TooLarge;
  }

  // ----- the matches of a pattern

  /** Matches are added in order, each on top of the ones before. */
  lemma {:induction false} GlobCat(c: Context, s: State, ok: bool, a: seq<string>, b: seq<string>)
    requires ValidFs(c.fs) && (forall p | p in a + b :: NoNul(p))
    ensures var (s1, ok1) := AddAll(c, s, ok, a);
            AddAll(c, s, ok, a + b) == AddAll(c, s1, ok1, b)
    ensures |b| == 1 ==> AddAll(c, s, ok, a + b) == AddState(c, AddAll(c, s, ok, a).0, b[0])
    decreases |a|
  {
    hide ValidFs, AddState;
    assert forall p | p in a :: p in a + b;
    assert forall p | p in b :: p in a + b;
    if a == [] {
      assert a + b == b;
    } else {
      assert (a + b)[1..] == a[1..] + b;
      var (s', ok') := AddState(c, s, a[0]);
      GlobCat(c, s', ok', a[1..], b);
    }
  }
}
