/**
 The file system as seen by the walker: a fixed, finite graph of inodes.
 stat(2), lstat(2), opendir(3) and readdir(3) are look-ups by path name in that graph.
*/
module FileSystem {
  import opened CStrings

  /** st_dev and st_ino. */
  datatype Id = Id(dev: nat, ino: nat)

  datatype Option<T> = None | Some(value: T)

  /** One name that readdir(3) reports, and the inode it refers to. */
  datatype Entry = Entry(name: string, id: Id)

  /**
   A symbolic link records the inode its target finally resolves to, or None when the target
   does not exist or runs into a loop. Other stands for devices, pipes and sockets; fmt is their
   file type as in st_mode.
  */
  datatype Kind =
    | Dir(readable: bool, entries: seq<Entry>)
    | Reg
    | Symlink(target: Option<Id>)
    | Other(fmt: bv32)

  /** The rest of struct stat; perm holds the mode bits below the file type. */
  datatype Attr = Attr(perm: bv32, nlink: nat, uid: nat, gid: nat, rdev: nat, size: nat, mtime: nat)

  datatype Inode = Inode(kind: Kind, attr: Attr)

  /** An id absent from inodes belongs to an object that cannot be stat'ed. */
  datatype FileSys = FileSys(inodes: map<Id, Inode>, rootDir: Id, cwd: Id)

  ghost predicate ValidName(name: string) {
    name != "" && '/' !in name && NoNul(name)
  }

  const S_IFMT: bv32 := 0xF000
  const S_IFDIR: bv32 := 0x4000
  const S_IFREG: bv32 := 0x8000
  const S_IFLNK: bv32 := 0xA000

  function FileType(k: Kind): bv32 {
    match k
    case Dir(_, _) => S_IFDIR
    case Reg => S_IFREG
    case Symlink(_) => S_IFLNK
    case Other(fmt) => fmt
  }

  /** st_mode of an inode. */
  function Mode(n: Inode): bv32 {
    FileType(n.kind) | n.attr.perm
  }

  ghost predicate ValidMode(n: Inode) {
    && n.attr.perm & 0xFFFF_F000 == 0
    && (n.kind.Other? ==>
          && n.kind.fmt & !S_IFMT == 0
          && n.kind.fmt != S_IFDIR && n.kind.fmt != S_IFREG && n.kind.fmt != S_IFLNK)
  }

  ghost predicate ValidFs(fs: FileSys) {
    && (forall id | id in fs.inodes && fs.inodes[id].kind.Dir? ::
          forall i | 0 <= i < |fs.inodes[id].kind.entries| :: ValidName(fs.inodes[id].kind.entries[i].name))
    && (forall id | id in fs.inodes :: ValidMode(fs.inodes[id]))
  }

  predicate IsDir(fs: FileSys, id: Id) {
    id in fs.inodes && fs.inodes[id].kind.Dir?
  }

  ghost function Dirs(fs: FileSys): set<Id> {
    set id | id in fs.inodes && IsDir(fs, id)
  }

  function Find(entries: seq<Entry>, name: string): (r: Option<Id>) {
    if entries == [] then None
    else if entries[0].name == name then Some(entries[0].id)
    else Find(entries[1..], name)
  }

  function Entries(fs: FileSys, st: Option<Id>): seq<Entry> {
    if st.Some? && IsDir(fs, st.value) then fs.inodes[st.value].kind.entries else []
  }

  /** The inode of a symbolic link's target, or the inode itself: what stat(2) finds at id. */
  function Target(fs: FileSys, id: Id): Option<Id> {
    if id !in fs.inodes then None
    else match fs.inodes[id].kind
      case Symlink(None) => None
      case Symlink(Some(t)) => if t in fs.inodes && !fs.inodes[t].kind.Symlink? then Some(t) else None
      case _ => Some(id)
  }

  /** Path name resolution without following a final symbolic link: the inode lstat(2) names. */
  function Lookup(fs: FileSys, path: string): Option<Id>
    decreases |path|, 0
  {
    var i := LastSlash(path);
    var name := path[i + 1..];
    var dir := if i < 0 then Some(fs.cwd) else Follow(fs, path[..i]);
    if path == "" || dir.None? || !IsDir(fs, dir.value) then None
    else if name == "" then dir
    else Find(Entries(fs, dir), name)
  }

  /** Path name resolution that follows symbolic links; the empty prefix of "/x" is the root. */
  function Follow(fs: FileSys, path: string): Option<Id>
    decreases |path|, 1
  {
    if path == "" then Some(fs.rootDir)
    else match Lookup(fs, path)
      case None => None
      case Some(id) => Target(fs, id)
  }

  /** lstat(2): the inode whose data fills the stat buffer, or None on failure. */
  function LStat(fs: FileSys, path: string): Option<Id> {
    var l := Lookup(fs, path);
    if l.Some? && l.value in fs.inodes then l else None
  }

  /** stat(2). */
  function Stat(fs: FileSys, path: string): Option<Id> {
    var l := Lookup(fs, path);
    if l.Some? then Target(fs, l.value) else None
  }

  /** opendir(3) and all readdir(3) results; None when the directory cannot be opened. */
  function OpenDir(fs: FileSys, path: string): Option<seq<string>> {
    match Stat(fs, path)
    case Some(d) =>
      if IsDir(fs, d) && fs.inodes[d].kind.readable then Some(Names(Entries(fs, Some(d)))) else None
    case None => None
  }

  function Names(entries: seq<Entry>): (r: seq<string>)
    ensures |r| == |entries|
    ensures forall i | 0 <= i < |r| :: r[i] == entries[i].name
  {
    seq(|entries|, i requires 0 <= i < |entries| => entries[i].name)
  }

  /** The walker drops one trailing slash before it appends "/" and a name. */
  function Chop(path: string): (r: string)
    ensures r == path || path == r + "/"
  {
    if path != "" && path[|path| - 1] == '/' then path[..|path| - 1] else path
  }

  function Join(path: string, name: string): (r: string)
    ensures |r| == |Chop(path)| + 1 + |name|
  {
    Chop(path) + "/" + name
  }

  /**
   Looking up a joined path gives the directory entry of that name: walking by path strings is
   walking the inode graph.
  */
  lemma LookupJoin(fs: FileSys, path: string, d: Id, name: string)
    requires ValidName(name)
    requires path != "" && Stat(fs, path) == Some(d) && IsDir(fs, d)
    ensures Lookup(fs, Join(path, name)) == Find(Entries(fs, Some(d)), name)
  {
    var q := Chop(path);
    LookupIn(fs, q, name);
    FollowChop(fs, path, d);
  }

  /** The last component is looked up in the directory that the part before it leads to. */
  lemma LookupIn(fs: FileSys, q: string, name: string)
    requires '/' !in name
    ensures LastSlash(q + "/" + name) == |q|
    ensures (q + "/" + name)[..|q|] == q && (q + "/" + name)[|q| + 1..] == name
    ensures Lookup(fs, q + "/" + name) ==
            var dir := Follow(fs, q);
            if dir.None? || !IsDir(fs, dir.value) then None
            else if name == "" then dir
            else Find(Entries(fs, dir), name)
  {
    var p := q + "/" + name;
    assert p[|q| + 1..] == name && p[..|q|] == q && p[|q|] == '/';
    LastSlashIs(p, |q|);
  }

  lemma FollowChop(fs: FileSys, path: string, d: Id)
    requires path != "" && Stat(fs, path) == Some(d) && IsDir(fs, d)
    ensures Follow(fs, Chop(path)) == Some(d)
  {
    var q := Chop(path);
    if q != path {
      assert path == q + "/" + "";
      LookupIn(fs, q, "");
    }
  }
}
