/**
 What the file hierarchy walker is for: the recursive walk of the inode graph, and the explicit
 stack of directory entries that fts_read keeps in its place.
*/
module WalkSpec {
  import opened FileSystem

  /** The fts_info values that occur without FTS_NOSTAT and without whiteouts. */
  datatype Info = D | DC | DEFAULT | DNR | DOT | DP | ERR | F | INIT | NS | SL | SLNONE

  datatype Options = Options(logical: bool, comfollow: bool, seedot: bool)

  /** What the caller of fts_read sees: fts_info, the path, the inode in the stat buffer, fts_level. */
  datatype Visit = Visit(info: Info, path: string, st: Option<Id>, level: int)

  /** A directory entry that fts_build (or fts_open) has stat'ed. */
  datatype Item = Item(path: string, name: string, info: Info, st: Option<Id>, level: int)

  const MAXPATHLEN := 1024
  const UINT16_MAX := 65535
  const ROOTPARENTLEVEL := -1
  const ROOTLEVEL := 0

  /** Which visits, counted from 0, the caller answers with FTS_SKIP. */
  type SkipPlan = int -> bool

  predicate IsDot(name: string) {
    name == "." || name == ".."
  }

  // ----- one stat call

  function TypeInfo(fs: FileSys, id: Id, dot: bool, ancs: set<Id>): Info
    requires id in fs.inodes
  {
    match fs.inodes[id].kind
    case Dir(_, _) => if dot then DOT else if id in ancs then DC else D
    case Symlink(_) => SL
    case Reg => F
    case Other(_) => DEFAULT
  }

  /** fts_info and stat buffer for the object that the path name resolves to (without following). */
  function Classify(fs: FileSys, follow: bool, lid: Option<Id>, dot: bool, ancs: set<Id>): (r: (Info, Option<Id>))
    ensures r.0 in {D, DC, DEFAULT, DOT, F, NS, SL, SLNONE}
    ensures r.0 in {D, DC, DOT} ==> r.1.Some? && IsDir(fs, r.1.value) && (r.0 == D ==> r.1.value !in ancs)
  {
    if lid.None? || lid.value !in fs.inodes then (NS, None)
    else if !follow then (TypeInfo(fs, lid.value, dot, ancs), lid)
    else match Target(fs, lid.value)
      case None => (SLNONE, lid)
      case Some(id) => (TypeInfo(fs, id, dot, ancs), Some(id))
  }

  /** The names that the walk reports: all of them with FTS_SEEDOT, else all but "." and "..". */
  function Kept(o: Options, names: seq<string>): seq<string> {
    if names == [] then []
    else (if !o.seedot && IsDot(names[0]) then [] else [names[0]]) + Kept(o, names[1..])
  }

  /** The names to report in a directory, or None when it cannot be read. */
  function Listing(fs: FileSys, o: Options, st: Option<Id>): Option<seq<string>> {
    if st.Some? && IsDir(fs, st.value) && fs.inodes[st.value].kind.readable
    then Some(Kept(o, Names(Entries(fs, st))))
    else None
  }

  function Kid(fs: FileSys, o: Options, h: Item, ancs: set<Id>, name: string): (r: Item)
    ensures Descendable(fs, r, ancs)
    ensures r.info !in {INIT, DP, DNR, ERR} && r.level == h.level + 1 && r.name == name
  {
    var (info, st) := Classify(fs, o.logical, Find(Entries(fs, h.st), name), IsDot(name), ancs);
    Item(Join(h.path, name), name, info, st, h.level + 1)
  }

  function RootItem(fs: FileSys, o: Options, arg: string): (r: Item)
    ensures Descendable(fs, r, {})
  {
    var (info, st) := Classify(fs, o.logical || o.comfollow, Lookup(fs, arg), IsDot(arg), {});
    Item(arg, arg, if info == DOT then D else info, st, ROOTLEVEL)
  }

  // ----- the recursive walk

  function Pre(it: Item): Visit {
    Visit(it.info, it.path, it.st, it.level)
  }

  function Post(it: Item): Visit {
    Visit(DP, it.path, it.st, it.level)
  }

  /** A directory to descend into is a directory of the graph that is not among its ancestors. */
  ghost predicate Descendable(fs: FileSys, it: Item, ancs: set<Id>) {
    it.info == D ==> it.st.Some? && IsDir(fs, it.st.value) && it.st.value !in ancs
  }

  /** All visits below and including it, its own visit being number k. */
  ghost function VisitTree(fs: FileSys, o: Options, it: Item, ancs: set<Id>, k: int, skip: SkipPlan): seq<Visit>
    decreases Dirs(fs) - ancs, 1, 0
  {
    [Pre(it)] + Inside(fs, o, it, ancs, k, skip)
  }

  /**
   The visits after the first one, number k, of it: none unless it is a directory to descend into.
   An empty directory whose path ends in a slash is reported without that slash at its post-order
   visit.
  */
  ghost function Inside(fs: FileSys, o: Options, it: Item, ancs: set<Id>, k: int, skip: SkipPlan): seq<Visit>
    decreases Dirs(fs) - ancs, 0, 0
  {
    if it.info != D || !Descendable(fs, it, ancs) then []
    else if skip(k) then [Post(it)]
    else match Listing(fs, o, it.st)
      case None => [Visit(DNR, it.path, it.st, it.level)]
      case Some(names) =>
        if names == [] then [Visit(DP, Chop(it.path), it.st, it.level)]
        else VisitAll(fs, o, it, {it.st.value} + ancs, names, k + 1, skip) + [Post(it)]
  }

  ghost function VisitAll(fs: FileSys, o: Options, h: Item, ancs: set<Id>, names: seq<string>,
                          k: int, skip: SkipPlan): seq<Visit>
    decreases Dirs(fs) - ancs, 2, |names|
  {
    if names == [] then []
    else
      var v := VisitTree(fs, o, Kid(fs, o, h, ancs, names[0]), ancs, k, skip);
      v + VisitAll(fs, o, h, ancs, names[1..], k + |v|, skip)
  }

  /** The whole walk: the roots in order. */
  ghost function WalkRoots(fs: FileSys, o: Options, args: seq<string>, k: int, skip: SkipPlan): seq<Visit> {
    if args == [] then []
    else
      var v := VisitTree(fs, o, RootItem(fs, o, args[0]), {}, k, skip);
      v + WalkRoots(fs, o, args[1..], k + |v|, skip)
  }

  // ----- the stack machine

  /**
   One node of the walker. An open frame is a directory that has been descended into; any other
   frame but the top one is an entry still to be visited. up is the index of the directory frame.
  */
  datatype Frame = Frame(item: Item, open: bool, up: nat)

  /**
   Frame 0 is the parent of the roots and the last frame is fts_cur; no frames means fts_cur is
   NULL. cap is the size of the path buffer.
  */
  datatype Walker = Walker(frames: seq<Frame>, cap: nat, stopped: bool)

  const ROOT_PARENT := Frame(Item("", "", INIT, None, ROOTPARENTLEVEL), true, 0)
  const DUMMY := Frame(Item("", "", INIT, None, ROOTLEVEL), false, 0)

  /** fts_palloc: the new buffer size, or None when it would reach UINT16_MAX. */
  function Grow(cap: nat, more: nat): (r: Option<nat>)
    ensures r.Some? ==> r.value == cap + more + 256 < UINT16_MAX
  {
    if cap + more + 256 >= UINT16_MAX then None else Some(cap + more + 256)
  }

  /** The buffer size after fts_build has stored each name behind a prefix of len characters. */
  function GrowFor(cap: nat, len: nat, names: seq<string>): (r: Option<nat>)
    ensures r.Some? ==> r.value >= cap && (cap < UINT16_MAX ==> r.value < UINT16_MAX)
    decreases |names|
  {
    if names == [] then Some(cap)
    else
      var n := |names[0]|;
      var c := if n >= cap - len then Grow(cap, n + len + 1) else Some(cap);
      if c.None? || len + n >= UINT16_MAX then None else GrowFor(c.value, len, names[1..])
  }

  function Max(a: int, b: int): (m: int)
    ensures m >= a && m >= b && (m == a || m == b)
  {
    if a > b then a else b
  }

  function MaxArgLen(args: seq<string>): (m: nat)
    ensures forall i | 0 <= i < |args| :: |args[i]| < m
    ensures m >= 1
  {
    if args == [] then 1 else Max(|args[0]| + 1, MaxArgLen(args[1..]))
  }

  /** Entries stacked so that the first one is on top. */
  function Stack(items: seq<Item>, up: nat): (r: seq<Frame>)
    ensures |r| == |items|
    ensures forall i | 0 <= i < |items| :: r[|items| - 1 - i] == Frame(items[i], false, up)
  {
    seq(|items|, i requires 0 <= i < |items| => Frame(items[|items| - 1 - i], false, up))
  }

  function RootItems(fs: FileSys, o: Options, args: seq<string>): (r: seq<Item>)
    ensures |r| == |args|
    ensures forall i | 0 <= i < |r| :: r[i] == RootItem(fs, o, args[i])
  {
    seq(|args|, i requires 0 <= i < |args| => RootItem(fs, o, args[i]))
  }

  function KidItems(fs: FileSys, o: Options, h: Item, ancs: set<Id>, names: seq<string>): (r: seq<Item>)
    ensures |r| == |names|
    ensures forall i | 0 <= i < |r| :: r[i] == Kid(fs, o, h, ancs, names[i])
  {
    seq(|names|, i requires 0 <= i < |names| => Kid(fs, o, h, ancs, names[i]))
  }

  /** fts_open: the walker before the first fts_read, or None when fts_open returns NULL. */
  function OpenWalker(fs: FileSys, o: Options, args: seq<string>): Option<Walker> {
    var cap := Grow(0, Max(MaxArgLen(args), MAXPATHLEN));
    if cap.None? || "" in args then None
    else Some(Walker([ROOT_PARENT] + Stack(RootItems(fs, o, args), 0) + [DUMMY], cap.value, false))
  }

  /** The ids of frame a and the directories above it. */
  function AncIds(frames: seq<Frame>, a: nat): set<Id>
    decreases a
  {
    if a == 0 || a >= |frames| || frames[a].up >= a || frames[a].item.st.None? then {}
    else {frames[a].item.st.value} + AncIds(frames, frames[a].up)
  }

  function Shown(w: Walker, path: string, f: Frame): (Option<Visit>, Walker)
  {
    (Some(Visit(f.item.info, path, f.item.st, f.item.level)), w)
  }

  /** A directory is entered: its entries go on top of it. */
  function Enter(fs: FileSys, o: Options, w: Walker, names: seq<string>): (Option<Visit>, Walker)
    requires w.frames != [] && names != []
  {
    var t := |w.frames| - 1;
    var f := w.frames[t];
    match GrowFor(w.cap, |Chop(f.item.path)| + 1, names)
    case None => (None, Become(w, "", ERR).1.(stopped := true))
    case Some(cap) =>
      var kids := KidItems(fs, o, f.item, AncIds(w.frames, t), names);
      var w' := Walker(w.frames[..t] + [f.(open := true)] + Stack(kids, t), cap, false);
      Shown(w', kids[0].path, Frame(kids[0], false, t))
  }

  /** The top frame is finished: its next sibling or, after the last one, its directory. */
  function Leave(w: Walker): (Option<Visit>, Walker)
    requires |w.frames| >= 2
  {
    var t := |w.frames| - 2;
    var f := w.frames[t];
    if t == 0 then (None, w.(frames := []))
    else if f.open then
      var f' := f.(item := f.item.(info := DP), open := false);
      Shown(w.(frames := w.frames[..t] + [f']), f.item.path, f')
    else Shown(w.(frames := w.frames[..t + 1]), f.item.path, f)
  }

  /** The top frame is a directory after its pre-order visit. */
  function Descend(fs: FileSys, o: Options, w: Walker, skip: bool): (Option<Visit>, Walker)
    requires w.frames != []
  {
    var it := w.frames[|w.frames| - 1].item;
    if skip then Become(w, it.path, DP)
    else match Listing(fs, o, it.st)
      case None => Become(w, it.path, DNR)
      case Some(names) => if names == [] then Become(w, Chop(it.path), DP) else Enter(fs, o, w, names)
  }

  /** One fts_read; skip says that the caller has set FTS_SKIP on the current node. */
  function Step(fs: FileSys, o: Options, w: Walker, skip: bool): (Option<Visit>, Walker)
    requires |w.frames| != 1
  {
    if w.stopped || w.frames == [] then (None, w)
    else if w.frames[|w.frames| - 1].item.info == D then Descend(fs, o, w, skip)
    else Leave(w)
  }

  /** The top frame stays, with another fts_info. */
  function Become(w: Walker, path: string, info: Info): (Option<Visit>, Walker)
    requires w.frames != []
  {
    var t := |w.frames| - 1;
    var f := w.frames[t].(item := w.frames[t].item.(info := info));
    Shown(w.(frames := w.frames[..t] + [f]), path, f)
  }

  // ----- what is still to come

  /** The visits that the bottom n frames still give, the first one being number k. */
  ghost function RestOf(fs: FileSys, o: Options, frames: seq<Frame>, n: nat, k: int, skip: SkipPlan): seq<Visit>
    requires n <= |frames|
  {
    if n <= 1 then []
    else if frames[n - 1].open then [Post(frames[n - 1].item)] + RestOf(fs, o, frames, n - 1, k + 1, skip)
    else
      var v := VisitTree(fs, o, frames[n - 1].item, AncIds(frames, frames[n - 1].up), k, skip);
      v + RestOf(fs, o, frames, n - 1, k + |v|, skip)
  }

  /** The visits to come when n visits have been reported, the last one being the top frame. */
  ghost function Future(fs: FileSys, o: Options, w: Walker, n: int, skip: SkipPlan): seq<Visit> {
    if |w.frames| <= 1 then []
    else
      var t := |w.frames| - 1;
      var v := Inside(fs, o, w.frames[t].item, AncIds(w.frames, w.frames[t].up), n - 1, skip);
      v + RestOf(fs, o, w.frames, t, n + |v|, skip)
  }
}
