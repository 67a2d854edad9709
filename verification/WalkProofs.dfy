/**
 The stack machine agrees with the recursive walk: one step yields exactly the next visit, so
 reading to the end yields the whole walk.
*/
module WalkProofs {
  import opened CStrings
  import opened FileSystem
  import opened WalkSpec

  ghost predicate PathOk(fs: FileSys, w: Walker, i: nat)
    requires 1 <= i < |w.frames| && w.frames[i].up < i
  {
    var f := w.frames[i];
    && f.item.path != "" && NoNul(f.item.path) && |f.item.path| < w.cap && |f.item.path| < UINT16_MAX
    && (f.item.info == D ==> Stat(fs, f.item.path) == f.item.st)
    && (f.item.level >= 1 ==>
          && ValidName(f.item.name) && f.item.path == Join(w.frames[f.up].item.path, f.item.name)
          && |f.item.path| >= 2 * f.item.level)
    && (f.item.level == ROOTLEVEL ==> NoNul(f.item.name))
  }

  ghost predicate FrameOk(fs: FileSys, w: Walker, i: nat)
    requires 1 <= i < |w.frames|
  {
    var f := w.frames[i];
    && f.up < i && w.frames[f.up].open
    && f.up == (if w.frames[i - 1].open then i - 1 else w.frames[i - 1].up)
    && f.item.level == w.frames[f.up].item.level + 1
    && (f.open ==> f.item.info == D)
    && Descendable(fs, f.item, AncIds(w.frames, f.up))
    && (if f.item.info == INIT then f == DUMMY && i == |w.frames| - 1 && !w.frames[i - 1].open
        else PathOk(fs, w, i))
  }

  /** The invariant of the walker between two calls. */
  ghost predicate Wf(fs: FileSys, w: Walker) {
    && w.cap < UINT16_MAX
    && (w.frames != [] ==>
          && |w.frames| >= 2
          && w.frames[0] == ROOT_PARENT
          && !w.frames[|w.frames| - 1].open
          && forall i | 1 <= i < |w.frames| :: FrameOk(fs, w, i))
  }

  // ----- what depends on a part of the stack only

  lemma {:induction false} AncSame(f: seq<Frame>, g: seq<Frame>, a: nat)
    requires a < |f| && a < |g|
    requires forall j | 0 <= j <= a :: f[j].up == g[j].up && f[j].item.st == g[j].item.st
    ensures AncIds(f, a) == AncIds(g, a)
    decreases a
  {
    if a != 0 && f[a].up < a {
      AncSame(f, g, f[a].up);
    }
  }

  lemma {:induction false} RestSame(fs: FileSys, o: Options, f: seq<Frame>, g: seq<Frame>, n: nat, k: int,
                                    skip: SkipPlan)
    requires n <= |f| && n <= |g| && forall j | 0 <= j < n :: f[j] == g[j]
    requires forall j | 1 <= j < n :: UpBelow(f, j)
    ensures RestOf(fs, o, f, n, k, skip) == RestOf(fs, o, g, n, k, skip)
    decreases n
  {
    hide VisitTree, AncIds;
    if n > 1 {
      var x := f[n - 1];
      assert g[n - 1] == x && UpBelow(f, n - 1);
      AncSame(f, g, x.up);
      var step := if x.open then 1 else |VisitTree(fs, o, x.item, AncIds(f, x.up), k, skip)|;
      RestSame(fs, o, f, g, n - 1, k + step, skip);
    }
  }

  ghost predicate UpBelow(f: seq<Frame>, j: nat)
    requires j < |f|
  {
    f[j].up < j
  }

  // ----- a new entry is classified by its path as by the graph

  lemma KidIsGood(fs: FileSys, o: Options, h: Item, ancs: set<Id>, name: string)
    requires h.info == D && h.st.Some? && IsDir(fs, h.st.value) && Stat(fs, h.path) == h.st && h.path != ""
    requires ValidName(name)
    ensures var kid := Kid(fs, o, h, ancs, name);
            && Lookup(fs, kid.path) == Find(Entries(fs, h.st), name)
            && (kid.info == D ==> Stat(fs, kid.path) == kid.st)
            && kid.info != INIT && kid.path != ""
  {
    hide Lookup, Find, Entries, Join, ValidName;
    LookupJoin(fs, h.path, h.st.value, name);
  }

  lemma NoTrailingSlash(path: string, name: string)
    requires ValidName(name)
    ensures Chop(Join(path, name)) == Join(path, name)
    ensures path <= Join(path, name)
  {
    var p := Join(path, name);
    assert p[|p| - 1] == name[|name| - 1];
    assert name[|name| - 1] in name;
  }

  /** The reported names are names of the directory, without "." and ".." unless asked for. */
  lemma {:induction false} KeptIn(o: Options, names: seq<string>)
    ensures forall n :: n in Kept(o, names) <==> n in names && (o.seedot || !IsDot(n))
  {
    if names != [] {
      KeptIn(o, names[1..]);
      forall n ensures n in names <==> n == names[0] || n in names[1..] {
        assert names == [names[0]] + names[1..];
      }
    }
  }

  /** The numbers of the names to report, when the first name has number from. */
  ghost function Places(o: Options, names: seq<string>, from: nat): seq<nat> {
    if names == [] then []
    else (if o.seedot || !IsDot(names[0]) then [from] else []) + Places(o, names[1..], from + 1)
  }

  lemma {:induction false} PlacesRise(o: Options, names: seq<string>, from: nat)
    ensures forall i | 0 <= i < |Places(o, names, from)| :: from <= Places(o, names, from)[i] < from + |names|
    ensures forall i, j | 0 <= i < j < |Places(o, names, from)| :: Places(o, names, from)[i] < Places(o, names, from)[j]
  {
    hide IsDot;
    if names != [] {
      PlacesRise(o, names[1..], from + 1);
    }
  }

  lemma {:induction false} PlacesAll(o: Options, names: seq<string>, from: nat, k: nat)
    requires k < |names|
    ensures from + k in Places(o, names, from) <==> o.seedot || !IsDot(names[k])
  {
    hide IsDot;
    PlacesRise(o, names[1..], from + 1);
    if k > 0 {
      PlacesAll(o, names[1..], from + 1, k - 1);
    }
  }

  lemma {:induction false} PlacesNames(o: Options, names: seq<string>, from: nat, i: nat)
    requires i < |Places(o, names, from)|
    ensures |Kept(o, names)| == |Places(o, names, from)|
    ensures var k := Places(o, names, from)[i]; from <= k < from + |names| && Kept(o, names)[i] == names[k - from]
  {
    hide IsDot;
    var rest := Places(o, names[1..], from + 1);
    var n := if o.seedot || !IsDot(names[0]) then 1 else 0;
    PlacesCount(o, names, from);
    if n <= i {
      PlacesNames(o, names[1..], from + 1, i - n);
    }
  }

  lemma {:induction false} PlacesCount(o: Options, names: seq<string>, from: nat)
    ensures |Kept(o, names)| == |Places(o, names, from)|
  {
    if names != [] {
      PlacesCount(o, names[1..], from + 1);
    }
  }

  /** They are in the order of the directory: the i-th name reported is number ks[i], and none is left out. */
  lemma KeptOrder(o: Options, names: seq<string>) returns (ks: seq<nat>)
    ensures |ks| == |Kept(o, names)| && forall i, j | 0 <= i < j < |ks| :: ks[i] < ks[j]
    ensures forall i | 0 <= i < |ks| :: ks[i] < |names| && Kept(o, names)[i] == names[ks[i]]
    ensures forall k | 0 <= k < |names| :: k in ks <==> o.seedot || names[k] !in [".", ".."]
  {
    hide Places, Kept;
    ks := Places(o, names, 0);
    PlacesRise(o, names, 0);
    PlacesCount(o, names, 0);
    forall i | 0 <= i < |ks| ensures ks[i] < |names| && Kept(o, names)[i] == names[ks[i]] {
      PlacesNames(o, names, 0, i);
    }
    forall k | 0 <= k < |names| ensures k in ks <==> o.seedot || names[k] !in [".", ".."] {
      PlacesAll(o, names, 0, k);
    }
  }

  lemma KeptValid(fs: FileSys, o: Options, d: Id)
    requires ValidFs(fs) && IsDir(fs, d)
    ensures forall n | n in Kept(o, Names(Entries(fs, Some(d)))) :: ValidName(n)
  {
    var es := Entries(fs, Some(d));
    KeptIn(o, Names(es));
    forall n | n in Names(es) ensures ValidName(n) {
      var i :| 0 <= i < |es| && Names(es)[i] == n;
      assert ValidName(fs.inodes[d].kind.entries[i].name);
    }
  }

  lemma ListingValid(fs: FileSys, o: Options, st: Option<Id>)
    requires ValidFs(fs) && Listing(fs, o, st).Some?
    ensures forall n | n in Listing(fs, o, st).value :: ValidName(n)
  {
    KeptValid(fs, o, st.value);
  }

  /** One name after the other: the buffer after the first name is the one the others start from. */
  lemma GrowForStep(cap: nat, len: nat, names: seq<string>)
    requires names != []
    ensures GrowFor(cap, len, names) ==
            match GrowFor(cap, len, [names[0]]) case None => None case Some(c) => GrowFor(c, len, names[1..])
  {
    var n := |names[0]|;
    var c := if n >= cap - len then Grow(cap, n + len + 1) else Some(cap);
    if c.Some? {
      assert GrowFor(c.value, len, [names[0]][1..]) == c;
    }
  }

  /** The names still to be reported from the i-th one on. */
  lemma KeptStep(o: Options, names: seq<string>, i: nat)
    requires i < |names|
    ensures Kept(o, names[i..]) ==
            if !o.seedot && IsDot(names[i]) then Kept(o, names[i + 1..]) else [names[i]] + Kept(o, names[i + 1..])
  {
    assert names[i..][0] == names[i] && names[i..][1..] == names[i + 1..];
  }

  /** The buffer that fts_build ends up with has room for every path it stores, with its NUL. */
  lemma {:induction false} GrowForFits(cap: nat, len: nat, names: seq<string>)
    requires GrowFor(cap, len, names).Some?
    ensures forall i | 0 <= i < |names| ::
              len + |names[i]| < GrowFor(cap, len, names).value && len + |names[i]| < UINT16_MAX
    decreases |names|
  {
    if names != [] {
      var n := |names[0]|;
      var c := if n >= cap - len then Grow(cap, n + len + 1) else Some(cap);
      GrowForFits(c.value, len, names[1..]);
      forall i | 0 <= i < |names|
        ensures len + |names[i]| < GrowFor(cap, len, names).value && len + |names[i]| < UINT16_MAX
      {
        if i > 0 {
          assert names[i] == names[1..][i - 1];
        }
      }
    }
  }

  // ----- a step keeps the invariant

  /** A frame stays good when what lies below it stays, even if it is opened, closed or finished. */
  lemma FrameKept(fs: FileSys, w: Walker, w': Walker, i: nat)
    requires 1 <= i < |w.frames| && i < |w'.frames| && FrameOk(fs, w, i)
    requires forall j | 0 <= j < i :: w'.frames[j] == w.frames[j]
    requires w'.cap >= w.cap && w'.frames[i].up == w.frames[i].up
    requires w'.frames[i].item == w.frames[i].item ||
             (w.frames[i].item.info == D && w'.frames[i].item.info in {DP, DNR, ERR} &&
              w'.frames[i].item == w.frames[i].item.(info := w'.frames[i].item.info))
    requires w'.frames[i].open ==> w'.frames[i].item.info == D
    requires w.frames[i].item.info == INIT ==> w'.frames[i] == w.frames[i] && i == |w'.frames| - 1
    ensures FrameOk(fs, w', i)
  {
    AncSame(w.frames, w'.frames, w.frames[i].up);
  }

  lemma BecomeWf(fs: FileSys, w: Walker, path: string, info: Info)
    requires Wf(fs, w) && w.frames != [] && w.frames[|w.frames| - 1].item.info == D
    requires info in {DP, DNR, ERR}
    ensures Wf(fs, Become(w, path, info).1)
  {
    var w' := Become(w, path, info).1;
    forall i | 1 <= i < |w'.frames| ensures FrameOk(fs, w', i) {
      FrameKept(fs, w, w', i);
    }
  }

  lemma LeaveWf(fs: FileSys, w: Walker)
    requires Wf(fs, w) && |w.frames| >= 2
    ensures Wf(fs, Leave(w).1)
  {
    var w' := Leave(w).1;
    forall i | 1 <= i < |w'.frames| ensures FrameOk(fs, w', i) {
      assert FrameOk(fs, w, i);
      FrameKept(fs, w, w', i);
    }
  }

  lemma StoppedWf(fs: FileSys, w: Walker)
    requires Wf(fs, w)
    ensures Wf(fs, w.(stopped := true))
  {
    var w' := w.(stopped := true);
    forall i | 1 <= i < |w'.frames| ensures FrameOk(fs, w', i) {
      FrameKept(fs, w, w', i);
    }
  }

  /** An entry of the open directory at t, put on the stack above it, is a good frame. */
  lemma KidFrameOk(fs: FileSys, o: Options, w: Walker, t: nat, i: nat, name: string)
    requires 1 <= t < i < |w.frames| && FrameOk(fs, w, t) && w.frames[t].open
    requires w.frames[i] == Frame(Kid(fs, o, w.frames[t].item, AncIds(w.frames, t), name), false, t)
    requires i - 1 == t || (!w.frames[i - 1].open && w.frames[i - 1].up == t)
    requires ValidName(name) && |Chop(w.frames[t].item.path)| + 1 + |name| < w.cap < UINT16_MAX
    ensures FrameOk(fs, w, i)
  {
    var h := w.frames[t].item;
    KidIsGood(fs, o, h, AncIds(w.frames, t), name);
    assert PathOk(fs, w, i) by {
      KidPathLength(fs, w, t, name);
    }
  }

  /** Every level adds at least two characters to the path. */
  lemma KidPathLength(fs: FileSys, w: Walker, t: nat, name: string)
    requires 1 <= t < |w.frames| && FrameOk(fs, w, t) && w.frames[t].item.info == D && ValidName(name)
    ensures |Join(w.frames[t].item.path, name)| >= 2 * (w.frames[t].item.level + 1)
    ensures NoNul(Join(w.frames[t].item.path, name))
  {
    var h := w.frames[t].item;
    if h.level >= 1 {
      NoTrailingSlash(w.frames[w.frames[t].up].item.path, h.name);
    }
  }

  /** w' arises from w by opening the directory on top and putting its entries above it. */
  ghost predicate Grown(fs: FileSys, o: Options, w: Walker, names: seq<string>, w': Walker)
    requires w.frames != []
  {
    var t := |w.frames| - 1;
    && names != [] && w.cap <= w'.cap < UINT16_MAX && !w'.stopped
    && |w'.frames| == |w.frames| + |names|
    && (forall j | 0 <= j < t :: w'.frames[j] == w.frames[j])
    && w'.frames[t] == w.frames[t].(open := true)
    && (forall i | t < i <= t + |names| ::
          && w'.frames[i] == Frame(Kid(fs, o, w.frames[t].item, AncIds(w.frames, t), names[t + |names| - i]), false, t)
          && |Chop(w.frames[t].item.path)| + 1 + |names[t + |names| - i]| < w'.cap)
  }

  /** With path space for all names, entering a directory grows the stack and visits the first entry. */
  lemma EnterGrows(fs: FileSys, o: Options, w: Walker, names: seq<string>, cap: nat)
    requires w.frames != [] && w.frames[|w.frames| - 1].item.info == D
    requires names != [] && w.cap < UINT16_MAX
    requires GrowFor(w.cap, |Chop(w.frames[|w.frames| - 1].item.path)| + 1, names) == Some(cap)
    ensures Enter(fs, o, w, names).1.cap == cap && Grown(fs, o, w, names, Enter(fs, o, w, names).1)
    ensures var t := |w.frames| - 1;
            Enter(fs, o, w, names).0 == Some(Pre(Kid(fs, o, w.frames[t].item, AncIds(w.frames, t), names[0])))
  {
    hide Kid, AncIds, Chop, GrowFor, Stack, KidItems;
    GrowForFits(w.cap, |Chop(w.frames[|w.frames| - 1].item.path)| + 1, names);
    var t := |w.frames| - 1;
    var w' := Enter(fs, o, w, names).1;
    var kids := KidItems(fs, o, w.frames[t].item, AncIds(w.frames, t), names);
    forall i | t < i <= t + |names|
      ensures w'.frames[i] == Frame(kids[t + |names| - i], false, t)
      ensures |Chop(w.frames[t].item.path)| + 1 + |names[t + |names| - i]| < cap
    {
      PushedAt(w.frames[..t], w.frames[t].(open := true), kids, t, i);
    }
  }

  lemma PushedAt(base: seq<Frame>, x: Frame, items: seq<Item>, up: nat, i: nat)
    requires |base| < i <= |base| + |items|
    ensures (base + [x] + Stack(items, up))[i] == Frame(items[|base| + |items| - i], false, up)
  {
    assert (base + [x] + Stack(items, up))[i] == Stack(items, up)[i - |base| - 1];
  }

  lemma GrownBelow(fs: FileSys, o: Options, w: Walker, names: seq<string>, w': Walker)
    requires Wf(fs, w) && w.frames != [] && w.frames[|w.frames| - 1].item.info == D
    requires Grown(fs, o, w, names, w')
    ensures forall i | 1 <= i < |w.frames| :: FrameOk(fs, w', i)
    ensures AncIds(w'.frames, |w.frames| - 1) == AncIds(w.frames, |w.frames| - 1)
  {
    hide Kid, AncIds, Chop;
    forall i | 1 <= i < |w.frames| ensures FrameOk(fs, w', i) {
      FrameKept(fs, w, w', i);
    }
    AncSame(w.frames, w'.frames, |w.frames| - 1);
  }

  lemma GrownWf(fs: FileSys, o: Options, w: Walker, names: seq<string>, w': Walker)
    requires Wf(fs, w) && w.frames != [] && w.frames[|w.frames| - 1].item.info == D
    requires forall n | n in names :: ValidName(n)
    requires Grown(fs, o, w, names, w')
    ensures Wf(fs, w')
  {
    hide Kid, AncIds, FrameOk, Chop, ValidName;
    var t := |w.frames| - 1;
    GrownBelow(fs, o, w, names, w');
    forall i | t < i < |w'.frames| ensures FrameOk(fs, w', i) {
      assert names[t + |names| - i] in names;
      if i > t + 1 {
        assert w'.frames[i - 1].up == t;
      }
      KidFrameOk(fs, o, w', t, i, names[t + |names| - i]);
    }
  }

  lemma EnterWf(fs: FileSys, o: Options, w: Walker, names: seq<string>)
    requires Wf(fs, w) && w.frames != [] && w.frames[|w.frames| - 1].item.info == D
    requires names != [] && forall n | n in names :: ValidName(n)
    ensures Wf(fs, Enter(fs, o, w, names).1)
  {
    hide FrameOk, Kid, AncIds, Chop, GrowFor, KidItems, Stack, ValidName, Grown;
    match GrowFor(w.cap, |Chop(w.frames[|w.frames| - 1].item.path)| + 1, names) {
      case None =>
        BecomeWf(fs, w, "", ERR);
        StoppedWf(fs, Become(w, "", ERR).1);
      case Some(cap) =>
        EnterGrows(fs, o, w, names, cap);
        GrownWf(fs, o, w, names, Enter(fs, o, w, names).1);
    }
  }

  lemma DescendWf(fs: FileSys, o: Options, w: Walker, skip: bool)
    requires ValidFs(fs) && Wf(fs, w) && w.frames != [] && w.frames[|w.frames| - 1].item.info == D
    ensures Wf(fs, Descend(fs, o, w, skip).1)
  {
    hide Wf, Enter, Become, Chop, ValidName, ValidFs, Kept, Names, Entries;
    var it := w.frames[|w.frames| - 1].item;
    var listing := Listing(fs, o, it.st);
    if skip {
      BecomeWf(fs, w, it.path, DP);
    } else if listing.None? {
      BecomeWf(fs, w, it.path, DNR);
    } else if listing.value == [] {
      BecomeWf(fs, w, Chop(it.path), DP);
    } else {
      KeptValid(fs, o, it.st.value);
      EnterWf(fs, o, w, listing.value);
    }
  }

  lemma StepWf(fs: FileSys, o: Options, w: Walker, skip: bool)
    requires ValidFs(fs) && Wf(fs, w)
    ensures Wf(fs, Step(fs, o, w, skip).1)
  {
    if !w.stopped && w.frames != [] {
      if w.frames[|w.frames| - 1].item.info == D {
        DescendWf(fs, o, w, skip);
      } else {
        LeaveWf(fs, w);
      }
    }
  }
}
