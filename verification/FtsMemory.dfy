/**
 The walker's nodes in allocated memory. Memory is an explicit map from references to nodes: malloc
 adds a reference and free removes it, so that every access to a node is proved to hit a live one.
*/
module FtsMemory {
  import opened CStrings
  import opened FileSystem
  import opened WalkSpec
  import opened WalkProofs

  /** A pointer to a node; 0 is NULL. */
  type Ref = nat
  const NULL: Ref := 0

  datatype Instr = NoInstr | Skip

  /** fts_accpath points either to the node's own name or to the shared path buffer. */
  datatype AccPath = OwnName | PathBuffer

  /** FTSENT, with the stat buffer reduced to the inode it was filled from. */
  datatype Ftsent = Ftsent(
    parent: Ref, link: Ref, errno: int, accpath: AccPath, pathlen: int, namelen: int, name: string,
    id: Id, level: int, info: Info, instr: Instr, st: Option<Id>)

  type Memory = map<Ref, Ftsent>

  function U16(x: nat): (r: nat)
    ensures x <= UINT16_MAX ==> r == x
  {
    x % 0x1_0000
  }

  function S16(x: int): (r: int)
    ensures -32768 <= x <= 32767 ==> r == x
  {
    (x + 0x8000) % 0x1_0000 - 0x8000
  }

  lemma {:induction false} Above(s: set<Ref>) returns (m: Ref)
    ensures m != NULL && forall p | p in s :: p < m
  {
    if s == {} {
      m := 1;
    } else {
      var x :| x in s;
      var n := Above(s - {x});
      assert forall p | p in s :: p == x || p in s - {x};
      m := if n > x then n else x + 1;
    }
  }

  // ----- the stack of the walker in memory

  /** The path, path length and access path of a node are set once fts_load or fts_build has seen it. */
  predicate Loaded(frames: seq<Frame>, i: nat)
    requires i < |frames|
  {
    frames[i].item.level >= 1 || frames[i].open || i == |frames| - 1
  }

  /** Node i of the stack in memory. The node below it is its next sibling or, for the last one, its directory. */
  ghost predicate NodeOk(mem: Memory, refs: seq<Ref>, frames: seq<Frame>, i: nat)
    requires 1 <= i < |frames| == |refs|
  {
    && refs[i] in mem && refs[i] != NULL && frames[i].up < i
    && var e, f := mem[refs[i]], frames[i];
       && e.info == f.item.info
       && (i < |frames| - 1 ==> e.instr == NoInstr)
       && if f.item.info == INIT then e.link == refs[i - 1] else
          && e.level == f.item.level && e.st == f.item.st && e.parent == refs[f.up]
          && e.link == (if frames[i - 1].open then NULL else refs[i - 1])
          && (f.item.info == D ==> f.item.st == Some(e.id) && e.errno == 0)
          && (Loaded(frames, i) ==> e.pathlen == |f.item.path|)
          && e.accpath == (if Loaded(frames, i) then PathBuffer else OwnName)
          && (f.item.level >= 1 ==> e.name == f.item.name)
          && (!Loaded(frames, i) ==> e.name == f.item.path)
          && (f.item.level >= 1 || !Loaded(frames, i) ==> e.namelen == |e.name|)
  }

  ghost predicate Distinct(refs: seq<Ref>) {
    forall i, j | 0 <= i < j < |refs| :: refs[i] != refs[j]
  }

  function Refs(refs: seq<Ref>): set<Ref> {
    set r | r in refs
  }

  /** Exactly the nodes of the stack are allocated, linked as the walker left them. */
  ghost predicate Rep(mem: Memory, refs: seq<Ref>, frames: seq<Frame>) {
    && |refs| == |frames| && Distinct(refs) && mem.Keys == Refs(refs)
    && (frames != [] ==> refs[0] != NULL && mem[refs[0]].level == ROOTPARENTLEVEL)
    && forall i | 1 <= i < |frames| :: NodeOk(mem, refs, frames, i)
  }

  /** A linked list of nodes that starts at head and ends in NULL. */
  ghost predicate Linked(mem: Memory, head: Ref, list: seq<Ref>)
    decreases |list|
  {
    if list == [] then head == NULL
    else head == list[0] && head != NULL && head in mem && Linked(mem, mem[head].link, list[1..])
  }

  // ----- the path buffer

  ghost predicate PrefixAt(buf: seq<char>, p: string) {
    |p| <= |buf| && buf[..|p|] == p
  }

  ghost predicate Holds(buf: seq<char>, p: string) {
    PrefixAt(buf, p) && |p| < |buf| && buf[|p|] == NUL
  }

  /** The buffer starts with the path of the directory the current node is in. */
  ghost predicate BufOk(buf: seq<char>, frames: seq<Frame>)
    requires frames != []
  {
    var f := frames[|frames| - 1];
    f.item.info != INIT ==>
      && (1 <= f.up < |frames| ==> PrefixAt(buf, frames[f.up].item.path))
      && (f.item.info == D ==> Holds(buf, f.item.path))
  }

  lemma PrefixChop(buf: seq<char>, p: string)
    requires PrefixAt(buf, p)
    ensures PrefixAt(buf, Chop(p))
  {
    assert p[..|Chop(p)|] == Chop(p);
  }

  lemma HoldsIs(buf: seq<char>, p: string)
    requires Holds(buf, p) && NoNul(p)
    ensures CStr(buf) == p && PrefixAt(buf, p)
  {
    CStrIs(buf, p);
  }

  // ----- the list of entries that fts_build makes

  /** A node that holds entry kid of the directory at dir. */
  ghost predicate Entered(e: Ftsent, kid: Item, dir: Ref, link: Ref) {
    && e.info == kid.info && e.st == kid.st && e.level == kid.level && e.parent == dir && e.link == link
    && e.pathlen == |kid.path| && e.accpath == PathBuffer && e.name == kid.name && e.namelen == |kid.name|
    && e.instr == NoInstr && (kid.info == D ==> kid.st == Some(e.id) && e.errno == 0)
  }

  ghost predicate KidNode(mem: Memory, kids: seq<Ref>, j: nat, kid: Item, dir: Ref)
    requires j < |kids|
  {
    && kids[j] in mem && kids[j] != NULL
    && Entered(mem[kids[j]], kid, dir, if j + 1 < |kids| then kids[j + 1] else NULL)
  }

  /** kids are the nodes of the first entries of directory dir, in order. */
  ghost predicate KidList(fs: FileSys, o: Options, mem: Memory, kids: seq<Ref>, names: seq<string>, h: Item,
                          ancs: set<Id>, dir: Ref)
  {
    && |kids| == |names|
    && forall j | 0 <= j < |kids| :: KidNode(mem, kids, j, Kid(fs, o, h, ancs, names[j]), dir)
  }

  /** mem is mem0 with the nodes of kids added. */
  ghost predicate Plus(mem: Memory, mem0: Memory, kids: seq<Ref>) {
    && Distinct(kids) && mem.Keys == mem0.Keys + Refs(kids) && (forall r | r in kids :: r !in mem0)
    && forall r | r in mem0 :: mem[r] == mem0[r]
  }

  /** One more entry at the end of the list. */
  lemma AddKid(fs: FileSys, o: Options, mem0: Memory, mem: Memory, kids: seq<Ref>, names: seq<string>, h: Item,
               ancs: set<Id>, dir: Ref, mem': Memory, p: Ref, name: string)
    requires KidList(fs, o, mem, kids, names, h, ancs, dir) && Plus(mem, mem0, kids)
    requires p != NULL && p !in mem && mem'.Keys == mem.Keys + {p}
    requires Entered(mem'[p], Kid(fs, o, h, ancs, name), dir, NULL)
    requires forall r | r in mem && (kids == [] || r != kids[|kids| - 1]) :: mem'[r] == mem[r]
    requires kids != [] ==> kids[|kids| - 1] in mem && mem'[kids[|kids| - 1]] == mem[kids[|kids| - 1]].(link := p)
    ensures KidList(fs, o, mem', kids + [p], names + [name], h, ancs, dir) && Plus(mem', mem0, kids + [p])
  {
    hide Kid;
    var kids' := kids + [p];
    forall j | 0 <= j < |kids'|
      ensures KidNode(mem', kids', j, Kid(fs, o, h, ancs, (names + [name])[j]), dir)
    {
      if j < |kids| {
        assert KidNode(mem, kids, j, Kid(fs, o, h, ancs, names[j]), dir);
        assert kids[j] in kids;
        assert j < |kids| - 1 ==> kids[j] != kids[|kids| - 1];
      }
    }
    forall r ensures r in Refs(kids') <==> r in Refs(kids) || r == p {}
    assert forall r | r in kids :: r in mem;
  }

  lemma {:induction false} KidsLinked(fs: FileSys, o: Options, mem: Memory, kids: seq<Ref>, names: seq<string>,
                                      h: Item, ancs: set<Id>, dir: Ref, j: nat)
    requires KidList(fs, o, mem, kids, names, h, ancs, dir) && j <= |kids|
    ensures Linked(mem, if j < |kids| then kids[j] else NULL, kids[j..])
    decreases |kids| - j
  {
    hide Kid;
    if j < |kids| {
      assert KidNode(mem, kids, j, Kid(fs, o, h, ancs, names[j]), dir);
      KidsLinked(fs, o, mem, kids, names, h, ancs, dir, j + 1);
      assert kids[j..][1..] == kids[j + 1..];
    }
  }

  function Rev(s: seq<Ref>): (r: seq<Ref>)
    ensures |r| == |s|
    ensures forall i | 0 <= i < |s| :: r[i] == s[|s| - 1 - i]
  {
    seq(|s|, i requires 0 <= i < |s| => s[|s| - 1 - i])
  }

  lemma RevRefs(s: seq<Ref>)
    requires Distinct(s)
    ensures Distinct(Rev(s)) && Refs(Rev(s)) == Refs(s)
  {
    forall i, j | 0 <= i < j < |s| ensures Rev(s)[i] != Rev(s)[j] {
      assert s[|s| - 1 - j] != s[|s| - 1 - i];
    }
    forall r ensures r in s <==> r in Rev(s) {
      if r in s {
        var i :| 0 <= i < |s| && s[i] == r;
        assert Rev(s)[|s| - 1 - i] == r;
      }
    }
  }

  // ----- how the representation follows the steps of the walker

  /** The top node gets other fields, the rest stays. */
  lemma RepTop(mem: Memory, refs: seq<Ref>, frames: seq<Frame>, e: Ftsent, f: Frame)
    requires Rep(mem, refs, frames) && |frames| >= 2
    requires var t := |frames| - 1;
             f.up == frames[t].up && NodeOk(mem[refs[t] := e], refs, frames[..t] + [f], t)
    ensures var t := |frames| - 1; Rep(mem[refs[t] := e], refs, frames[..t] + [f])
  {
    var t := |frames| - 1;
    var mem' := mem[refs[t] := e];
    var frames' := frames[..t] + [f];
    assert refs[t] in refs;
    forall i | 1 <= i < t ensures NodeOk(mem', refs, frames', i) {
      assert NodeOk(mem, refs, frames, i) && refs[i] != refs[t];
    }
  }

  /** The top node is freed and the node below it gets other fields. */
  lemma RepPop(mem: Memory, refs: seq<Ref>, frames: seq<Frame>, e: Ftsent, f: Frame)
    requires Rep(mem, refs, frames) && |frames| >= 3
    requires var t := |frames| - 2;
             NodeOk((mem - {refs[t + 1]})[refs[t] := e], refs[..t + 1], frames[..t] + [f], t)
    ensures var t := |frames| - 2; Rep((mem - {refs[t + 1]})[refs[t] := e], refs[..t + 1], frames[..t] + [f])
  {
    var t := |frames| - 2;
    var mem' := (mem - {refs[t + 1]})[refs[t] := e];
    var frames' := frames[..t] + [f];
    var refs' := refs[..t + 1];
    forall r ensures r in mem' <==> r in refs' {
      assert refs == refs' + [refs[t + 1]];
      if r in refs' {
        var i :| 0 <= i < |refs'| && refs'[i] == r;
        assert refs[i] != refs[t + 1];
      }
    }
    assert refs[0] != refs[t] && refs[0] != refs[t + 1];
    forall i | 1 <= i < t ensures NodeOk(mem', refs', frames', i) {
      assert NodeOk(mem, refs, frames, i) && refs[i] != refs[t] && refs[i] != refs[t + 1];
    }
  }

  /** The top directory is opened and the list of its entries goes on the stack, last entry first. */
  lemma RepGrown(fs: FileSys, o: Options, mem0: Memory, refs: seq<Ref>, w: Walker, names: seq<string>, w': Walker,
                 kids: seq<Ref>, mem: Memory)
    requires Rep(mem0, refs, w.frames) && |w.frames| >= 2 && Grown(fs, o, w, names, w')
    requires var t := |w.frames| - 1;
             && w.frames[t].item.info == D && w.frames[t].item.level >= 0 && mem0[refs[t]].instr == NoInstr
             && Plus(mem, mem0, kids)
             && KidList(fs, o, mem, kids, names, w.frames[t].item, AncIds(w.frames, t), refs[t])
    ensures Rep(mem, refs + Rev(kids), w'.frames)
  {
    hide Kid, AncIds, NodeOk, KidNode;
    var t := |w.frames| - 1;
    RevRefs(kids);
    GrownRefs(mem0, refs, kids, mem);
    forall i | 1 <= i <= t ensures NodeOk(mem, refs + Rev(kids), w'.frames, i) {
      GrownBelow(fs, o, mem0, refs, w, names, w', kids, mem, i);
    }
    forall i | t < i < |w'.frames| ensures NodeOk(mem, refs + Rev(kids), w'.frames, i) {
      GrownKid(fs, o, refs, w, names, w', kids, mem, i);
    }
  }

  lemma GrownBelow(fs: FileSys, o: Options, mem0: Memory, refs: seq<Ref>, w: Walker, names: seq<string>, w': Walker,
                   kids: seq<Ref>, mem: Memory, i: nat)
    requires 1 <= i < |w.frames| == |refs| && |kids| == |names| && Grown(fs, o, w, names, w')
    requires NodeOk(mem0, refs, w.frames, i) && forall r | r in mem0 :: r in mem && mem[r] == mem0[r]
    requires w.frames[|w.frames| - 1].item.info == D && w.frames[|w.frames| - 1].item.level >= 0
    requires refs[|refs| - 1] in mem0 && mem0[refs[|refs| - 1]].instr == NoInstr
    ensures NodeOk(mem, refs + Rev(kids), w'.frames, i)
  {
    hide Kid, AncIds;
    var refs' := refs + Rev(kids);
    assert refs'[i] == refs[i] && refs'[i - 1] == refs[i - 1];
  }

  lemma GrownKid(fs: FileSys, o: Options, refs: seq<Ref>, w: Walker, names: seq<string>, w': Walker,
                 kids: seq<Ref>, mem: Memory, i: nat)
    requires |w.frames| >= 2 && |refs| == |w.frames| <= i < |w'.frames| && Grown(fs, o, w, names, w')
    requires var t := |w.frames| - 1;
             && w.frames[t].item.level >= 0
             && KidList(fs, o, mem, kids, names, w.frames[t].item, AncIds(w.frames, t), refs[t])
    ensures NodeOk(mem, refs + Rev(kids), w'.frames, i)
  {
    hide Kid, AncIds;
    var t := |w.frames| - 1;
    var refs' := refs + Rev(kids);
    var j := t + |names| - i;
    assert KidNode(mem, kids, j, Kid(fs, o, w.frames[t].item, AncIds(w.frames, t), names[j]), refs[t]);
    assert refs'[i] == kids[j];
    assert refs'[i - 1] == if i - 1 == t then refs[t] else kids[j + 1];
  }

  lemma GrownRefs(mem0: Memory, refs: seq<Ref>, kids: seq<Ref>, mem: Memory)
    requires Distinct(refs) && mem0.Keys == Refs(refs) && Plus(mem, mem0, kids)
    ensures Distinct(refs + Rev(kids)) && mem.Keys == Refs(refs + Rev(kids))
  {
    RevRefs(kids);
    var all := refs + Rev(kids);
    forall i, j | 0 <= i < j < |all| ensures all[i] != all[j] {
      if i < |refs| <= j {
        assert all[j] in Rev(kids) && all[i] in refs;
        assert all[j] in Refs(kids) && all[i] in Refs(refs);
      }
    }
  }
}
