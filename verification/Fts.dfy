/** The file hierarchy walker of daemon/fts.c, in the configuration without chdir(2). */
module Fts {
  import opened CStrings
  import opened FileSystem
  import opened WalkSpec
  import opened WalkProofs
  import opened WalkTheorems
  import opened WalkRuns
  import opened FtsMemory

  const ENOENT := 2
  const EACCES := 13

  class Fts {
    const fs: FileSys
    const o: Options
    var cur: Ref
    var path: array?<char>
    var pathlen: nat
    var stop: bool
    var mem: Memory
    ghost var refs: seq<Ref>
    ghost var w: Walker

    ghost predicate Valid()
      reads this, path
    {
      && ValidFs(fs) && Wf(fs, w) && Rep(mem, refs, w.frames)
      && stop == w.stopped
      && cur == (if w.frames == [] then NULL else refs[|refs| - 1])
      && (!stop ==> path != null && path.Length == pathlen == w.cap)
      && (!stop && w.frames != [] ==> BufOk(path[..], w.frames))
    }

    /** The caller has set FTS_SKIP on the current node. */
    ghost predicate SkipSet()
      reads this
    {
      cur in mem && mem[cur].instr == Skip
    }

    /** A stream opened without arguments: a dummy node that nothing follows, and the parent of no roots. */
    ghost predicate Rootless()
      reads this
    {
      && cur in mem && mem[cur].info == INIT && mem[cur].link == NULL
      && exists parent ::
           parent in mem && mem[parent].level == ROOTPARENTLEVEL && mem.Keys == {parent, cur} && parent != cur
    }

    constructor (fs: FileSys, o: Options)
      ensures this.fs == fs && this.o == o
      ensures cur == NULL && path == null && pathlen == 0 && !stop && mem == map[]
    {
      this.fs, this.o := fs, o;
      cur, path, pathlen, stop, mem := NULL, null, 0, false, map[];
      refs, w := [], Walker([], 0, false);
    }

    method Palloc(more: nat) returns (fail: bool)
      requires path != null ==> path.Length == pathlen
      requires path == null ==> pathlen == 0
      modifies this`path, this`pathlen
      ensures fail <==> Grow(old(pathlen), more).None?
      ensures fail ==> path == null
      ensures !fail ==>
                && path != null && fresh(path) && path.Length == pathlen == Grow(old(pathlen), more).value
                && (old(path) != null ==> path[..old(pathlen)] == old(path[..]))
    {
      pathlen := pathlen + more + 256;
      if pathlen >= UINT16_MAX {
        path := null;
        return true;
      }
      var p := new char[pathlen];
      if path != null {
        forall i | 0 <= i < path.Length {
          p[i] := path[i];
        }
        assert p[..path.Length] == path[..];
      }
      path := p;
      return false;
    }

    /** malloc(3) of a node: the name is copied, a few fields are cleared, the others hold anything. */
    method Alloc(name: string) returns (p: Ref)
      modifies this`mem
      ensures p != NULL && p !in old(mem) && mem.Keys == old(mem.Keys) + {p}
      ensures forall r | r in old(mem) :: mem[r] == old(mem[r])
      ensures mem[p].name == name && mem[p].namelen == U16(|name|)
      ensures mem[p].errno == 0 && mem[p].instr == NoInstr
    {
      ghost var m := Above(mem.Keys);
      assert m != NULL && m !in mem;
      p :| p != NULL && p !in mem;
      mem := mem[p := Ftsent(NULL, NULL, 0, OwnName, 0, U16(|name|), name, Id(0, 0), 0, INIT, NoInstr, None)];
    }

    method Free(p: Ref)
      requires p in mem
      modifies this`mem
      ensures mem == old(mem) - {p}
    {
      mem := mem - {p};
    }

    method Lfree(head: Ref, ghost list: seq<Ref>)
      requires Linked(mem, head, list) && Distinct(list)
      modifies this`mem
      ensures mem == old(mem) - Refs(list)
    {
      var h := head;
      ghost var left := list;
      while h != NULL
        invariant Linked(mem, h, left) && Distinct(left)
        invariant Refs(left) <= Refs(list) && mem == old(mem) - (Refs(list) - Refs(left))
        decreases |left|
      {
        var p := h;
        h := mem[h].link;
        UnlinkFirst(mem, p, left);
        Free(p);
        left := left[1..];
      }
    }

    /** The path that fts_stat and opendir use for a node. */
    function AccessPath(p: Ref): string
      requires p in mem && path != null
      reads this, path
    {
      if mem[p].accpath == OwnName then mem[p].name else CStr(path[..])
    }

    /**
     fts_stat: a is the index of the node's directory on the stack g, whose chain of parents is
     searched for a cycle.
    */
    method StatNode(p: Ref, follow: bool, ghost g: seq<Frame>, ghost a: nat) returns (info: Info)
      requires path != null && p in mem && p !in refs
      requires Chain(mem, refs, g) && a < |g| && g[a].open && mem[p].parent == refs[a]
      modifies this`mem
      ensures mem.Keys == old(mem.Keys) && forall r | r in mem && r != p :: mem[r] == old(mem[r])
      ensures (info, mem[p].st) ==
              Classify(fs, o.logical || follow, Lookup(fs, old(AccessPath(p))), IsDot(mem[p].name), AncIds(g, a))
      ensures mem[p] == old(mem[p]).(st := mem[p].st, id := mem[p].id, errno := mem[p].errno)
      ensures info in {D, DC, DOT} ==> mem[p].st == Some(mem[p].id) && mem[p].errno == old(mem[p].errno)
    {
      hide Lookup, AccessPath, Chain, IsDot;
      var s := AccessPath(p);
      var st: Option<Id>;
      if o.logical || follow {
        st := Stat(fs, s);
        if st.None? {
          st := LStat(fs, s);
          if st.Some? {
            mem := mem[p := mem[p].(st := st)];
            return SLNONE;
          }
          mem := mem[p := mem[p].(errno := ENOENT, st := None)];
          return NS;
        }
      } else {
        st := LStat(fs, s);
        if st.None? {
          mem := mem[p := mem[p].(errno := ENOENT, st := None)];
          return NS;
        }
      }
      mem := mem[p := mem[p].(st := st)];
      match fs.inodes[st.value].kind {
        case Dir(_, _) =>
          mem := mem[p := mem[p].(id := st.value)];
          if IsDot(mem[p].name) {
            return DOT;
          }
          var t := mem[p].parent;
          ghost var j: nat := a;
          ghost var m := mem;
          ChainStep(old(mem), refs, g, j);
          while mem[t].level >= ROOTLEVEL
            invariant mem == m && j < |g| == |refs| && t == refs[j] && g[j].open && t in old(mem) && t in refs
            invariant old(mem)[t].level >= ROOTLEVEL <==> j >= 1
            invariant st.value in AncIds(g, a) <==> st.value in AncIds(g, j)
            decreases j
          {
            ChainStep(old(mem), refs, g, j);
            if st.value == mem[t].id {
              return DC;
            }
            j := g[j].up;
            t := mem[t].parent;
            ChainStep(old(mem), refs, g, j);
          }
          ChainStep(old(mem), refs, g, j);
          return D;
        case Symlink(_) => return SL;
        case Reg => return F;
        case Other(_) => return DEFAULT;
      }
    }

    /** Room for a name behind the first len characters of the path buffer. */
    method Reserve(name: string, len: nat, ghost pre: string) returns (ok: bool)
      requires path != null && path.Length == pathlen < UINT16_MAX
      requires len == |pre| <= pathlen && PrefixAt(path[..], pre)
      modifies this`path, this`pathlen
      ensures ok <==> GrowFor(old(pathlen), len, [name]).Some?
      ensures path == null || path == old(path) || fresh(path)
      ensures ok ==>
                && path != null
                && path.Length == pathlen == GrowFor(old(pathlen), len, [name]).value
                && PrefixAt(path[..], pre) && len + |name| < pathlen
    {
      ghost var c := GrowFor(old(pathlen), len, [name]);
      assert c.Some? ==> GrowFor(c.value, len, [name][1..]) == c;
      if |name| >= pathlen - len {
        var fail := Palloc(|name| + len + 1);
        if fail {
          return false;
        }
        assert path[..old(pathlen)][..len] == pre;
      }
      return len + |name| < UINT16_MAX;
    }

    /** The fields of a new entry of directory h, with its path written into the buffer for fts_stat. */
    method Fill(p: Ref, name: string, len: nat, level: int, ghost g: seq<Frame>, ghost h: Item)
      requires path != null && len == |Chop(h.path)| + 1 && PrefixAt(path[..], Chop(h.path) + "/")
      requires len + |name| < path.Length && len + |name| < UINT16_MAX
      requires Opened(mem, refs, g, h, cur)
      requires p in mem && p !in refs && mem[p].name == name && mem[p].namelen == |name|
      requires mem[p].errno == 0 && mem[p].instr == NoInstr
      requires EntryDir(fs, h, level) && ValidName(name)
      modifies this`mem, path
      ensures PrefixAt(path[..], Chop(h.path) + "/")
      ensures mem.Keys == old(mem.Keys) && forall r | r in mem && r != p :: mem[r] == old(mem[r])
      ensures Entered(mem[p], Kid(fs, o, h, AncIds(g, |g| - 1), name), old(cur), NULL)
    {
      hide Lookup, AncIds, IsDot, Classify, Opened, Chain, Entered, Kid, EntryDir, PrefixAt, CStr, Join, Chop;
      ghost var t := |g| - 1;
      mem := mem[p := mem[p].(level := S16(level), parent := cur, pathlen := U16(len + |name|), accpath := PathBuffer)];
      OpenedChain(old(mem), mem, refs, g, h, cur, p);
      CopyAt(path, len, name);
      PathWritten(fs, old(path[..]), path[..], h, level, name);
      var info := StatNode(p, false, g, t);
      assert info == Classify(fs, o.logical, Lookup(fs, Join(h.path, name)), IsDot(name), AncIds(g, t)).0;
      mem := mem[p := mem[p].(info := info, link := NULL)];
      FillIs(fs, o, h, level, AncIds(g, t), name, mem[p], len);
    }

    /** One iteration of the loop of fts_build: a node for an entry of the current directory h, or NULL. */
    method MakeEntry(name: string, len: nat, level: int, ghost g: seq<Frame>, ghost h: Item) returns (p: Ref)
      requires path != null && path.Length == pathlen < UINT16_MAX
      requires len == |Chop(h.path)| + 1 <= pathlen && PrefixAt(path[..], Chop(h.path) + "/")
      requires Opened(mem, refs, g, h, cur)
      requires Refs(refs) <= mem.Keys
      requires EntryDir(fs, h, level) && ValidName(name)
      modifies this`mem, this`path, this`pathlen, path
      ensures p == NULL <==> GrowFor(old(pathlen), len, [name]).None?
      ensures path == null || path == old(path) || fresh(path)
      ensures p == NULL ==> mem == old(mem)
      ensures p != NULL ==>
                && path != null
                && path.Length == pathlen == GrowFor(old(pathlen), len, [name]).value
                && PrefixAt(path[..], Chop(h.path) + "/")
                && p !in old(mem) && mem.Keys == old(mem.Keys) + {p}
                && (forall r | r in old(mem) :: mem[r] == old(mem[r]))
                && Entered(mem[p], Kid(fs, o, h, AncIds(g, |g| - 1), name), old(cur), NULL)
    {
      hide Stat, Chain, AncIds, LastSlash, Kid, Descendable, Entered, PrefixAt, GrowFor, NoNul;
      p := Alloc(name);
      var ok := Reserve(name, len, Chop(h.path) + "/");
      if !ok {
        Free(p);
        return NULL;
      }
      GrowForLimit(old(pathlen), len, name);
      ChainPlus(old(mem), mem, refs, g);
      Fill(p, name, len, level, g, h);
    }

    /** A new node for an entry goes to the end of the list. */
    method AddEntry(name: string, len: nat, level: int, head: Ref, tail: Ref, ghost g: seq<Frame>, ghost h: Item,
                    ghost mem0: Memory, ghost kids: seq<Ref>, ghost done: seq<string>)
      returns (p: Ref)
      requires path != null && path.Length == pathlen < UINT16_MAX
      requires len == |Chop(h.path)| + 1 <= pathlen && PrefixAt(path[..], Chop(h.path) + "/")
      requires Opened(mem0, refs, g, h, cur) && Refs(refs) <= mem0.Keys
      requires EntryDir(fs, h, level) && ValidName(name)
      requires Listed(fs, o, mem, mem0, kids, done, h, AncIds(g, |g| - 1), cur, head, tail)
      modifies this`mem, this`path, this`pathlen, path
      ensures p == NULL <==> GrowFor(old(pathlen), len, [name]).None?
      ensures path == null || path == old(path) || fresh(path)
      ensures p == NULL ==> mem == old(mem)
      ensures p != NULL ==>
                && path != null && path.Length == pathlen == GrowFor(old(pathlen), len, [name]).value
                && len < pathlen && PrefixAt(path[..], Chop(h.path) + "/")
                && Listed(fs, o, mem, mem0, kids + [p], done + [name], h, AncIds(g, |g| - 1), cur,
                          if head == NULL then p else head, p)
    {
      hide Kid, AncIds, EntryDir, Chop, Entered, Listed, ValidName, PrefixAt, GrowFor, KidList;
      ghost var ancs := AncIds(g, |g| - 1);
      ListedKeeps(fs, o, mem, mem0, kids, done, h, ancs, cur, head, tail, refs, g);
      p := MakeEntry(name, len, level, g, h);
      if p == NULL {
        return;
      }
      GrowForLimit(old(pathlen), len, name);
      if head != NULL {
        mem := mem[tail := mem[tail].(link := p)];
      }
      ListedAdd(fs, o, old(mem), mem0, kids, done, h, ancs, cur, head, tail, mem, p, name);
    }

    /** NAPPEND: the length of a node's path without a slash at its end. */
    function Nappend(p: Ref): nat
      requires p in mem && path != null && 1 <= mem[p].pathlen <= path.Length
      reads this, path
    {
      if path[mem[p].pathlen - 1] == '/' then mem[p].pathlen - 1 else mem[p].pathlen
    }

    /** The loop of fts_build over the names that readdir(3) reports; on failure the list is freed again. */
    method BuildList(names: seq<string>, len: nat, level: int, ghost g: seq<Frame>, ghost h: Item)
      returns (head: Ref, nitems: nat, ghost kids: seq<Ref>)
      requires ValidFs(fs) && !stop && path != null && path.Length == pathlen < UINT16_MAX
      requires len == |Chop(h.path)| + 1 <= pathlen && PrefixAt(path[..], Chop(h.path) + "/")
      requires |g| >= 2 && Opened(mem, refs, g, h, cur)
      requires Refs(refs) <= mem.Keys
      requires EntryDir(fs, h, level) && names == Names(Entries(fs, h.st))
      modifies this`mem, this`path, this`pathlen, this`stop, path
      ensures stop <==> GrowFor(old(pathlen), len, Kept(o, names)).None?
      ensures path == null || path == old(path) || fresh(path)
      ensures stop ==> head == NULL && mem == old(mem)
      ensures !stop ==>
                && path != null && (nitems == 0 ==> path == old(path))
                && path.Length == pathlen == GrowFor(old(pathlen), len, Kept(o, names)).value
                && (nitems > 0 ==> len < pathlen) && PrefixAt(path[..], Chop(h.path) + "/")
                && nitems == |kids| && head == (if kids == [] then NULL else kids[0])
                && (kids == [] <==> head == NULL)
                && Plus(mem, old(mem), kids)
                && KidList(fs, o, mem, kids, Kept(o, names), h, AncIds(g, |g| - 1), cur)
    {
      hide Kept, GrowFor, AncIds, KidList, Kid, Lookup, Opened, IsDot, PrefixAt, Entries, Names, Linked, EntryDir,
           Chop, Entered, Plus, Listed, ValidFs, Refs, ValidName;
      ghost var ancs := AncIds(g, |g| - 1);
      ghost var pre := Chop(h.path) + "/";
      ghost var all := Kept(o, names);
      ghost var done: seq<string> := [];
      head, nitems, kids := NULL, 0, [];
      var tail: Ref := NULL;
      var i := 0;
      ListedStart(fs, o, mem, h, ancs, cur, names);
      while i < |names|
        invariant i <= |names| && !stop && nitems == |kids|
        invariant path != null && (path == old(path) || fresh(path)) && path.Length == pathlen < UINT16_MAX
        invariant len <= pathlen && (nitems > 0 ==> len < pathlen) && (nitems == 0 ==> path == old(path))
        invariant PrefixAt(path[..], pre)
        invariant all == done + Kept(o, names[i..])
        invariant GrowFor(old(pathlen), len, all) == GrowFor(pathlen, len, Kept(o, names[i..]))
        invariant Listed(fs, o, mem, old(mem), kids, done, h, ancs, cur, head, tail)
      {
        var name := names[i];
        KeptStep(o, names, i);
        i := i + 1;
        if !o.seedot && IsDot(name) {
          continue;
        }
        NextName(fs, o, h, level, names, i - 1);
        GrowForHead(pathlen, len, name, Kept(o, names[i..]));
        var p := AddEntry(name, len, level, head, tail, g, h, old(mem), kids, done);
        if p == NULL {
          ListedFrees(fs, o, mem, old(mem), kids, done, h, ancs, cur, head, tail);
          Lfree(head, kids);
          stop := true;
          return NULL, 0, [];
        }
        head, tail := if head == NULL then p else head, p;
        Shift(all, done, name, Kept(o, names[i..]));
        kids, done := kids + [p], done + [name];
        nitems := nitems + 1;
      }
      BuildEnd(o, names, pathlen, len);
      assert all == done;
      ListedIs(fs, o, mem, old(mem), kids, done, h, ancs, cur, head, tail);
    }

    /**
     fts_build as called from fts_read: the list of the entries of the current directory. NULL means
     an unreadable directory, an empty one, or that the path does not fit.
    */
    method Build() returns (head: Ref, ghost kids: seq<Ref>)
      requires Valid() && !stop && |w.frames| >= 2
      requires w.frames[|w.frames| - 1].item.info == D && mem[cur].instr == NoInstr
      modifies this`mem, this`path, this`pathlen, this`stop, path
      ensures path == null || path == old(path) || fresh(path)
      ensures var h := w.frames[|w.frames| - 1].item;
              match Listing(fs, o, h.st)
              case None =>
                && head == NULL && !stop && path == old(path) && pathlen == old(pathlen) && path[..] == old(path[..])
                && mem == old(mem)[cur := old(mem[cur]).(info := DNR, errno := EACCES)]
              case Some(names) =>
                if names == [] then
                  && head == NULL && !stop && path == old(path) && pathlen == old(pathlen)
                  && Holds(path[..], Chop(h.path))
                  && mem == old(mem)[cur := old(mem[cur]).(info := DP)]
                else match GrowFor(old(pathlen), |Chop(h.path)| + 1, names)
                  case None => head == NULL && stop && mem == old(mem)[cur := old(mem[cur]).(info := ERR)]
                  case Some(cap) =>
                    && !stop && path != null && path.Length == pathlen == cap && head != NULL
                    && PrefixAt(path[..], Chop(h.path) + "/")
                    && kids != [] && head == kids[0] && Plus(mem, old(mem), kids)
                    && KidList(fs, o, mem, kids, names, h, AncIds(w.frames, |w.frames| - 1), cur)
    {
      hide Wf, Rep, Listing, Kept, GrowFor, AncIds, KidList, Kid, Lookup, Chain, IsDot, BufOk, PrefixAt, Holds, CStr,
           OpenDir, Entries, Names, Linked, EntryDir, Chop;
      ghost var t := |w.frames| - 1;
      ghost var h := w.frames[t].item;
      ghost var g := w.frames[t := w.frames[t].(open := true)];
      TopDir(fs, w, mem, refs, path[..], g);
      OpenListing(fs, o, h, mem[cur].level + 1);
      var listing := OpenDir(fs, AccessPath(cur));
      if listing.None? {
        mem := mem[cur := mem[cur].(info := DNR, errno := EACCES)];
        return NULL, [];
      }
      var len := Nappend(cur);
      path[len] := '/';
      SlashWritten(old(path[..]), path[..], h.path);
      len := len + 1;
      var nitems;
      head, nitems, kids := BuildList(listing.value, len, mem[cur].level + 1, g, h);
      if stop {
        GrowForNone(old(pathlen), len);
        mem := mem[cur := mem[cur].(info := ERR)];
        return NULL, [];
      }
      KidEnds(fs, o, mem, kids, Kept(o, listing.value), h, AncIds(w.frames, t), cur);
      ghost var buf := path[..];
      var cp := len;
      if len == pathlen || nitems == 0 {
        cp := cp - 1;
      }
      path[cp] := NUL;
      BufferEnd(buf, path[..], cp, h.path, len);
      if nitems == 0 {
        GrowForNone(old(pathlen), len);
        mem := mem[cur := mem[cur].(info := DP)];
        return NULL, [];
      }
    }

    /** The tail of fts_read at its label name: the path becomes the directory's path and the node's name. */
    method AppendName(p: Ref, ghost dir: string)
      requires p in mem && mem[p].parent in mem && path != null && p != NULL
      requires dir != "" && NoNul(dir) && PrefixAt(path[..], dir) && mem[mem[p].parent].pathlen == |dir|
      requires ValidName(mem[p].name) && mem[p].namelen == |mem[p].name| && |Join(dir, mem[p].name)| < path.Length
      modifies path
      ensures PrefixAt(path[..], dir) && Holds(path[..], Join(dir, mem[p].name))
    {
      var t := Nappend(mem[p].parent);
      ghost var buf := path[..];
      path[t] := '/';
      CopyAt(path, t + 1, mem[p].name);
      Appended(buf, path[..], dir, mem[p].name, t);
    }

    /** fts_load: the path becomes the name of a root, the name its last component. */
    method Load(p: Ref)
      requires p in mem && path != null && mem[p].namelen == |mem[p].name| < path.Length && NoNul(mem[p].name)
      modifies this`mem, path
      ensures Holds(path[..], old(mem[p].name))
      ensures mem.Keys == old(mem.Keys) && p in mem
      ensures LastComponent(mem[p].name, old(mem[p].name)) && mem[p].namelen == |mem[p].name|
      ensures mem == old(mem)[p := old(mem[p]).(pathlen := |old(mem[p].name)|, accpath := PathBuffer,
                                                name := mem[p].name, namelen := mem[p].namelen)]
    {
      var name := mem[p].name;
      mem := mem[p := mem[p].(pathlen := mem[p].namelen)];
      CopyAt(path, 0, name);
      assert path[..|name|] == path[0..0 + |name|];
      var i := LastSlash(name);
      BehindLastSlash(name);
      if i >= 0 && (i != 0 || |name| > 1) {
        mem := mem[p := mem[p].(name := name[i + 1..], namelen := |name| - i - 1)];
      }
      mem := mem[p := mem[p].(accpath := PathBuffer)];
    }

    /** What the caller sees in the current node. */
    function View(): Visit
      requires cur in mem && path != null
      reads this, path
    {
      Visit(mem[cur].info, CStr(path[..]), mem[cur].st, mem[cur].level)
    }

    /** The reference returned by fts_read shows the visit v. */
    ghost predicate Shows(p: Ref, v: Option<Visit>)
      reads this, path
    {
      match v
      case None => p == NULL
      case Some(x) => p != NULL && p == cur && cur in mem && path != null && View() == x
    }

    /** fts_read on a directory in pre-order. */
    method ReadDir(skip: bool) returns (p: Ref)
      requires Valid() && !stop && |w.frames| >= 2
      requires w.frames[|w.frames| - 1].item.info == D && mem[cur].instr == NoInstr
      modifies this, path
      ensures Valid() && w == old(Descend(fs, o, w, skip).1) && Shows(p, old(Descend(fs, o, w, skip).0))
      ensures p != NULL ==> mem[p].instr == NoInstr
      ensures path == null || path == old(path) || fresh(path)
    {
      hide Wf, Rep, BufOk, AncIds, Kid, KidList, Plus, Linked, GrowFor, Listing, KidItems, Stack, Join, Chop, CStr,
           NodeOk, PrefixAt, Holds, Grown, Enter, Become, NoNul, ValidName;
      ghost var t := |w.frames| - 1;
      ghost var h := w.frames[t].item;
      DescendWf(fs, o, w, skip);
      TopRef(fs, w, mem, refs, path[..]);
      if skip {
        BecomeRep(fs, w, mem, refs, path[..], mem[cur].errno, h.path, DP);
        mem := mem[cur := mem[cur].(info := DP)];
        w := Become(w, h.path, DP).1;
        return cur;
      }
      BecomeRep(fs, w, mem, refs, path[..], EACCES, h.path, DNR);
      BecomeRep(fs, w, mem, refs, path[..], mem[cur].errno, Chop(h.path), DP);
      BecomeRep(fs, w, mem, refs, path[..], mem[cur].errno, "", ERR);
      ghost var mem0 := mem;
      var child;
      ghost var kids;
      child, kids := Build();
      ghost var listing := Listing(fs, o, h.st);
      if child == NULL {
        if stop {
          EnterFails(fs, o, w, listing.value);
          w := Become(w, "", ERR).1.(stopped := true);
          return NULL;
        }
        w := Become(w, if listing.None? then h.path else Chop(h.path), if listing.None? then DNR else DP).1;
        if listing.Some? {
          HoldsIs(path[..], Chop(h.path));
        }
        return cur;
      }
      FirstKid(fs, o, w, mem0, refs, kids, listing.value, mem, path[..]);
      AppendName(child, h.path);
      HoldsIs(path[..], Join(h.path, listing.value[0]));
      w := Enter(fs, o, w, listing.value).1;
      refs := refs + Rev(kids);
      cur := child;
      return cur;
    }

    /** fts_read on any other node: it is freed, and its sibling or its directory becomes current. */
    method Next() returns (p: Ref)
      requires Valid() && !stop && |w.frames| >= 2 && w.frames[|w.frames| - 1].item.info != D
      modifies this, path
      ensures Valid() && w == old(Leave(w).1) && Shows(p, old(Leave(w).0))
      ensures p != NULL ==> mem[p].instr == NoInstr
      ensures path == old(path)
    {
      hide Wf, Rep, BufOk, CStr, Leave;
      CurrentRef(fs, w, mem, refs);
      if mem[cur].link != NULL {
        p := Forward();
      } else {
        p := Upward();
      }
    }

    /** The node has a next sibling, or is a root with another one behind it. */
    method Forward() returns (p: Ref)
      requires Valid() && !stop && |w.frames| >= 3 && w.frames[|w.frames| - 1].item.info != D
      requires !w.frames[|w.frames| - 2].open
      modifies this`mem, this`cur, this`w, this`refs, path
      ensures Valid() && w == old(Leave(w).1) && Shows(p, old(Leave(w).0))
      ensures p != NULL && mem[p].instr == NoInstr
    {
      hide Wf, Rep, BufOk, CStr, Leave, ValidFs, SkipSet;
      CurrentRef(fs, w, mem, refs);
      if mem[mem[cur].link].level == ROOTLEVEL {
        p := ToRoot();
      } else {
        p := ToSibling();
      }
    }

    method ToRoot() returns (p: Ref)
      requires Valid() && !stop && |w.frames| >= 3 && w.frames[|w.frames| - 1].item.info != D
      requires !w.frames[|w.frames| - 2].open && w.frames[|w.frames| - 2].item.level == ROOTLEVEL
      modifies this`mem, this`cur, this`w, this`refs, path
      ensures Valid() && w == old(Leave(w).1) && Shows(p, old(Leave(w).0))
      ensures p != NULL && mem[p].instr == NoInstr
    {
      hide Wf, Rep, BufOk, CStr, Holds, NoNul, LastSlash, Leave, LastComponent, ValidFs, SkipSet;
      ghost var t := |w.frames| - 2;
      ghost var f := w.frames[t];
      LeaveWf(fs, w);
      LeaveCases(w);
      CurrentRef(fs, w, mem, refs);
      var tmp := cur;
      p := mem[tmp].link;
      NextRoot(fs, w, mem, refs, path[..]);
      Free(tmp);
      Load(p);
      HoldsIs(path[..], f.item.path);
      cur := p;
      w, refs := Leave(w).1, refs[..t + 1];
    }

    method ToSibling() returns (p: Ref)
      requires Valid() && !stop && |w.frames| >= 3 && w.frames[|w.frames| - 1].item.info != D
      requires !w.frames[|w.frames| - 2].open && w.frames[|w.frames| - 2].item.level != ROOTLEVEL
      modifies this`cur, this`w, this`refs, this`mem, path
      ensures Valid() && w == old(Leave(w).1) && Shows(p, old(Leave(w).0))
      ensures p != NULL && mem[p].instr == NoInstr
    {
      hide Wf, Rep, BufOk, Join, CStr, PrefixAt, Holds, NoNul, ValidName, Leave, ValidFs, SkipSet;
      ghost var t := |w.frames| - 2;
      ghost var f := w.frames[t];
      LeaveWf(fs, w);
      LeaveCases(w);
      CurrentRef(fs, w, mem, refs);
      var tmp := cur;
      p := mem[tmp].link;
      NextSibling(fs, w, mem, refs, path[..]);
      Free(tmp);
      AppendName(p, w.frames[f.up].item.path);
      HoldsIs(path[..], f.item.path);
      cur := p;
      w, refs := Leave(w).1, refs[..t + 1];
    }

    /** The node is the last one of its directory, or the last root. */
    method Upward() returns (p: Ref)
      requires Valid() && !stop && |w.frames| >= 2 && w.frames[|w.frames| - 1].item.info != D
      requires w.frames[|w.frames| - 2].open
      modifies this`mem, this`cur, this`w, this`refs, path
      ensures Valid() && w == old(Leave(w).1) && Shows(p, old(Leave(w).0))
      ensures p != NULL ==> mem[p].instr == NoInstr
    {
      hide Wf, Rep, BufOk, Join, CStr, PrefixAt, NoNul, Leave;
      ghost var t := |w.frames| - 2;
      ghost var f := w.frames[t];
      LeaveWf(fs, w);
      LeaveCases(w);
      CurrentRef(fs, w, mem, refs);
      var tmp := cur;
      p := mem[tmp].parent;
      Climb(fs, w, mem, refs, path[..]);
      Free(tmp);
      if mem[p].level == ROOTPARENTLEVEL {
        Free(p);
        cur := NULL;
        w, refs := Leave(w).1, [];
        return NULL;
      }
      path[mem[p].pathlen] := NUL;
      mem := mem[p := mem[p].(info := if mem[p].errno != 0 then ERR else DP)];
      PathEnds(old(path[..]), path[..], f.item.path);
      cur := p;
      w, refs := Leave(w).1, refs[..t + 1];
    }

    /** Fts_read: one step of the walk. */
    method Read() returns (p: Ref)
      requires Valid()
      modifies this, path
      ensures Valid() && w == old(Step(fs, o, w, SkipSet()).1) && Shows(p, old(Step(fs, o, w, SkipSet()).0))
      ensures path == null || path == old(path) || fresh(path)
      ensures p != NULL ==> mem[p].instr == NoInstr
    {
      hide Wf, BufOk, NodeOk, FrameOk, Descend, Leave, AncIds;
      if cur == NULL || stop {
        CurNull(fs, w, mem, refs);
        return NULL;
      }
      WfSize(fs, w);
      CurNode(fs, w, mem, refs);
      var instr := mem[cur].instr;
      mem := mem[cur := mem[cur].(instr := NoInstr)];
      if mem[cur].info == D {
        p := ReadDir(instr == Skip);
      } else {
        p := Next();
      }
    }

    /** Fts_set(sp, sp->fts_cur, FTS_SKIP). */
    method SetSkip()
      requires Valid() && cur != NULL
      modifies this`mem
      ensures Valid() && SkipSet()
    {
      hide Wf, BufOk, NodeOk, FrameOk;
      CurNode(fs, w, mem, refs);
      mem := mem[cur := mem[cur].(instr := Skip)];
    }

    /** One iteration of the loop of fts_open: the node of an argument. */
    method MakeRoot(arg: string, parent: Ref) returns (p: Ref)
      requires path != null && |arg| < UINT16_MAX
      requires parent in mem && mem[parent].level == ROOTPARENTLEVEL && refs == [parent]
      modifies this`mem
      ensures p != NULL && p !in old(mem) && mem.Keys == old(mem.Keys) + {p}
      ensures forall r | r in old(mem) :: mem[r] == old(mem[r])
      ensures RootNode(mem, [p], 0, RootItem(fs, o, arg), parent)
    {
      hide RootItem, AncIds, Classify, Lookup, IsDot, Chain;
      p := Alloc(arg);
      mem := mem[p := mem[p].(level := ROOTLEVEL, parent := parent, accpath := OwnName)];
      RootChain0(mem, parent);
      var info := StatNode(p, o.comfollow, [ROOT_PARENT], 0);
      RootMade(fs, o, arg, info, mem[p].st);
      // Command-line "." and ".." are real directories.
      if info == DOT {
        info := D;
      }
      mem := mem[p := mem[p].(info := info, link := NULL)];
    }

    /** The loop of fts_open; with an empty argument its nodes are freed again. */
    method MakeRoots(args: seq<string>, parent: Ref)
      returns (root: Ref, ok: bool, ghost roots: seq<Ref>, ghost last: Ref)
      requires path != null && forall a | a in args :: |a| < UINT16_MAX
      requires mem.Keys == {parent} && mem[parent].level == ROOTPARENTLEVEL && refs == [parent]
      modifies this`mem
      ensures ok <==> "" !in args
      ensures !ok ==> mem == old(mem)
      ensures ok ==> RootList(fs, o, mem, old(mem), roots, args, parent, root, last)
    {
      hide RootItem, Linked, RootList, RootNode, Distinct, Refs;
      root, roots := NULL, [];
      var tmp: Ref := NULL;
      var i := 0;
      RootListStart(fs, o, mem, parent);
      while i < |args|
        invariant i <= |args| && "" !in args[..i]
        invariant RootList(fs, o, mem, old(mem), roots, args[..i], parent, root, tmp)
      {
        RootListIs(fs, o, mem, old(mem), roots, args[..i], parent, root, tmp);
        if args[i] == "" {
          Lfree(root, roots);
          return NULL, false, [], NULL;
        }
        ghost var mem1, root1, tmp1 := mem, root, tmp;
        var p := MakeRoot(args[i], parent);
        RootListAdd(fs, o, mem1, old(mem), roots, args[..i], parent, root, tmp, mem, p, args[i]);
        if root == NULL {
          root := p;
        } else {
          mem := mem[tmp := mem[tmp].(link := p)];
        }
        tmp := p;
        roots := roots + [p];
        assert args[..i + 1] == args[..i] + [args[i]];
        i := i + 1;
      }
      assert args[..|args|] == args;
      return root, true, roots, tmp;
    }

    /**
     fts_open on a stream whose fields are all zero. Without any argument nothing leads from the dummy
     node to the parent of the roots, and the stream is not one to read from.
    */
    method Setup(args: seq<string>) returns (ok: bool)
      requires ValidFs(fs) && (args == [] || ValidArgs(args))
      requires cur == NULL && path == null && pathlen == 0 && !stop && mem == map[]
      modifies this
      ensures ok <==> OpenWalker(fs, o, args).Some?
      ensures !ok ==> mem == map[]
      ensures ok ==>
                && path != null && fresh(path) && w == OpenWalker(fs, o, args).value && cur != NULL && !SkipSet()
                && if args == [] then Rootless() else Valid()
    {
      hide Wf, Rep, RootItem, RootList, OpenWalker, BufOk, AncIds, ValidFs, MaxArgLen, Refs, NoNul, Distinct, Linked,
           U16;
      OpenCases(fs, o, args);
      var maxarg := MaxArg(args);
      var fail := Palloc(Max(maxarg, MAXPATHLEN));
      if fail {
        return false;
      }
      var parent := Alloc("");
      mem := mem[parent := mem[parent].(level := ROOTPARENTLEVEL)];
      refs := [parent];
      ghost var mem0 := mem;
      var root;
      ghost var roots, last;
      root, ok, roots, last := MakeRoots(args, parent);
      if !ok {
        Free(parent);
        return;
      }
      MakeDummy(args, parent, root, roots, last, mem0);
    }

    /** The end of fts_open: the walk starts from a dummy node in front of the first root. */
    method MakeDummy(args: seq<string>, parent: Ref, root: Ref, ghost roots: seq<Ref>, ghost last: Ref,
                     ghost mem0: Memory)
      requires ValidFs(fs) && (args == [] || ValidArgs(args)) && OpenWalker(fs, o, args).Some?
      requires RootList(fs, o, mem, mem0, roots, args, parent, root, last)
      requires mem0.Keys == {parent} && parent != NULL && mem0[parent].level == ROOTPARENTLEVEL
      requires path != null && path.Length == pathlen == OpenWalker(fs, o, args).value.cap && !stop
      modifies this
      ensures path == old(path) && w == OpenWalker(fs, o, args).value && cur != NULL && !SkipSet()
      ensures if args == [] then Rootless() else Valid()
    {
      hide Wf, Rep, RootItem, RootList, OpenWalker, BufOk, AncIds, ValidFs, MaxArgLen, Refs, NoNul, Distinct, Linked,
           U16;
      OpenCases(fs, o, args);
      ghost var mem1 := mem;
      cur := Alloc("");
      mem := mem[cur := mem[cur].(link := root, info := INIT)];
      w := OpenWalker(fs, o, args).value;
      if args == [] {
        RootListIs(fs, o, mem1, mem0, roots, args, parent, root, last);
        NoRoots(fs, o, mem1, mem0, roots, parent, root, last);
        assert parent in mem && mem[parent] == mem0[parent] && mem.Keys == {parent, cur};
      } else {
        OpenRep(fs, o, args, mem1, mem0, roots, parent, root, last, mem, cur);
        OpenWf(fs, o, args);
      }
      refs := [parent] + Rev(roots) + [cur];
    }

    /**
     Fts_close: the nodes are freed along "link, else parent". Before the first fts_read the level of
     the current node was never set; if it happens to be negative, only that node is freed.
    */
    method Close()
      requires Valid()
      modifies this
      ensures path == null
      ensures mem == map[] <==> old(cur == NULL || mem[cur].level >= ROOTLEVEL)
      ensures mem != map[] ==> mem == old(mem - {cur})
    {
      hide Wf, Rep, BufOk, NodeOk, FrameOk, Below;
      CurNull(fs, w, mem, refs);
      if cur != NULL {
        CurNode(fs, w, mem, refs);
        ghost var m, top := mem, |refs| - 1;
        var p := cur;
        ghost var j := top;
        OnlyRefs(mem, refs, w.frames);
        while mem[p].level >= ROOTLEVEL
          invariant 0 <= j <= top && p == refs[j] && Below(mem, m, refs, j) && p in mem && p in m && mem[p] == m[p]
          invariant m[refs[top]].level < ROOTLEVEL ==> j == top && mem == m
          invariant j < top ==> m[refs[top]].level >= ROOTLEVEL
          decreases j
          modifies this`mem
        {
          var freep := p;
          Downward(fs, w, m, refs, j);
          BelowNext(mem, m, refs, j);
          p := if mem[p].link != NULL then mem[p].link else mem[p].parent;
          Free(freep);
          j := j - 1;
        }
        Bottom(fs, w, m, refs, j);
        BelowNext(mem, m, refs, j);
        Free(p);
        cur := NULL;
      } else {
        NoNodes(mem, refs, w.frames);
      }
      path := null;
    }
  }

  /** name is what is left of path behind its last slash; the root directory keeps its slash. */
  ghost predicate LastComponent(name: string, path: string) {
    if '/' !in path || path == "/" then name == path
    else |name| < |path| && path[|path| - |name|..] == name && path[|path| - |name| - 1] == '/' && '/' !in name
  }

  lemma BehindLastSlash(s: string)
    ensures var i := LastSlash(s); '/' !in s[i + 1..] && (i < 0 ==> '/' !in s)
  {
    hide LastSlash;
    NoSlashBehind(s);
    assert LastSlash(s) < 0 ==> s[LastSlash(s) + 1..] == s;
  }

  lemma {:induction false} NoSlashBehind(s: string)
    ensures forall j | LastSlash(s) < j < |s| :: s[j] != '/'
  {
    if s != "" && s[|s| - 1] != '/' {
      NoSlashBehind(s[..|s| - 1]);
    }
  }

  // ----- fts_open

  /** fts_maxarglen. */
  method MaxArg(args: seq<string>) returns (m: nat)
    ensures m == MaxArgLen(args)
  {
    m := 0;
    var i := 0;
    while i < |args|
      invariant i <= |args| && Max(m + 1, MaxArgLen(args[i..])) == MaxArgLen(args)
    {
      assert args[i..][0] == args[i] && args[i..][1..] == args[i + 1..];
      if |args[i]| > m {
        m := |args[i]|;
      }
      i := i + 1;
    }
    m := m + 1;
  }

  ghost predicate RootNode(mem: Memory, roots: seq<Ref>, j: nat, it: Item, parent: Ref)
    requires j < |roots|
  {
    && roots[j] in mem && roots[j] != NULL
    && var e := mem[roots[j]];
       && e.info == it.info && e.st == it.st && e.level == ROOTLEVEL && e.parent == parent
       && e.link == (if j + 1 < |roots| then roots[j + 1] else NULL)
       && e.accpath == OwnName && e.name == it.path && e.namelen == |e.name| && e.instr == NoInstr
       && (it.info == D ==> it.st == Some(e.id) && e.errno == 0)
  }

  /** roots are the nodes of the first arguments, added to the root parent. */
  ghost predicate RootList(fs: FileSys, o: Options, mem: Memory, mem0: Memory, roots: seq<Ref>, args: seq<string>,
                           parent: Ref, root: Ref, tmp: Ref)
  {
    && |roots| == |args| && Plus(mem, mem0, roots)
    && (forall j | 0 <= j < |roots| :: RootNode(mem, roots, j, RootItem(fs, o, args[j]), parent))
    && if roots == [] then root == NULL else root == roots[0] && tmp == roots[|roots| - 1]
  }

  lemma NoRoots(fs: FileSys, o: Options, mem: Memory, mem0: Memory, roots: seq<Ref>, parent: Ref, root: Ref, tmp: Ref)
    requires RootList(fs, o, mem, mem0, roots, [], parent, root, tmp)
    ensures mem == mem0 && root == NULL
  {
    assert mem.Keys == mem0.Keys;
  }

  lemma RootListStart(fs: FileSys, o: Options, mem: Memory, parent: Ref)
    ensures RootList(fs, o, mem, mem, [], [], parent, NULL, NULL)
  {
  }

  lemma {:induction false} RootsLinked(fs: FileSys, o: Options, mem: Memory, mem0: Memory, roots: seq<Ref>,
                                       args: seq<string>, parent: Ref, root: Ref, tmp: Ref, j: nat)
    requires RootList(fs, o, mem, mem0, roots, args, parent, root, tmp) && j <= |roots|
    ensures Linked(mem, if j < |roots| then roots[j] else NULL, roots[j..]) && Distinct(roots)
    ensures mem - Refs(roots) == mem0
    decreases |roots| - j
  {
    hide RootItem;
    if j < |roots| {
      assert RootNode(mem, roots, j, RootItem(fs, o, args[j]), parent);
      RootsLinked(fs, o, mem, mem0, roots, args, parent, root, tmp, j + 1);
      assert roots[j..][1..] == roots[j + 1..];
    }
  }

  lemma RootListIs(fs: FileSys, o: Options, mem: Memory, mem0: Memory, roots: seq<Ref>, args: seq<string>,
                   parent: Ref, root: Ref, tmp: Ref)
    requires RootList(fs, o, mem, mem0, roots, args, parent, root, tmp)
    ensures Linked(mem, root, roots) && Distinct(roots) && mem - Refs(roots) == mem0
    ensures root == NULL <==> roots == []
    ensures root != NULL ==> tmp in mem && tmp !in mem0
    ensures forall r | r in mem0 :: r in mem && mem[r] == mem0[r]
  {
    hide RootItem, Linked;
    RootsLinked(fs, o, mem, mem0, roots, args, parent, root, tmp, 0);
    assert roots[0..] == roots;
    if roots != [] {
      assert RootNode(mem, roots, 0, RootItem(fs, o, args[0]), parent);
      var n := |roots| - 1;
      assert RootNode(mem, roots, n, RootItem(fs, o, args[n]), parent);
      assert roots[n] in roots;
    }
  }

  lemma RootListAdd(fs: FileSys, o: Options, mem: Memory, mem0: Memory, roots: seq<Ref>, args: seq<string>,
                    parent: Ref, root: Ref, tmp: Ref, mem1: Memory, p: Ref, arg: string)
    requires RootList(fs, o, mem, mem0, roots, args, parent, root, tmp)
    requires p != NULL && p !in mem && mem1.Keys == mem.Keys + {p} && (forall r | r in mem :: mem1[r] == mem[r])
    requires RootNode(mem1, [p], 0, RootItem(fs, o, arg), parent) && (root != NULL ==> tmp in mem1)
    ensures var mem' := if root == NULL then mem1 else mem1[tmp := mem1[tmp].(link := p)];
            RootList(fs, o, mem', mem0, roots + [p], args + [arg], parent, if root == NULL then p else root, p)
  {
    hide RootItem, RootNode, Plus, Linked, Distinct, Refs;
    var mem' := if root == NULL then mem1 else mem1[tmp := mem1[tmp].(link := p)];
    RootListIs(fs, o, mem, mem0, roots, args, parent, root, tmp);
    PlusOne(mem, mem0, roots, mem', p);
    forall j | 0 <= j <= |roots|
      ensures RootNode(mem', roots + [p], j, RootItem(fs, o, (args + [arg])[j]), parent)
    {
      if j < |roots| {
        RootNodeKept(mem, mem0, roots, j, RootItem(fs, o, args[j]), parent, tmp, mem1, mem', p);
      } else {
        RootNodeLast(mem1, mem', roots, RootItem(fs, o, arg), parent, tmp, p);
      }
    }
  }

  lemma PlusOne(mem: Memory, mem0: Memory, roots: seq<Ref>, mem': Memory, p: Ref)
    requires Plus(mem, mem0, roots) && p !in mem && mem'.Keys == mem.Keys + {p}
    requires forall r | r in mem0 :: mem'[r] == mem0[r]
    ensures Plus(mem', mem0, roots + [p])
  {
    assert forall r | r in roots :: r in Refs(roots) && r in mem;
    forall r ensures r in Refs(roots + [p]) <==> r in Refs(roots) || r == p {}
  }

  lemma RootNodeKept(mem: Memory, mem0: Memory, roots: seq<Ref>, j: nat, it: Item, parent: Ref, tmp: Ref, mem1: Memory,
                     mem': Memory, p: Ref)
    requires j < |roots| && RootNode(mem, roots, j, it, parent) && Plus(mem, mem0, roots) && p != NULL
    requires tmp == roots[|roots| - 1] && tmp in mem1 && mem' == mem1[tmp := mem1[tmp].(link := p)]
    requires forall r | r in mem :: r in mem1 && mem1[r] == mem[r]
    ensures RootNode(mem', roots + [p], j, it, parent)
  {
    assert roots[j] in roots && (j < |roots| - 1 ==> roots[j] != tmp);
  }

  lemma RootNodeLast(mem1: Memory, mem': Memory, roots: seq<Ref>, it: Item, parent: Ref, tmp: Ref, p: Ref)
    requires RootNode(mem1, [p], 0, it, parent)
    requires roots != [] ==> tmp in mem1 && tmp != p && mem' == mem1[tmp := mem1[tmp].(link := p)]
    requires roots == [] ==> mem' == mem1
    ensures RootNode(mem', roots + [p], |roots|, it, parent)
  {
  }

  /** The nodes of fts_open represent the walker before the first fts_read. */
  lemma OpenRep(fs: FileSys, o: Options, args: seq<string>, mem: Memory, mem0: Memory, roots: seq<Ref>, parent: Ref,
                root: Ref, tmp: Ref, mem': Memory, cur: Ref)
    requires OpenWalker(fs, o, args).Some? && args != []
    requires RootList(fs, o, mem, mem0, roots, args, parent, root, tmp)
    requires mem0.Keys == {parent} && parent != NULL && mem0[parent].level == ROOTPARENTLEVEL
    requires cur != NULL && cur !in mem && mem'.Keys == mem.Keys + {cur}
    requires forall r | r in mem :: mem'[r] == mem[r]
    requires mem'[cur].info == INIT && mem'[cur].link == root
    ensures |roots| == |args| && Rep(mem', [parent] + Rev(roots) + [cur], OpenWalker(fs, o, args).value.frames)
  {
    hide OpenWalker, RootList, RootItem, NodeOk;
    var frames := OpenWalker(fs, o, args).value.frames;
    OpenShape(fs, o, args);
    var refs := [parent] + Rev(roots) + [cur];
    OpenRefs(fs, o, args, mem, mem0, roots, parent, root, tmp, cur);
    forall i | 1 <= i < |frames| ensures NodeOk(mem', refs, frames, i) {
      if i <= |args| {
        OpenRoot(fs, o, args, mem, mem0, roots, parent, root, tmp, mem', cur, frames, i);
      } else {
        OpenDummy(fs, o, args, mem, mem0, roots, parent, root, tmp, mem', cur, frames);
      }
    }
  }

  lemma OpenRoot(fs: FileSys, o: Options, args: seq<string>, mem: Memory, mem0: Memory, roots: seq<Ref>, parent: Ref,
                 root: Ref, tmp: Ref, mem': Memory, cur: Ref, frames: seq<Frame>, i: nat)
    requires RootList(fs, o, mem, mem0, roots, args, parent, root, tmp) && |frames| == |args| + 2
    requires 1 <= i <= |args| && frames[i] == Frame(RootItem(fs, o, args[|args| - i]), false, 0)
    requires i == 1 ==> frames[0].open
    requires i > 1 ==> !frames[i - 1].open
    requires forall r | r in mem :: r in mem' && mem'[r] == mem[r]
    ensures NodeOk(mem', [parent] + Rev(roots) + [cur], frames, i)
  {
    hide RootItem, Plus;
    var j := |args| - i;
    assert RootNode(mem, roots, j, RootItem(fs, o, args[j]), parent);
    RootItemIs(fs, o, args[j]);
    var refs := [parent] + Rev(roots) + [cur];
    assert refs[i] == roots[j];
    assert refs[i - 1] == if i == 1 then parent else roots[j + 1];
  }

  lemma OpenDummy(fs: FileSys, o: Options, args: seq<string>, mem: Memory, mem0: Memory, roots: seq<Ref>, parent: Ref,
                  root: Ref, tmp: Ref, mem': Memory, cur: Ref, frames: seq<Frame>)
    requires RootList(fs, o, mem, mem0, roots, args, parent, root, tmp) && |frames| == |args| + 2 && args != []
    requires frames[|args| + 1] == DUMMY
    requires cur in mem' && cur != NULL && mem'[cur].info == INIT && mem'[cur].link == root
    ensures NodeOk(mem', [parent] + Rev(roots) + [cur], frames, |args| + 1)
  {
    hide RootItem, Plus, RootNode;
    var refs := [parent] + Rev(roots) + [cur];
    assert refs[|args|] == roots[0] && refs[|args| + 1] == cur;
  }

  lemma RootItemIs(fs: FileSys, o: Options, arg: string)
    ensures var it := RootItem(fs, o, arg); it.info != INIT && it.path == arg && it.level == ROOTLEVEL
  {
    hide Lookup, Target;
  }

  lemma OpenRefs(fs: FileSys, o: Options, args: seq<string>, mem: Memory, mem0: Memory, roots: seq<Ref>, parent: Ref,
                 root: Ref, tmp: Ref, cur: Ref)
    requires RootList(fs, o, mem, mem0, roots, args, parent, root, tmp) && mem0.Keys == {parent} && cur !in mem
    ensures |roots| == |args| && parent in mem && mem[parent] == mem0[parent]
    ensures var refs := [parent] + Rev(roots) + [cur]; Distinct(refs) && Refs(refs) == mem.Keys + {cur}
  {
    hide RootItem, RootNode;
    RevRefs(roots);
    var refs := [parent] + Rev(roots) + [cur];
    forall r ensures r in refs <==> r in mem || r == cur {
      assert r in Rev(roots) <==> r in Refs(Rev(roots));
      assert r in roots <==> r in Refs(roots);
    }
    forall i, j | 0 <= i < j < |refs| ensures refs[i] != refs[j] {
      if 0 < i {
        assert refs[i] in Rev(roots) && refs[i] in Refs(Rev(roots));
      }
      if j < |refs| - 1 {
        assert refs[j] in Rev(roots) && refs[j] in Refs(Rev(roots));
      }
    }
  }

  /**
   Fts_open without a comparison function. On failure sp is null and left is what the call allocated
   and did not free.
  */
  method Open(fs: FileSys, o: Options, args: seq<string>) returns (sp: Fts?, ghost left: Memory)
    requires ValidFs(fs) && (args == [] || ValidArgs(args))
    ensures sp == null <==> OpenWalker(fs, o, args).None?
    ensures sp == null ==> left == map[]
    ensures sp != null ==>
              && fresh(sp) && sp.path != null && fresh(sp.path) && sp.fs == fs && sp.o == o
              && (if args == [] then sp.Rootless() else sp.Valid())
              && sp.w == OpenWalker(fs, o, args).value && sp.cur != NULL && !sp.SkipSet()
  {
    sp := new Fts(fs, o);
    var ok := sp.Setup(args);
    if !ok {
      left := sp.mem;
      sp := null;
    } else {
      left := map[];
    }
  }

  lemma OpenCases(fs: FileSys, o: Options, args: seq<string>)
    ensures OpenWalker(fs, o, args).None? <==> Grow(0, Max(MaxArgLen(args), MAXPATHLEN)).None? || "" in args
    ensures OpenWalker(fs, o, args).Some? ==>
              var w := OpenWalker(fs, o, args).value;
              && !w.stopped && |w.frames| == |args| + 2 && w.cap == Grow(0, Max(MaxArgLen(args), MAXPATHLEN)).value
              && forall buf :: BufOk(buf, w.frames)
  {
    hide RootItem, RootItems, Stack;
  }

  lemma RootChain0(mem: Memory, parent: Ref)
    requires parent in mem && mem[parent].level == ROOTPARENTLEVEL
    ensures Chain(mem, [parent], [ROOT_PARENT]) && AncIds([ROOT_PARENT], 0) == {}
  {
  }

  lemma RootMade(fs: FileSys, o: Options, arg: string, info: Info, st: Option<Id>)
    requires (info, st) == Classify(fs, o.logical || o.comfollow, Lookup(fs, arg), IsDot(arg), {})
    ensures RootItem(fs, o, arg) == Item(arg, arg, if info == DOT then D else info, st, ROOTLEVEL)
  {
    hide Lookup, Target, IsDot;
  }

  lemma NoNodes(mem: Memory, refs: seq<Ref>, frames: seq<Frame>)
    requires Rep(mem, refs, frames) && frames == []
    ensures mem == map[]
  {
  }

  /** mem holds the nodes of the lowest j + 1 frames, as they were in mem0. */
  ghost predicate Below(mem: Memory, mem0: Memory, refs: seq<Ref>, j: nat)
    requires j < |refs|
  {
    && Distinct(refs) && mem.Keys == Refs(refs[..j + 1])
    && forall r | r in mem :: r in mem0 && mem[r] == mem0[r]
  }

  lemma OnlyRefs(mem: Memory, refs: seq<Ref>, frames: seq<Frame>)
    requires Rep(mem, refs, frames) && refs != []
    ensures Below(mem, mem, refs, |refs| - 1) && refs[|refs| - 1] in mem
  {
    assert refs[..|refs|] == refs;
  }

  lemma BelowNext(mem: Memory, mem0: Memory, refs: seq<Ref>, j: nat)
    requires j < |refs| && Below(mem, mem0, refs, j)
    ensures refs[j] in mem
    ensures j > 0 ==>
              && Below(mem - {refs[j]}, mem0, refs, j - 1) && refs[j - 1] in mem - {refs[j]}
              && refs[j - 1] in mem0 && mem[refs[j - 1]] == mem0[refs[j - 1]]
    ensures j == 0 ==> mem - {refs[j]} == map[]
    ensures j == |refs| - 1 && mem == mem0 ==> mem - {refs[j]} == mem0 - {refs[|refs| - 1]}
    ensures j == |refs| - 1 > 0 ==> mem - {refs[j]} != map[]
  {
    assert refs[..j + 1] == refs[..j] + [refs[j]];
    assert refs[j] in refs[..j + 1];
    if j > 0 {
      assert refs[j - 1] in refs[..j];
      assert refs[j - 1] != refs[j];
      forall r ensures r in refs[..j] <==> r in refs[..j + 1] && r != refs[j] {
        if r in refs[..j] {
          var i :| 0 <= i < j && refs[i] == r;
        }
      }
    }
  }

  /** From every node, "link, else parent" leads one frame down. */
  lemma Downward(fs: FileSys, w: Walker, mem: Memory, refs: seq<Ref>, j: nat)
    requires Wf(fs, w) && Rep(mem, refs, w.frames) && j < |refs| && refs[j] in mem && mem[refs[j]].level >= ROOTLEVEL
    ensures j >= 1 && refs[j - 1] == if mem[refs[j]].link != NULL then mem[refs[j]].link else mem[refs[j]].parent
  {
    hide AncIds, PathOk, Descendable;
    assert j >= 1 ==> FrameOk(fs, w, j) && NodeOk(mem, refs, w.frames, j);
    assert j >= 2 ==> NodeOk(mem, refs, w.frames, j - 1);
  }

  /** The search ends at the parent of the roots, unless it ends at once at the dummy node. */
  lemma Bottom(fs: FileSys, w: Walker, mem: Memory, refs: seq<Ref>, j: nat)
    requires Wf(fs, w) && Rep(mem, refs, w.frames) && j < |refs| && refs[j] in mem && mem[refs[j]].level < ROOTLEVEL
    ensures j == 0 || j == |refs| - 1
  {
    hide AncIds, PathOk, Descendable;
    if 1 <= j < |refs| - 1 {
      assert FrameOk(fs, w, j) && NodeOk(mem, refs, w.frames, j);
      LevelNonNegative(fs, w, j);
    }
  }

  lemma CurNull(fs: FileSys, w: Walker, mem: Memory, refs: seq<Ref>)
    requires Wf(fs, w) && Rep(mem, refs, w.frames)
    ensures |refs| == |w.frames| && |w.frames| != 1
    ensures w.frames != [] ==> refs[|refs| - 1] != NULL
  {
    assert w.frames != [] ==> NodeOk(mem, refs, w.frames, |w.frames| - 1);
  }

  /** The current node is allocated, and its fts_instr is the caller's to set. */
  lemma CurNode(fs: FileSys, w: Walker, mem: Memory, refs: seq<Ref>)
    requires Wf(fs, w) && Rep(mem, refs, w.frames) && w.frames != []
    ensures |refs| == |w.frames| >= 2 && refs[|refs| - 1] in mem && refs[|refs| - 1] != NULL
    ensures var t := |w.frames| - 1;
            && mem[refs[t]].info == w.frames[t].item.info
            && forall i :: Rep(mem[refs[t] := mem[refs[t]].(instr := i)], refs, w.frames)
  {
    hide Wf;
    WfSize(fs, w);
    var t := |w.frames| - 1;
    assert NodeOk(mem, refs, w.frames, t);
    forall i ensures Rep(mem[refs[t] := mem[refs[t]].(instr := i)], refs, w.frames) {
      var e := mem[refs[t]].(instr := i);
      assert w.frames[..t] + [w.frames[t]] == w.frames;
      assert NodeOk(mem[refs[t] := e], refs, w.frames[..t] + [w.frames[t]], t);
      RepTop(mem, refs, w.frames, e, w.frames[t]);
    }
  }

  /** Where the current node, not a directory in pre-order, leads to. */
  lemma CurrentRef(fs: FileSys, w: Walker, mem: Memory, refs: seq<Ref>)
    requires Wf(fs, w) && Rep(mem, refs, w.frames) && |w.frames| >= 2
    ensures |refs| == |w.frames| && refs[|refs| - 1] in mem && refs[|refs| - 2] in mem
    ensures refs[|refs| - 1] != refs[|refs| - 2] && refs[|refs| - 2] != NULL
    ensures var t := |w.frames| - 2;
            var e := mem[refs[t + 1]];
            && w.frames[t].open == (e.link == NULL)
            && (e.link != NULL ==> e.link == refs[t] && t >= 1)
            && (e.link == NULL ==> e.parent == refs[t])
            && mem[refs[t]].level == w.frames[t].item.level && w.frames[t].item.level >= ROOTPARENTLEVEL
            && (t >= 1 ==> mem[refs[t]].instr == NoInstr)
            && (w.frames[t].item.level == ROOTPARENTLEVEL <==> t == 0)
  {
    hide AncIds, PathOk, Descendable;
    var t := |w.frames| - 2;
    assert FrameOk(fs, w, t + 1) && NodeOk(mem, refs, w.frames, t + 1);
    assert refs[t] in refs && refs[t + 1] in refs;
    if t >= 1 {
      assert FrameOk(fs, w, t) && NodeOk(mem, refs, w.frames, t);
      LevelNonNegative(fs, w, t);
    }
  }

  lemma LeaveCases(w: Walker)
    requires |w.frames| >= 2
    ensures var t := |w.frames| - 2;
            var f := w.frames[t].item;
            var (v, w') := Leave(w);
            && w'.cap == w.cap && w'.stopped == w.stopped
            && (t == 0 ==> v == None && w'.frames == [])
            && (t > 0 ==> |w'.frames| == t + 1
                          && v == Some(Visit(if w.frames[t].open then DP else f.info, f.path, f.st, f.level)))
  {
  }

  /** The next root: any new name is fine, its path is the old name. */
  lemma NextRoot(fs: FileSys, w: Walker, mem: Memory, refs: seq<Ref>, buf: seq<char>)
    requires Wf(fs, w) && Rep(mem, refs, w.frames) && |w.frames| >= 3 && |refs| == |w.frames| && |buf| == w.cap
    requires !w.frames[|w.frames| - 2].open && w.frames[|w.frames| - 2].item.level == ROOTLEVEL
    ensures var t := |w.frames| - 2;
            var p := refs[t];
            var path := w.frames[t].item.path;
            && p in mem && mem[p].name == path && mem[p].namelen == |path| < |buf| && NoNul(path)
            && mem[p].info == w.frames[t].item.info && mem[p].st == w.frames[t].item.st
            && (forall name, n :: Rep((mem - {refs[t + 1]})[p := mem[p].(pathlen := |path|, accpath := PathBuffer,
                                                                        name := name, namelen := n)],
                                      refs[..t + 1], Leave(w).1.frames))
            && (forall buf' | Holds(buf', path) :: BufOk(buf', Leave(w).1.frames))
  {
    hide AncIds, Stat, Join, ValidName;
    var t := |w.frames| - 2;
    var f := w.frames[t];
    var p := refs[t];
    assert FrameOk(fs, w, t) && NodeOk(mem, refs, w.frames, t);
    assert refs[t] != refs[t + 1];
    if f.up >= 1 {
      LevelNonNegative(fs, w, f.up);
    }
    forall name, n
      ensures Rep((mem - {refs[t + 1]})[p := mem[p].(pathlen := |f.item.path|, accpath := PathBuffer, name := name,
                                                     namelen := n)], refs[..t + 1], Leave(w).1.frames)
    {
      var e := mem[p].(pathlen := |f.item.path|, accpath := PathBuffer, name := name, namelen := n);
      assert NodeOk((mem - {refs[t + 1]})[p := e], refs[..t + 1], w.frames[..t] + [f], t);
      RepPop(mem, refs, w.frames, e, f);
      assert w.frames[..t] + [f] == w.frames[..t + 1];
    }
  }

  lemma NextSibling(fs: FileSys, w: Walker, mem: Memory, refs: seq<Ref>, buf: seq<char>)
    requires Wf(fs, w) && Rep(mem, refs, w.frames) && |w.frames| >= 3 && |refs| == |w.frames| && |buf| == w.cap
    requires !w.frames[|w.frames| - 2].open && w.frames[|w.frames| - 2].item.level > ROOTLEVEL && BufOk(buf, w.frames)
    ensures var t := |w.frames| - 2;
            var f := w.frames[t];
            var e := mem[refs[t]];
            && f.up < t && refs[t] in mem && e.parent == refs[f.up] && e.parent in mem && e.parent != refs[t + 1]
            && var dir := w.frames[f.up].item.path;
               && mem[e.parent].pathlen == |dir| && dir != "" && NoNul(dir) && PrefixAt(buf, dir)
               && ValidName(e.name) && e.namelen == |e.name| && f.item.path == Join(dir, e.name)
               && |f.item.path| < |buf| && NoNul(f.item.path)
               && e.info == f.item.info && e.st == f.item.st
               && Rep(mem - {refs[t + 1]}, refs[..t + 1], Leave(w).1.frames)
               && (forall buf' | PrefixAt(buf', dir) && Holds(buf', f.item.path) :: BufOk(buf', Leave(w).1.frames))
  {
    hide Wf, Join, ValidName, PrefixAt, Holds, NoNul;
    var t := |w.frames| - 2;
    var f := w.frames[t];
    SiblingFrames(fs, w);
    SiblingRep(w, mem, refs);
    assert NodeOk(mem, refs, w.frames, t) && NodeOk(mem, refs, w.frames, f.up);
    assert refs[f.up] != refs[t + 1];
  }

  lemma SiblingFrames(fs: FileSys, w: Walker)
    requires Wf(fs, w) && |w.frames| >= 3
    requires !w.frames[|w.frames| - 2].open && w.frames[|w.frames| - 2].item.level > ROOTLEVEL
    ensures var t := |w.frames| - 2;
            var f := w.frames[t];
            && 1 <= f.up < t && w.frames[f.up].open && w.frames[f.up].item.info != INIT && f.item.info != INIT
            && w.frames[t + 1].up == f.up && w.frames[t + 1].item.info != INIT
            && var dir := w.frames[f.up].item.path;
               && dir != "" && NoNul(dir) && ValidName(f.item.name) && f.item.path == Join(dir, f.item.name)
               && |f.item.path| < w.cap && NoNul(f.item.path)
  {
    hide AncIds, Stat, Join, ValidName, Descendable;
    var t := |w.frames| - 2;
    var f := w.frames[t];
    assert FrameOk(fs, w, t) && FrameOk(fs, w, t + 1);
    assert f.up >= 1 && FrameOk(fs, w, f.up);
  }

  lemma SiblingRep(w: Walker, mem: Memory, refs: seq<Ref>)
    requires Rep(mem, refs, w.frames) && |w.frames| >= 3 && !w.frames[|w.frames| - 2].open
    requires w.frames[|w.frames| - 2].item.level > ROOTLEVEL
    ensures |refs| == |w.frames| && Rep(mem - {refs[|refs| - 1]}, refs[..|refs| - 1], Leave(w).1.frames)
  {
    var t := |w.frames| - 2;
    var f := w.frames[t];
    assert NodeOk(mem, refs, w.frames, t);
    assert refs[t] != refs[t + 1];
    var mem' := mem - {refs[t + 1]};
    assert mem'[refs[t] := mem[refs[t]]] == mem';
    assert NodeOk(mem', refs[..t + 1], w.frames[..t] + [f], t);
    RepPop(mem, refs, w.frames, mem[refs[t]], f);
    assert w.frames[..t] + [f] == w.frames[..t + 1];
  }

  /** After the last entry: the directory, or the end of the walk. */
  lemma Climb(fs: FileSys, w: Walker, mem: Memory, refs: seq<Ref>, buf: seq<char>)
    requires Wf(fs, w) && Rep(mem, refs, w.frames) && |w.frames| >= 2 && |refs| == |w.frames| && |buf| == w.cap
    requires w.frames[|w.frames| - 2].open && BufOk(buf, w.frames)
    ensures |w.frames| == 2 ==> refs[0] in mem && mem - {refs[1]} - {refs[0]} == map[] && Rep(map[], [], [])
    ensures |w.frames| >= 3 ==>
              var t := |w.frames| - 2;
              var f := w.frames[t];
              var e := mem[refs[t]];
              && refs[t] in mem && e.pathlen == |f.item.path| < |buf| && PrefixAt(buf, f.item.path)
              && NoNul(f.item.path)
              && e.errno == 0 && e.st == f.item.st
              && Rep((mem - {refs[t + 1]})[refs[t] := e.(info := DP)], refs[..t + 1], Leave(w).1.frames)
              && (forall buf' | PrefixAt(buf', f.item.path) :: BufOk(buf', Leave(w).1.frames))
  {
    hide Rep, Wf, BufOk, PrefixAt, NoNul, NodeOk;
    if |w.frames| == 2 {
      ClimbEnd(mem, refs, w.frames);
    } else {
      ClimbRep(fs, w, mem, refs);
      ClimbPath(fs, w, buf);
      ClimbBuf(fs, w);
    }
  }

  lemma ClimbEnd(mem: Memory, refs: seq<Ref>, frames: seq<Frame>)
    requires Rep(mem, refs, frames) && |frames| == 2
    ensures refs[0] in mem && mem - {refs[1]} - {refs[0]} == map[] && Rep(map[], [], [])
  {
    hide NodeOk;
    forall r | r in mem ensures r in {refs[0], refs[1]} {
      assert r in refs;
    }
    assert refs[0] in refs;
  }

  lemma ClimbRep(fs: FileSys, w: Walker, mem: Memory, refs: seq<Ref>)
    requires Wf(fs, w) && Rep(mem, refs, w.frames) && |w.frames| >= 3 && |refs| == |w.frames|
    requires w.frames[|w.frames| - 2].open
    ensures var t := |w.frames| - 2;
            var f := w.frames[t];
            && refs[t] in mem && mem[refs[t]].pathlen == |f.item.path|
            && mem[refs[t]].errno == 0 && mem[refs[t]].st == f.item.st
            && Rep((mem - {refs[t + 1]})[refs[t] := mem[refs[t]].(info := DP)], refs[..t + 1], Leave(w).1.frames)
  {
    hide Wf;
    var t := |w.frames| - 2;
    var f := w.frames[t];
    DirFrame(fs, w, t);
    assert NodeOk(mem, refs, w.frames, t);
    assert refs[t] != refs[t + 1];
    var f' := f.(item := f.item.(info := DP), open := false);
    var e := mem[refs[t]].(info := DP);
    assert NodeOk((mem - {refs[t + 1]})[refs[t] := e], refs[..t + 1], w.frames[..t] + [f'], t);
    RepPop(mem, refs, w.frames, e, f');
  }

  lemma ClimbPath(fs: FileSys, w: Walker, buf: seq<char>)
    requires Wf(fs, w) && |w.frames| >= 3 && |buf| == w.cap && w.frames[|w.frames| - 2].open && BufOk(buf, w.frames)
    ensures var path := w.frames[|w.frames| - 2].item.path; |path| < |buf| && PrefixAt(buf, path) && NoNul(path)
  {
    hide AncIds, Stat, Join, ValidName, Descendable;
    var t := |w.frames| - 2;
    assert FrameOk(fs, w, t) && FrameOk(fs, w, t + 1);
  }

  lemma ClimbBuf(fs: FileSys, w: Walker)
    requires Wf(fs, w) && |w.frames| >= 3 && w.frames[|w.frames| - 2].open
    ensures forall buf' | PrefixAt(buf', w.frames[|w.frames| - 2].item.path) :: BufOk(buf', Leave(w).1.frames)
  {
    hide Wf, Chop;
    var t := |w.frames| - 2;
    var f := w.frames[t];
    DirFrame(fs, w, t);
    if f.up >= 1 {
      UpPrefix(fs, w, t);
      var up := w.frames[f.up].item.path;
      assert up <= f.item.path;
      forall buf' | PrefixAt(buf', f.item.path) ensures PrefixAt(buf', up) {
        assert buf'[..|up|] == buf'[..|f.item.path|][..|up|];
      }
    }
  }

  lemma DirFrame(fs: FileSys, w: Walker, i: nat)
    requires Wf(fs, w) && 1 <= i < |w.frames| && w.frames[i].open
    ensures w.frames[i].item.info == D
  {
    assert FrameOk(fs, w, i);
  }

  lemma PathEnds(buf: seq<char>, buf': seq<char>, p: string)
    requires PrefixAt(buf, p) && NoNul(p) && |p| < |buf| && buf' == buf[|p| := NUL]
    ensures PrefixAt(buf', p) && CStr(buf') == p
  {
    assert buf'[..|p|] == buf[..|p|];
    CStrIs(buf', p);
  }

  lemma TopRef(fs: FileSys, w: Walker, mem: Memory, refs: seq<Ref>, buf: seq<char>)
    requires Wf(fs, w) && Rep(mem, refs, w.frames) && |w.frames| >= 2 && BufOk(buf, w.frames)
    requires w.frames[|w.frames| - 1].item.info == D
    ensures var t := |w.frames| - 1;
            var path := w.frames[t].item.path;
            && |refs| == |w.frames| && refs[t] in mem && refs[t] != NULL
            && mem[refs[t]].st == w.frames[t].item.st && mem[refs[t]].level == w.frames[t].item.level
            && PrefixAt(buf, Chop(path)) && CStr(buf) == path && path != "" && NoNul(path) && NoNul(Chop(path))
  {
    hide CStr, AncIds, Stat, Join, Descendable;
    assert NodeOk(mem, refs, w.frames, |w.frames| - 1) && FrameOk(fs, w, |w.frames| - 1);
    var path := w.frames[|w.frames| - 1].item.path;
    HoldsIs(buf, path);
    PrefixChop(buf, path);
  }

  /** The path of a directory is a prefix of the paths in it, even without a slash at its end. */
  lemma UpPrefix(fs: FileSys, w: Walker, i: nat)
    requires Wf(fs, w) && 1 <= i < |w.frames| && w.frames[i].item.info != INIT && w.frames[i].up >= 1
    ensures w.frames[i].up < i && w.frames[w.frames[i].up].item.path <= Chop(w.frames[i].item.path)
  {
    hide AncIds, Stat, Join, Descendable, Chop, ValidName;
    assert FrameOk(fs, w, i);
    LevelNonNegative(fs, w, w.frames[i].up);
    NoTrailingSlash(w.frames[w.frames[i].up].item.path, w.frames[i].item.name);
  }

  /** The current directory gets another fts_info. */
  lemma BecomeRep(fs: FileSys, w: Walker, mem: Memory, refs: seq<Ref>, buf: seq<char>, errno: int, path: string,
                  info: Info)
    requires Wf(fs, w) && Rep(mem, refs, w.frames) && |w.frames| >= 2 && BufOk(buf, w.frames)
    requires w.frames[|w.frames| - 1].item.info == D && info in {DP, DNR, ERR}
    ensures |refs| == |w.frames| && refs[|refs| - 1] in mem
    ensures var t := |w.frames| - 1;
            var (v, w') := Become(w, path, info);
            && Rep(mem[refs[t] := mem[refs[t]].(info := info, errno := errno)], refs, w'.frames)
            && |w'.frames| == |w.frames| && w'.cap == w.cap && w'.stopped == w.stopped
            && v == Some(Visit(info, path, w.frames[t].item.st, w.frames[t].item.level))
            && (forall buf' | PrefixAt(buf', Chop(w.frames[t].item.path)) :: BufOk(buf', w'.frames))
  {
    hide Wf, Chop;
    var t := |w.frames| - 1;
    var f := w.frames[t].(item := w.frames[t].item.(info := info));
    var e := mem[refs[t]].(info := info, errno := errno);
    assert NodeOk(mem, refs, w.frames, t);
    assert NodeOk(mem[refs[t] := e], refs, w.frames[..t] + [f], t);
    RepTop(mem, refs, w.frames, e, f);
    if w.frames[t].up >= 1 {
      UpPrefix(fs, w, t);
    }
    var frames' := Become(w, path, info).1.frames;
    forall buf' | PrefixAt(buf', Chop(w.frames[t].item.path)) ensures BufOk(buf', frames') {
      if w.frames[t].up >= 1 {
        var up := w.frames[w.frames[t].up].item.path;
        assert buf'[..|up|] == buf'[..|Chop(w.frames[t].item.path)|][..|up|];
      }
    }
  }

  lemma EnterFails(fs: FileSys, o: Options, w: Walker, names: seq<string>)
    requires w.frames != [] && names != []
    requires GrowFor(w.cap, |Chop(w.frames[|w.frames| - 1].item.path)| + 1, names).None?
    ensures Enter(fs, o, w, names) == (None, Become(w, "", ERR).1.(stopped := true))
  {
  }

  lemma BehindSlash(buf: seq<char>, p: string)
    requires PrefixAt(buf, Chop(p) + "/")
    ensures PrefixAt(buf, p)
  {
    assert buf[..|p|] == buf[..|Chop(p)| + 1][..|p|];
  }

  /** What fts_build leaves behind when there are entries to visit. */
  ghost predicate Built(fs: FileSys, o: Options, w: Walker, mem0: Memory, refs: seq<Ref>, kids: seq<Ref>,
                        names: seq<string>, mem: Memory, buf: seq<char>)
    requires |w.frames| >= 2 && |refs| == |w.frames|
  {
    var t := |w.frames| - 1;
    var h := w.frames[t].item;
    && Listing(fs, o, h.st) == Some(names) && names != []
    && GrowFor(w.cap, |Chop(h.path)| + 1, names) == Some(|buf|)
    && Plus(mem, mem0, kids) && KidList(fs, o, mem, kids, names, h, AncIds(w.frames, t), refs[t])
    && PrefixAt(buf, Chop(h.path) + "/")
  }

  lemma FirstKidStack(fs: FileSys, o: Options, w: Walker, mem0: Memory, refs: seq<Ref>, kids: seq<Ref>,
                      names: seq<string>, mem: Memory, buf: seq<char>)
    requires ValidFs(fs) && Wf(fs, w) && Rep(mem0, refs, w.frames) && |w.frames| >= 2 && |refs| == |w.frames|
    requires w.frames[|w.frames| - 1].item.info == D
    requires refs[|refs| - 1] in mem0 && mem0[refs[|refs| - 1]].instr == NoInstr
    requires Built(fs, o, w, mem0, refs, kids, names, mem, buf)
    ensures names != [] && (forall n | n in names :: ValidName(n))
    ensures var t := |w.frames| - 1;
            var h := w.frames[t].item;
            var (v, w') := Enter(fs, o, w, names);
            && Wf(fs, w') && Rep(mem, refs + Rev(kids), w'.frames) && w'.cap == |buf| && !w'.stopped
            && Grown(fs, o, w, names, w') && v == Some(Pre(Kid(fs, o, h, AncIds(w.frames, t), names[0])))
  {
    hide Wf, Rep, AncIds, Stack, KidItems, GrowFor, Listing, Kid, PrefixAt, Enter, Chop, Plus, KidList, FrameOk,
         NodeOk, ValidName, ValidFs;
    var t := |w.frames| - 1;
    WfCap(fs, w);
    TopDirFields(fs, w, mem0, refs);
    TopEntryDir(fs, w);
    EnterGrows(fs, o, w, names, |buf|);
    ListingValid(fs, o, w.frames[t].item.st);
    GrownWf(fs, o, w, names, Enter(fs, o, w, names).1);
    RepGrown(fs, o, mem0, refs, w, names, Enter(fs, o, w, names).1, kids, mem);
  }

  lemma FirstKid(fs: FileSys, o: Options, w: Walker, mem0: Memory, refs: seq<Ref>, kids: seq<Ref>, names: seq<string>,
                 mem: Memory, buf: seq<char>)
    requires ValidFs(fs) && Wf(fs, w) && Rep(mem0, refs, w.frames) && |w.frames| >= 2 && |refs| == |w.frames|
    requires w.frames[|w.frames| - 1].item.info == D
    requires refs[|refs| - 1] in mem0 && mem0[refs[|refs| - 1]].instr == NoInstr
    requires Built(fs, o, w, mem0, refs, kids, names, mem, buf)
    ensures kids != [] && kids[0] in mem && kids[0] != NULL && (refs + Rev(kids))[|refs| + |kids| - 1] == kids[0]
    ensures names != [] && ValidName(names[0]) && refs[|refs| - 1] in mem
    ensures var t := |w.frames| - 1;
            var h := w.frames[t].item;
            var path := Join(h.path, names[0]);
            && mem[kids[0]].parent == refs[t] && mem[refs[t]].pathlen == |h.path|
            && mem[kids[0]].name == names[0] && mem[kids[0]].namelen == |names[0]| && mem[kids[0]].instr == NoInstr
            && h.path != "" && NoNul(h.path) && PrefixAt(buf, h.path) && |path| < |buf| && NoNul(path)
    ensures var t := |w.frames| - 1;
            var h := w.frames[t].item;
            var (v, w') := Enter(fs, o, w, names);
            var path := Join(h.path, names[0]);
            && Wf(fs, w') && Rep(mem, refs + Rev(kids), w'.frames) && w'.cap == |buf| && !w'.stopped && w'.frames != []
            && v == Some(Visit(mem[kids[0]].info, path, mem[kids[0]].st, mem[kids[0]].level))
            && (forall buf' | PrefixAt(buf', h.path) && Holds(buf', path) :: BufOk(buf', w'.frames))
  {
    hide Wf, Rep, AncIds, Stack, KidItems, GrowFor, Listing, Classify, Find, PrefixAt, Holds, Enter, Stat, Lookup;
    var t := |w.frames| - 1;
    var h := w.frames[t].item;
    FirstKidStack(fs, o, w, mem0, refs, kids, names, mem, buf);
    TopDirFields(fs, w, mem0, refs);
    assert KidNode(mem, kids, 0, Kid(fs, o, h, AncIds(w.frames, t), names[0]), refs[t]);
    assert names[0] in names;
    BehindSlash(buf, h.path);
    var w' := Enter(fs, o, w, names).1;
    assert w'.frames[|w'.frames| - 1] == Frame(Kid(fs, o, h, AncIds(w.frames, t), names[0]), false, t);
    GrowForFits(w.cap, |Chop(h.path)| + 1, names);
  }

  /** A node that changes outside the stack does not disturb a search along the parents. */
  lemma OpenedChain(mem: Memory, mem': Memory, refs: seq<Ref>, g: seq<Frame>, h: Item, cur: Ref, p: Ref)
    requires Opened(mem, refs, g, h, cur) && p !in refs
    requires forall r | r in mem && r != p :: r in mem' && mem'[r] == mem[r]
    ensures |refs| == |g| >= 2 && Chain(mem', refs, g) && g[|g| - 1].open && cur == refs[|g| - 1]
  {
    ChainExcept(mem, mem', refs, g, p);
  }

  lemma PathWritten(fs: FileSys, buf: seq<char>, buf': seq<char>, h: Item, level: int, name: string)
    requires EntryDir(fs, h, level) && ValidName(name) && PrefixAt(buf, Chop(h.path) + "/")
    requires var len := |Chop(h.path)| + 1;
             && len + |name| < |buf'| && buf'[..len] == buf[..len]
             && buf'[len..len + |name|] == name && buf'[len + |name|] == NUL
    ensures PrefixAt(buf', Chop(h.path) + "/") && CStr(buf') == Join(h.path, name)
  {
    hide EntryDir, CStr, Join, Chop, ValidName;
    EntryPath(fs, h, level);
    SamePrefix(buf, buf', Chop(h.path) + "/");
    PathIs(buf', h.path, name);
  }

  lemma EntryPath(fs: FileSys, h: Item, level: int)
    requires EntryDir(fs, h, level)
    ensures NoNul(h.path)
  {
  }

  lemma SamePrefix(buf: seq<char>, buf': seq<char>, p: string)
    requires PrefixAt(buf, p) && |p| <= |buf'| && buf'[..|p|] == buf[..|p|]
    ensures PrefixAt(buf', p)
  {
  }

  /** The fields that fts_build sets are those of the entry. */
  lemma FillIs(fs: FileSys, o: Options, h: Item, level: int, ancs: set<Id>, name: string, e: Ftsent, len: nat)
    requires EntryDir(fs, h, level) && ValidName(name) && len == |Chop(h.path)| + 1 && len + |name| < UINT16_MAX
    requires (e.info, e.st) == Classify(fs, o.logical, Lookup(fs, Join(h.path, name)), IsDot(name), ancs)
    requires e.level == S16(level) && e.pathlen == U16(len + |name|) && e.accpath == PathBuffer && e.link == NULL
    requires e.name == name && e.namelen == |name| && e.instr == NoInstr
    requires e.info == D ==> e.st == Some(e.id) && e.errno == 0
    ensures Entered(e, Kid(fs, o, h, ancs, name), e.parent, NULL)
  {
    hide Lookup, Classify, IsDot, Stat;
    KidIsGood(fs, o, h, ancs, name);
    assert level <= 32767;
  }

  lemma Appended(buf: seq<char>, buf': seq<char>, dir: string, name: string, t: nat)
    requires dir != "" && NoNul(dir) && ValidName(name) && PrefixAt(buf, dir) && |buf| == |buf'|
    requires t == if buf[|dir| - 1] == '/' then |dir| - 1 else |dir|
    requires t + 1 + |name| < |buf| && buf'[..t + 1] == buf[t := '/'][..t + 1]
    requires buf'[t + 1..t + 1 + |name|] == name && buf'[t + 1 + |name|] == NUL
    ensures PrefixAt(buf', dir) && Holds(buf', Join(dir, name))
  {
    assert dir[|dir| - 1] == buf[..|dir|][|dir| - 1] == buf[|dir| - 1];
    var p := Join(dir, name);
    assert buf'[..t] == buf[..t] == dir[..t] == Chop(dir);
    assert buf'[..|p|] == buf'[..t] + [buf'[t]] + buf'[t + 1..t + 1 + |name|];
    NoTrailingSlash(dir, name);
    assert buf'[..|dir|] == buf'[..|p|][..|dir|] == p[..|dir|] == dir;
  }

  /** A directory that can be read by its path, whose entries are at the given level. */
  ghost predicate EntryDir(fs: FileSys, h: Item, level: int) {
    && h.info == D && h.path != "" && NoNul(h.path)
    && h.st.Some? && IsDir(fs, h.st.value) && Stat(fs, h.path) == h.st
    && level == h.level + 1 >= 1 && forall name | ValidName(name) :: |Join(h.path, name)| >= 2 * level
  }

  /** The stack g has the directory h, the current node, open on top. */
  ghost predicate Opened(mem: Memory, refs: seq<Ref>, g: seq<Frame>, h: Item, cur: Ref) {
    && Chain(mem, refs, g) && |g| >= 2 && g[|g| - 1].open && g[|g| - 1].item == h && cur == refs[|g| - 1]
  }

  lemma GrowForNone(cap: nat, len: nat)
    ensures GrowFor(cap, len, []) == Some(cap)
  {
  }

  /** What the invariant says about a current directory that is about to be read. */
  lemma TopDir(fs: FileSys, w: Walker, mem: Memory, refs: seq<Ref>, buf: seq<char>, g: seq<Frame>)
    requires Wf(fs, w) && Rep(mem, refs, w.frames) && |w.frames| >= 2 && BufOk(buf, w.frames) && |buf| == w.cap
    requires var t := |w.frames| - 1; w.frames[t].item.info == D && g == w.frames[t := w.frames[t].(open := true)]
    ensures var t := |w.frames| - 1;
            var h := w.frames[t].item;
            && refs[t] in mem && refs[t] != NULL && mem[refs[t]].accpath == PathBuffer
            && mem[refs[t]].pathlen == |h.path| >= 1
            && Holds(buf, h.path) && CStr(buf) == h.path && |h.path| < |buf| && w.cap < UINT16_MAX
            && |refs| == |w.frames|
            && Refs(refs) <= mem.Keys
            && Opened(mem, refs, g, h, refs[t]) && AncIds(g, t) == AncIds(w.frames, t)
            && EntryDir(fs, h, mem[refs[t]].level + 1)
  {
    hide Wf, FrameOk, NodeOk, EntryDir, CStr, AncIds, ChainAt;
    var t := |w.frames| - 1;
    TopDirFields(fs, w, mem, refs);
    TopEntryDir(fs, w);
    HoldsIs(buf, w.frames[t].item.path);
    AncSame(w.frames, g, t);
    WfCap(fs, w);
    forall j | 0 <= j < |g| && g[j].open ensures ChainAt(mem, refs, g, j) {
      if j == 0 {
        RootChain(fs, w, mem, refs, g);
      } else {
        DirChain(fs, w, mem, refs, g, j);
      }
    }
  }

  lemma WfCap(fs: FileSys, w: Walker)
    requires Wf(fs, w)
    ensures w.cap < UINT16_MAX
  {
  }

  lemma RootChain(fs: FileSys, w: Walker, mem: Memory, refs: seq<Ref>, g: seq<Frame>)
    requires Rep(mem, refs, w.frames) && |w.frames| >= 2 && |g| == |w.frames|
    ensures ChainAt(mem, refs, g, 0)
  {
    assert refs[0] in refs;
  }

  lemma TopDirFields(fs: FileSys, w: Walker, mem: Memory, refs: seq<Ref>)
    requires Wf(fs, w) && Rep(mem, refs, w.frames) && |w.frames| >= 2
    requires w.frames[|w.frames| - 1].item.info == D
    ensures var t := |w.frames| - 1;
            var h := w.frames[t].item;
            && FrameOk(fs, w, t) && NodeOk(mem, refs, w.frames, t)
            && refs[t] in mem && refs[t] != NULL && mem[refs[t]].level == h.level && mem[refs[t]].accpath == PathBuffer
            && mem[refs[t]].pathlen == |h.path| >= 1 && NoNul(h.path)
  {
    hide Stat, AncIds, Join, ValidName;
    assert FrameOk(fs, w, |w.frames| - 1) && NodeOk(mem, refs, w.frames, |w.frames| - 1);
  }

  lemma TopEntryDir(fs: FileSys, w: Walker)
    requires Wf(fs, w) && |w.frames| >= 2 && w.frames[|w.frames| - 1].item.info == D
    ensures var h := w.frames[|w.frames| - 1].item; EntryDir(fs, h, h.level + 1)
  {
    hide Stat, AncIds, Join, ValidName;
    var t := |w.frames| - 1;
    assert FrameOk(fs, w, t);
    LevelNonNegative(fs, w, t);
    var h := w.frames[t].item;
    forall name | ValidName(name) ensures |Join(h.path, name)| >= 2 * (h.level + 1) {
      KidPathLength(fs, w, t, name);
    }
  }

  lemma DirChain(fs: FileSys, w: Walker, mem: Memory, refs: seq<Ref>, g: seq<Frame>, j: nat)
    requires Wf(fs, w) && Rep(mem, refs, w.frames) && 1 <= j < |w.frames|
    requires w.frames[j].open || w.frames[j].item.info == D
    requires var t := |w.frames| - 1; g == w.frames[t := w.frames[t].(open := true)]
    ensures ChainAt(mem, refs, g, j)
  {
    hide Stat, AncIds, Join, ValidName, PathOk;
    assert FrameOk(fs, w, j) && NodeOk(mem, refs, w.frames, j);
    LevelNonNegative(fs, w, j);
  }

  /** The list that the loop of fts_build has made so far, added to the nodes mem0 that were there before. */
  ghost predicate Listed(fs: FileSys, o: Options, mem: Memory, mem0: Memory, kids: seq<Ref>, names: seq<string>,
                         h: Item, ancs: set<Id>, dir: Ref, head: Ref, tail: Ref)
  {
    && KidList(fs, o, mem, kids, names, h, ancs, dir) && Plus(mem, mem0, kids)
    && if kids == [] then head == NULL else head == kids[0] && tail == kids[|kids| - 1]
  }

  lemma ListedStart(fs: FileSys, o: Options, mem: Memory, h: Item, ancs: set<Id>, dir: Ref, names: seq<string>)
    ensures Listed(fs, o, mem, mem, [], [], h, ancs, dir, NULL, NULL)
    ensures Kept(o, names) == [] + Kept(o, names[0..])
  {
    assert names[0..] == names;
  }

  lemma ListedKeeps(fs: FileSys, o: Options, mem: Memory, mem0: Memory, kids: seq<Ref>, names: seq<string>,
                    h: Item, ancs: set<Id>, dir: Ref, head: Ref, tail: Ref, refs: seq<Ref>, g: seq<Frame>)
    requires Listed(fs, o, mem, mem0, kids, names, h, ancs, dir, head, tail)
    requires Opened(mem0, refs, g, h, dir) && Refs(refs) <= mem0.Keys
    ensures Opened(mem, refs, g, h, dir) && Refs(refs) <= mem.Keys
    ensures head != NULL ==> tail in mem
  {
    KidEnds(fs, o, mem, kids, names, h, ancs, dir);
    ChainPlus(mem0, mem, refs, g);
  }

  lemma ListedFrees(fs: FileSys, o: Options, mem: Memory, mem0: Memory, kids: seq<Ref>, names: seq<string>,
                    h: Item, ancs: set<Id>, dir: Ref, head: Ref, tail: Ref)
    requires Listed(fs, o, mem, mem0, kids, names, h, ancs, dir, head, tail)
    ensures Linked(mem, head, kids) && Distinct(kids) && mem - Refs(kids) == mem0
  {
    KidsLinked(fs, o, mem, kids, names, h, ancs, dir, 0);
    assert kids[0..] == kids;
  }

  lemma ListedAdd(fs: FileSys, o: Options, mem: Memory, mem0: Memory, kids: seq<Ref>, names: seq<string>,
                  h: Item, ancs: set<Id>, dir: Ref, head: Ref, tail: Ref, mem': Memory, p: Ref, name: string)
    requires Listed(fs, o, mem, mem0, kids, names, h, ancs, dir, head, tail)
    requires p != NULL && p !in mem && mem'.Keys == mem.Keys + {p}
    requires Entered(mem'[p], Kid(fs, o, h, ancs, name), dir, NULL)
    requires head == NULL ==> forall r | r in mem :: mem'[r] == mem[r]
    requires head != NULL ==>
               && tail in mem && mem'[tail] == mem[tail].(link := p)
               && forall r | r in mem && r != tail :: mem'[r] == mem[r]
    ensures Listed(fs, o, mem', mem0, kids + [p], names + [name], h, ancs, dir, if head == NULL then p else head, p)
  {
    KidEnds(fs, o, mem, kids, names, h, ancs, dir);
    AddKid(fs, o, mem0, mem, kids, names, h, ancs, dir, mem', p, name);
  }

  lemma ListedIs(fs: FileSys, o: Options, mem: Memory, mem0: Memory, kids: seq<Ref>, names: seq<string>,
                 h: Item, ancs: set<Id>, dir: Ref, head: Ref, tail: Ref)
    requires Listed(fs, o, mem, mem0, kids, names, h, ancs, dir, head, tail)
    ensures KidList(fs, o, mem, kids, names, h, ancs, dir) && Plus(mem, mem0, kids)
    ensures head == (if kids == [] then NULL else kids[0]) && (kids == [] <==> head == NULL)
  {
    KidEnds(fs, o, mem, kids, names, h, ancs, dir);
  }

  lemma KidEnds(fs: FileSys, o: Options, mem: Memory, kids: seq<Ref>, names: seq<string>, h: Item, ancs: set<Id>,
                dir: Ref)
    requires KidList(fs, o, mem, kids, names, h, ancs, dir)
    ensures |kids| == |names|
    ensures kids != [] ==> kids[0] != NULL && kids[|kids| - 1] != NULL && kids[|kids| - 1] in mem
  {
    hide Kid, Entered;
    if kids != [] {
      assert KidNode(mem, kids, 0, Kid(fs, o, h, ancs, names[0]), dir);
      var n := |kids| - 1;
      assert KidNode(mem, kids, n, Kid(fs, o, h, ancs, names[n]), dir);
    }
  }

  lemma Shift(all: seq<string>, done: seq<string>, name: string, rest: seq<string>)
    requires all == done + ([name] + rest)
    ensures all == (done + [name]) + rest
  {
  }

  lemma BuildEnd(o: Options, names: seq<string>, cap: nat, len: nat)
    ensures Kept(o, names[|names|..]) == [] && GrowFor(cap, len, []) == Some(cap)
  {
  }

  /** fts_build ends the path either at the slash or behind it. */
  lemma BufferEnd(buf: seq<char>, buf': seq<char>, cp: nat, p: string, len: nat)
    requires PrefixAt(buf, Chop(p) + "/") && len == |Chop(p)| + 1 && |buf| == |buf'|
    requires cp < |buf| && buf' == buf[cp := NUL] && (cp == len || cp == len - 1)
    ensures if cp == len then PrefixAt(buf', Chop(p) + "/") else Holds(buf', Chop(p))
  {
    assert buf'[..cp] == buf[..cp];
    if cp < len {
      assert buf[..cp] == buf[..len][..cp] == Chop(p);
    }
  }

  lemma OpenListing(fs: FileSys, o: Options, h: Item, level: int)
    requires EntryDir(fs, h, level)
    ensures match OpenDir(fs, h.path)
            case None => Listing(fs, o, h.st) == None
            case Some(names) => names == Names(Entries(fs, h.st)) && Listing(fs, o, h.st) == Some(Kept(o, names))
  {
  }

  /** A name that readdir(3) reports is a file name. */
  lemma NextName(fs: FileSys, o: Options, h: Item, level: int, names: seq<string>, i: nat)
    requires ValidFs(fs) && EntryDir(fs, h, level) && names == Names(Entries(fs, h.st)) && i < |names|
    ensures ValidName(names[i])
  {
    assert ValidName(fs.inodes[h.st.value].kind.entries[i].name);
  }

  lemma SlashWritten(buf: seq<char>, buf': seq<char>, p: string)
    requires Holds(buf, p) && p != "" && |buf| == |buf'|
    requires var len := if buf[|p| - 1] == '/' then |p| - 1 else |p|;
             buf'[..len] == buf[..len] && buf'[len] == '/'
    ensures PrefixAt(buf', Chop(p) + "/") && |Chop(p)| + 1 <= |buf|
    ensures |Chop(p)| == if buf[|p| - 1] == '/' then |p| - 1 else |p|
  {
    assert p[|p| - 1] == buf[..|p|][|p| - 1] == buf[|p| - 1];
    var n := |Chop(p)|;
    assert buf'[..n + 1] == buf'[..n] + "/";
  }

  lemma GrowForHead(cap: nat, len: nat, name: string, rest: seq<string>)
    ensures GrowFor(cap, len, [name] + rest) ==
            match GrowFor(cap, len, [name]) case None => None case Some(c) => GrowFor(c, len, rest)
  {
    assert ([name] + rest)[1..] == rest;
    GrowForStep(cap, len, [name] + rest);
  }

  lemma GrowForLimit(cap: nat, len: nat, name: string)
    requires GrowFor(cap, len, [name]).Some?
    ensures len + |name| < UINT16_MAX && len + |name| < GrowFor(cap, len, [name]).value
  {
    GrowForFits(cap, len, [name]);
    assert [name][0] == name;
  }

  /** The buffer then holds the path of the entry. */
  lemma PathIs(buf: seq<char>, dir: string, name: string)
    requires NoNul(dir) && ValidName(name)
    requires PrefixAt(buf, Chop(dir) + "/")
    requires var len := |Chop(dir)| + 1;
             len + |name| < |buf| && buf[len..len + |name|] == name && buf[len + |name|] == NUL
    ensures CStr(buf) == Join(dir, name)
  {
    var p := Join(dir, name);
    var len := |Chop(dir)| + 1;
    assert buf[..|p|] == buf[..len] + buf[len..len + |name|];
    CStrIs(buf, p);
  }

  lemma ChainExcept(mem: Memory, mem': Memory, refs: seq<Ref>, frames: seq<Frame>, p: Ref)
    requires Chain(mem, refs, frames) && p !in refs
    requires forall r | r in mem && r != p :: r in mem' && mem'[r] == mem[r]
    ensures Chain(mem', refs, frames)
  {
    forall j | 0 <= j < |frames| && frames[j].open ensures ChainAt(mem', refs, frames, j) {
      assert ChainAt(mem, refs, frames, j) && refs[j] in refs;
    }
  }

  lemma ChainPlus(mem: Memory, mem': Memory, refs: seq<Ref>, frames: seq<Frame>)
    requires Chain(mem, refs, frames) && forall r | r in mem :: r in mem' && mem'[r] == mem[r]
    ensures Chain(mem', refs, frames)
  {
    forall j | 0 <= j < |frames| && frames[j].open ensures ChainAt(mem', refs, frames, j) {
      assert ChainAt(mem, refs, frames, j);
    }
  }

  /** What a search along the parents of a directory relies on. */
  ghost predicate ChainAt(mem: Memory, refs: seq<Ref>, frames: seq<Frame>, j: nat)
    requires j < |frames| == |refs|
  {
    && refs[j] in mem && (mem[refs[j]].level >= ROOTLEVEL <==> j >= 1)
    && (j >= 1 ==>
          && frames[j].up < j && frames[frames[j].up].open && mem[refs[j]].parent == refs[frames[j].up]
          && frames[j].item.st == Some(mem[refs[j]].id))
  }

  ghost predicate Chain(mem: Memory, refs: seq<Ref>, frames: seq<Frame>) {
    && |refs| == |frames| >= 1
    && forall j | 0 <= j < |frames| && frames[j].open :: ChainAt(mem, refs, frames, j)
  }

  lemma ChainStep(mem: Memory, refs: seq<Ref>, frames: seq<Frame>, j: nat)
    requires Chain(mem, refs, frames) && j < |frames| && frames[j].open
    ensures |refs| == |frames| && refs[j] in mem && refs[j] in refs
    ensures mem[refs[j]].level >= ROOTLEVEL <==> j >= 1
    ensures j >= 1 ==>
              && frames[j].up < j && frames[frames[j].up].open && mem[refs[j]].parent == refs[frames[j].up]
              && AncIds(frames, j) == {mem[refs[j]].id} + AncIds(frames, frames[j].up)
    ensures j == 0 ==> AncIds(frames, j) == {}
  {
    assert ChainAt(mem, refs, frames, j);
  }

  /** Freeing the first node of a list leaves the rest of the list linked. */
  lemma UnlinkFirst(mem: Memory, head: Ref, list: seq<Ref>)
    requires Linked(mem, head, list) && Distinct(list) && list != []
    ensures Linked(mem - {head}, mem[head].link, list[1..]) && Distinct(list[1..])
    ensures Refs(list) == {head} + Refs(list[1..]) && head !in list[1..]
  {
    forall r ensures r in list <==> r == head || r in list[1..] {
      assert list == [list[0]] + list[1..];
    }
    LinkedWithout(mem, mem[head].link, list[1..], head);
  }

  lemma {:induction false} LinkedWithout(mem: Memory, head: Ref, list: seq<Ref>, r: Ref)
    requires Linked(mem, head, list) && r !in list
    ensures Linked(mem - {r}, head, list)
    decreases |list|
  {
    if list != [] {
      LinkedWithout(mem, mem[head].link, list[1..], r);
    }
  }
}
