/** The %files list of a package, line after line: which lists are accepted, and what the records come from. */
module PackageRun {
  import opened CStrings
  import opened FileSystem
  import opened Numbers
  import opened Flags
  import opened Manifest
  import opened ManifestProofs
  import opened LineText
  import opened LineParser
  import RecordRules
  import Files
  import HeaderInodes
  import HeaderSpec
  import LinePrint
  import LineRules

  // ----- one name

  /** A name under the build root in canonical form, whether it is a pattern, and what the pattern matches. */
  datatype Expansion = Expansion(path: string, glob: bool, matches: seq<string>)

  /** What does not change while the list is processed; key tells whether a name is that of a readable key. */
  datatype Sources = Sources(fs: FileSys, env: Env, buildRoot: string, expand: string -> Expansion, key: string -> bool)

  ghost predicate ValidExpansion(e: Expansion) {
    NoNul(e.path + "/") && NoNul(e.path) && forall p | p in e.matches :: NoNul(p)
  }

  ghost predicate ValidSources(x: Sources) {
    ValidFs(x.fs) && forall name :: ValidExpansion(x.expand(name))
  }

  function ContextOf(x: Sources, def: FileEntry): Context {
    Context(x.fs, x.env, x.buildRoot, def)
  }

  /** What the lines so far have added, the defaults they leave, and the documentation directories they name. */
  datatype Run = Run(s: State, def: FileEntry, docDirs: seq<string>)

  function Fail(r: Run): Run {
    r.(s := r.s.(failed := true))
  }

  function Result(r: Run, s: State, ok: bool): Run {
    r.(s := s.(failed := s.failed || !ok))
  }

  /** A relative name behind %doc or %license and nothing else. */
  predicate ForSpecial(flags: bv32, name: string) {
    && And(flags, !RPMFILE_SPECIALDIR) in [RPMFILE_DOC, RPMFILE_LICENSE] && !("/" <= name)
  }

  function Explicit(cur: FileEntry): FileEntry {
    if Has(cur.attrFlags, RPMFILE_DIR) then cur.(isDir := 1) else cur
  }

  ghost function NameRun(x: Sources, r: Run, name: string, first: bool): Run
    requires ValidSources(x)
  {
    var cur, e := r.s.cur, x.expand(name);
    assert ValidExpansion(e);
    if Has(cur.attrFlags, RPMFILE_SPECIALDIR) then if ForSpecial(cur.attrFlags, name) then r else Fail(r)
    else if !first then Fail(r)
    else if Has(cur.attrFlags, RPMFILE_DOCDIR) then r.(docDirs := r.docDirs + [name])
    else if Has(cur.attrFlags, RPMFILE_PUBKEY) then
      if !x.key(name) then Fail(r)
      else if "/" <= name then
        var (s, ok) := AddState(ContextOf(x, r.def), r.s, e.path);
        Result(r, s, ok)
      else r
    else
      var (s, ok) := BinaryState(ContextOf(x, r.def), r.s.(cur := Explicit(cur)), name, e.path, e.glob, e.matches);
      Result(r, s, ok)
  }

  // ----- one line

  ghost function NamesRun(x: Sources, r: Run, names: seq<string>, n: nat): Run
    requires ValidSources(x) && n <= |names|
  {
    if n == 0 then r else NameRun(x, NamesRun(x, r, names, n - 1), names[n - 1], n == 1)
  }

  ghost function LineRun(x: Sources, r: Run, line: string): Run
    requires ValidSources(x)
  {
    var text := SkipSpace(line);
    if text == "" then r
    else match ParseText(text, r.def)
      case None => Fail(r)
      case Some(p) => NamesRun(x, Run(r.s.(cur := p.cur), p.def, r.docDirs), p.names, |p.names|)
  }

  /** The first n lines. */
  ghost function ListRun(x: Sources, r: Run, lines: seq<string>, n: nat): Run
    requires ValidSources(x) && n <= |lines|
  {
    if n == 0 then r else LineRun(x, ListRun(x, r, lines, n - 1), lines[n - 1])
  }

  /** The defaults at the start: root owns everything, and everything is verified. */
  const START_ENTRY := FileEntry(0, 0, 0xFFFF_FFFF, AttrRec(false, false, Some("root"), Some("root"), 0, 0), [], None,
                                 None, 0)

  function Start(docDirs: seq<string>): Run {
    Run(State([], false, false, START_ENTRY), START_ENTRY, docDirs)
  }

  // ----- what is added does not depend on what was added before

  /** out is what comes out if a is added to r. */
  ghost predicate Joins(r: Run, a: Run, out: Run) {
    && out.s.files == r.s.files + a.s.files && (out.s.failed <==> r.s.failed || a.s.failed)
    && (out.s.large <==> r.s.large || a.s.large) && out.docDirs == r.docDirs + a.docDirs && out.def == a.def
  }

  /** Nothing added yet, with the entry and the defaults of r. */
  function Blank(r: Run): Run {
    Run(State([], false, false, r.s.cur), r.def, [])
  }

  lemma {:induction false} AddAllLocal(c: Context, s: State, ok: bool, paths: seq<string>)
    requires ValidFs(c.fs) && forall p | p in paths :: NoNul(p)
    ensures var (x, ok') := AddAll(c, State([], false, false, s.cur), ok, paths);
            AddAll(c, s, ok, paths) ==
            (State(s.files + x.files, s.failed || x.failed, s.large || x.large, x.cur), ok')
    decreases |paths|
  {
    hide ValidFs, AddState;
    if paths == [] {
      assert s.files + [] == s.files;
    } else {
      assert paths[0] in paths && forall p | p in paths[1..] :: p in paths;
      AddStateLocal(c, s, paths[0]);
      var s0 := State([], false, false, s.cur);
      var (x, okx) := AddState(c, s0, paths[0]);
      var (s1, ok1) := AddState(c, s, paths[0]);
      AddAllLocal(c, s1, ok1, paths[1..]);
      AddAllLocal(c, x, okx, paths[1..]);
      var y := AddAll(c, State([], false, false, x.cur), okx, paths[1..]).0;
      assert s.files + x.files + y.files == s.files + (x.files + y.files);
    }
  }

  lemma BinaryLocal(c: Context, s: State, fileName: string, e: Expansion)
    requires ValidFs(c.fs) && ValidExpansion(e)
    ensures var (x, ok) := BinaryState(c, State([], false, false, s.cur), fileName, e.path, e.glob, e.matches);
            BinaryState(c, s, fileName, e.path, e.glob, e.matches) ==
            (State(s.files + x.files, s.failed || x.failed, s.large || x.large, x.cur), ok)
  {
    hide ValidFs, AddState, AddAll;
    assert s.files + [] == s.files;
    var s1 := s.(cur := Slashed(s.cur, fileName));
    AddAllLocal(c, s1, true, e.matches);
    AddStateLocal(c, s1, if s1.cur.isDir != 0 then e.path + "/" else e.path);
  }

  lemma NameLocal(x: Sources, r: Run, name: string, first: bool)
    requires ValidSources(x)
    ensures var a, out := NameRun(x, Blank(r), name, first), NameRun(x, r, name, first);
            Joins(r, a, out) && out.s.cur == a.s.cur && out.def == r.def
  {
    hide AddState, BinaryState, ForSpecial, Explicit, Has, ValidFs;
    var cur, e := r.s.cur, x.expand(name);
    assert ValidExpansion(e);
    assert r.s.files + [] == r.s.files && r.docDirs + [] == r.docDirs && [] + [name] == [name];
    if !Has(cur.attrFlags, RPMFILE_SPECIALDIR) && first && !Has(cur.attrFlags, RPMFILE_DOCDIR) {
      if Has(cur.attrFlags, RPMFILE_PUBKEY) {
        AddStateLocal(ContextOf(x, r.def), r.s, e.path);
      } else {
        BinaryLocal(ContextOf(x, r.def), r.s.(cur := Explicit(cur)), name, e);
      }
    }
  }

  lemma {:induction false} NamesLocal(x: Sources, r: Run, names: seq<string>, n: nat)
    requires ValidSources(x) && n <= |names|
    ensures var a, out := NamesRun(x, Blank(r), names, n), NamesRun(x, r, names, n);
            Joins(r, a, out) && out.s.cur == a.s.cur && out.def == r.def
    decreases n
  {
    hide ValidSources, NameRun;
    if n == 0 {
      assert r.s.files + [] == r.s.files && r.docDirs + [] == r.docDirs;
    } else {
      NamesLocal(x, r, names, n - 1);
      var a, out := NamesRun(x, Blank(r), names, n - 1), NamesRun(x, r, names, n - 1);
      NameLocal(x, a, names[n - 1], n == 1);
      NameLocal(x, out, names[n - 1], n == 1);
      assert Blank(a) == Blank(out);
    }
  }

  /** What a line adds by itself, with the defaults that the lines before it leave. */
  ghost function Alone(x: Sources, def: FileEntry, line: string): Run
    requires ValidSources(x)
  {
    LineRun(x, Run(State([], false, false, START_ENTRY), def, []), line)
  }

  lemma LineLocal(x: Sources, r: Run, line: string)
    requires ValidSources(x)
    ensures Joins(r, Alone(x, r.def, line), LineRun(x, r, line))
  {
    hide ValidSources, NamesRun, ParseText, SkipSpace;
    assert r.s.files + [] == r.s.files && r.docDirs + [] == r.docDirs;
    var text := SkipSpace(line);
    if text != "" && ParseText(text, r.def).Some? {
      var p := ParseText(text, r.def).value;
      NamesLocal(x, Run(r.s.(cur := p.cur), p.def, r.docDirs), p.names, |p.names|);
      NamesLocal(x, Run(State([], false, false, p.cur), p.def, []), p.names, |p.names|);
    }
  }

  /** The defaults in front of line n. */
  ghost function DefAt(x: Sources, r: Run, lines: seq<string>, n: nat): FileEntry
    requires ValidSources(x) && n <= |lines|
  {
    ListRun(x, r, lines, n).def
  }

  /** The records of the first n lines, each taken by itself, one after the other. */
  ghost function Records(x: Sources, r: Run, lines: seq<string>, n: nat): seq<FileRec>
    requires ValidSources(x) && n <= |lines|
  {
    if n == 0 then []
    else Records(x, r, lines, n - 1) + Alone(x, DefAt(x, r, lines, n - 1), lines[n - 1]).s.files
  }

  /**
   The list is made of what each line adds by itself, in order, and fails if and only if one of them does: all
   that a line passes on to the lines behind it are the defaults.
  */
  lemma {:induction false} RunParts(x: Sources, r: Run, lines: seq<string>, n: nat)
    requires ValidSources(x) && n <= |lines|
    ensures var out := ListRun(x, r, lines, n);
            && out.s.files == r.s.files + Records(x, r, lines, n)
            && (out.s.failed <==> r.s.failed ||
                                  exists i :: 0 <= i < n && Alone(x, DefAt(x, r, lines, i), lines[i]).s.failed)
    decreases n
  {
    hide ValidSources, LineRun;
    if n > 0 {
      RunParts(x, r, lines, n - 1);
      LineLocal(x, ListRun(x, r, lines, n - 1), lines[n - 1]);
    }
  }

  // ----- which lists are accepted

  /** One name is added without a failure. */
  ghost predicate NameFine(x: Sources, def: FileEntry, cur: FileEntry, name: string) {
    var c, e := ContextOf(x, def), x.expand(name);
    if Has(cur.attrFlags, 0x2_0000) then true
    else if Has(cur.attrFlags, 0x800) then
      x.key(name) && ("/" <= name ==> !Refused(c, cur, e.path) && !BreaksOff(c, cur, e.path))
    else
      var cur' := Slashed(cur.(isDir := if Has(cur.attrFlags, 0x4_0000) then 1 else cur.isDir), name);
      && "/" <= name && !(e.glob && cur'.dev.Some?)
      && if e.glob && e.matches != [] then Passes(c, cur', e.matches)
         else
           var p := if cur'.isDir != 0 then e.path + "/" else e.path;
           !Refused(c, cur', p) && !BreaksOff(c, cur', p)
  }

  /**
   A line is accepted if it is blank, or if it parses and has at most one name, which can be added; or if it is
   of special documentation, with relative names only and no other attribute.
  */
  ghost predicate LineFine(x: Sources, def: FileEntry, line: string) {
    var text := SkipSpace(line);
    text != "" ==>
      && ParseText(text, def).Some?
      && var p := ParseText(text, def).value;
         if Has(p.cur.attrFlags, 0x8_0000) then
           p.names != [] ==> And(p.cur.attrFlags, !0x8_0000) in [0x2, 0x80] && forall n | n in p.names :: !("/" <= n)
         else |p.names| <= 1 && forall n | n in p.names :: NameFine(x, p.def, p.cur, n)
  }

  lemma NameVerdict(x: Sources, r: Run, name: string)
    requires ValidSources(x) && !r.s.failed && !Has(r.s.cur.attrFlags, 0x8_0000)
    ensures !NameRun(x, r, name, true).s.failed <==> NameFine(x, r.def, r.s.cur, name)
  {
    hide AddState, BinaryState, ForSpecial, Has, Refused, BreaksOff, Passes, Slashed;
    var cur, e, c := r.s.cur, x.expand(name), ContextOf(x, r.def);
    assert ValidExpansion(e);
    Outcome(c, r.s, e.path);
    BinaryVerdict(c, r.s.(cur := Explicit(cur)), name, e.path, e.glob, e.matches);
  }

  /** What an accepted line adds: records, or a directory of documentation, or nothing. */
  lemma LineAdds(x: Sources, def: FileEntry, line: string)
    requires ValidSources(x) && LineFine(x, def, line) && SkipSpace(line) != ""
    ensures var p := ParseText(SkipSpace(line), def).value;
            var out, flags := Alone(x, def, line), p.cur.attrFlags;
            if p.names == [] || Has(flags, 0x8_0000) then out.s.files == [] && out.docDirs == []
            else
              var name := p.names[0];
              var c, e := ContextOf(x, p.def), x.expand(name);
              if Has(flags, 0x2_0000) then out.s.files == [] && out.docDirs == [name]
              else if Has(flags, 0x800) then
                && out.docDirs == []
                && out.s.files ==
                   if "/" <= name then AddState(c, State([], false, false, p.cur), e.path).0.files else []
              else
                var cur := p.cur.(isDir := if Has(flags, 0x4_0000) then 1 else p.cur.isDir);
                && out.docDirs == []
                && out.s.files ==
                   BinaryState(c, State([], false, false, cur), name, e.path, e.glob, e.matches).0.files
  {
    hide ParseText, SkipSpace, Has, And, ValidFs, AddState, BinaryState, NameFine, ForSpecial;
    var p := ParseText(SkipSpace(line), def).value;
    var r := Run(State([], false, false, p.cur), p.def, []);
    assert Alone(x, def, line) == NamesRun(x, r, p.names, |p.names|);
    if Has(p.cur.attrFlags, 0x8_0000) {
      SpecialNothing(x, r, p.names, |p.names|);
    } else if p.names == [] {
      assert NamesRun(x, r, p.names, 0) == r;
    } else {
      assert ValidExpansion(x.expand(p.names[0])) && [] + [p.names[0]] == [p.names[0]];
      assert NamesRun(x, r, p.names, 0) == r;
      assert NamesRun(x, r, p.names, 1) == NameRun(x, r, p.names[0], true);
      KeyNeeded(x, p.def, p.cur, p.names[0]);
    }
  }

  lemma KeyNeeded(x: Sources, def: FileEntry, cur: FileEntry, name: string)
    ensures NameFine(x, def, cur, name) && Has(cur.attrFlags, 0x800) ==> Has(cur.attrFlags, 0x2_0000) || x.key(name)
  {
    hide Has, Refused, BreaksOff, Passes, Slashed;
  }

  lemma {:induction false} SpecialNothing(x: Sources, r: Run, names: seq<string>, n: nat)
    requires ValidSources(x) && n <= |names| && Has(r.s.cur.attrFlags, 0x8_0000)
    ensures var out := NamesRun(x, r, names, n);
            out.s.files == r.s.files && out.docDirs == r.docDirs && out.s.cur == r.s.cur
    decreases n
  {
    hide ValidFs, ForSpecial, Has, AddState, BinaryState;
    if n > 0 {
      SpecialNothing(x, r, names, n - 1);
      assert ValidExpansion(x.expand(names[n - 1]));
    }
  }

  lemma {:induction false} AllKeepFlags(c: Context, s: State, ok: bool, paths: seq<string>)
    requires ValidFs(c.fs) && forall p | p in paths :: NoNul(p)
    ensures AddAll(c, s, ok, paths).0.cur.attrFlags == s.cur.attrFlags
    decreases |paths|
  {
    hide ValidFs, AddState, Refused, BreaksOff, SourceOf;
    if paths != [] {
      assert paths[0] in paths && forall p | p in paths[1..] :: p in paths;
      Outcome(c, s, paths[0]);
      var (s', ok') := AddState(c, s, paths[0]);
      AllKeepFlags(c, s', ok', paths[1..]);
    }
  }

  lemma BinaryKeepsFlags(c: Context, s: State, fileName: string, e: Expansion)
    requires ValidFs(c.fs) && ValidExpansion(e)
    ensures BinaryState(c, s, fileName, e.path, e.glob, e.matches).0.cur.attrFlags == s.cur.attrFlags
  {
    hide ValidFs, AddState, AddAll, Refused, BreaksOff, SourceOf;
    var s1 := s.(cur := Slashed(s.cur, fileName));
    if e.glob && e.matches != [] {
      AllKeepFlags(c, s1, true, e.matches);
    } else {
      Outcome(c, s1, if s1.cur.isDir != 0 then e.path + "/" else e.path);
    }
  }

  lemma NameKeepsFlags(x: Sources, r: Run, name: string, first: bool)
    requires ValidSources(x)
    ensures NameRun(x, r, name, first).s.cur.attrFlags == r.s.cur.attrFlags
  {
    hide AddState, BinaryState, ForSpecial, Has, ValidFs, Refused, BreaksOff, SourceOf;
    var cur, e, c := r.s.cur, x.expand(name), ContextOf(x, r.def);
    assert ValidExpansion(e);
    if Has(cur.attrFlags, RPMFILE_PUBKEY) {
      Outcome(c, r.s, e.path);
    } else {
      BinaryKeepsFlags(c, r.s.(cur := Explicit(cur)), name, e);
    }
  }

  lemma {:induction false} NamesKeepFlags(x: Sources, r: Run, names: seq<string>, n: nat)
    requires ValidSources(x) && n <= |names|
    ensures NamesRun(x, r, names, n).s.cur.attrFlags == r.s.cur.attrFlags
    decreases n
  {
    hide ValidSources, NameRun;
    if n > 0 {
      NamesKeepFlags(x, r, names, n - 1);
      NameKeepsFlags(x, NamesRun(x, r, names, n - 1), names[n - 1], n == 1);
    }
  }

  lemma NameFails(x: Sources, r: Run, name: string, first: bool)
    requires ValidSources(x)
    ensures r.s.failed ==> NameRun(x, r, name, first).s.failed
    ensures Has(r.s.cur.attrFlags, 0x8_0000) ==>
              (NameRun(x, r, name, first).s.failed <==> r.s.failed || !ForSpecial(r.s.cur.attrFlags, name))
    ensures !Has(r.s.cur.attrFlags, 0x8_0000) && !first ==> NameRun(x, r, name, first).s.failed
  {
    hide AddState, BinaryState, ForSpecial, Has, ValidFs;
    NameLocal(x, r, name, first);
  }

  lemma {:induction false} SpecialVerdict(x: Sources, r: Run, names: seq<string>, n: nat)
    requires ValidSources(x) && n <= |names| && Has(r.s.cur.attrFlags, 0x8_0000)
    ensures NamesRun(x, r, names, n).s.failed <==>
            r.s.failed || exists i :: 0 <= i < n && !ForSpecial(r.s.cur.attrFlags, names[i])
    decreases n
  {
    hide ValidSources, NameRun, ForSpecial, Has;
    if n > 0 {
      SpecialVerdict(x, r, names, n - 1);
      NamesKeepFlags(x, r, names, n - 1);
      NameFails(x, NamesRun(x, r, names, n - 1), names[n - 1], n == 1);
    }
  }

  lemma {:induction false} SecondName(x: Sources, r: Run, names: seq<string>, n: nat)
    requires ValidSources(x) && 2 <= n <= |names| && !Has(r.s.cur.attrFlags, 0x8_0000)
    ensures NamesRun(x, r, names, n).s.failed
    decreases n
  {
    hide ValidSources, NameRun, Has;
    NamesKeepFlags(x, r, names, n - 1);
    NameFails(x, NamesRun(x, r, names, n - 1), names[n - 1], false);
    if n > 2 {
      SecondName(x, r, names, n - 1);
    }
  }

  lemma AllSpecial(flags: bv32, names: seq<string>)
    ensures (forall i | 0 <= i < |names| :: ForSpecial(flags, names[i])) <==>
            (names != [] ==> And(flags, !0x8_0000) in [0x2, 0x80] && forall n | n in names :: !("/" <= n))
  {
    hide And;
    var fits := And(flags, !0x8_0000) in [0x2, 0x80];
    forall i | 0 <= i < |names| ensures ForSpecial(flags, names[i]) <==> fits && !("/" <= names[i]) {
    }
    if names != [] && forall i | 0 <= i < |names| :: ForSpecial(flags, names[i]) {
      assert ForSpecial(flags, names[0]);
      forall n | n in names ensures !("/" <= n) {
        var i :| 0 <= i < |names| && names[i] == n;
        assert ForSpecial(flags, names[i]);
      }
    }
    if fits && forall n | n in names :: !("/" <= n) {
      forall i | 0 <= i < |names| ensures ForSpecial(flags, names[i]) {
        assert names[i] in names;
      }
    }
  }

  lemma LineVerdict(x: Sources, def: FileEntry, line: string)
    requires ValidSources(x)
    ensures !Alone(x, def, line).s.failed <==> LineFine(x, def, line)
  {
    hide ValidSources, NamesRun, ParseText, SkipSpace, ForSpecial, NameFine, Has, And;
    var text := SkipSpace(line);
    if text != "" && ParseText(text, def).Some? {
      var p := ParseText(text, def).value;
      var r, n := Run(State([], false, false, p.cur), p.def, []), |p.names|;
      if Has(p.cur.attrFlags, 0x8_0000) {
        SpecialVerdict(x, r, p.names, n);
        AllSpecial(p.cur.attrFlags, p.names);
      } else if n >= 2 {
        SecondName(x, r, p.names, n);
      } else {
        OneName(x, r, p.names);
      }
    }
  }

  lemma OneName(x: Sources, r: Run, names: seq<string>)
    requires ValidSources(x) && !r.s.failed && !Has(r.s.cur.attrFlags, 0x8_0000) && |names| <= 1
    ensures !NamesRun(x, r, names, |names|).s.failed <==> forall n | n in names :: NameFine(x, r.def, r.s.cur, n)
  {
    hide ValidSources, NameRun, NameFine, Has;
    if names != [] {
      NameVerdict(x, r, names[0]);
      assert NamesRun(x, r, names, 0) == r;
    }
  }

  /**
   A list is accepted if and only if each of its lines is, with the defaults that the lines in front of it leave:
   what they add does not matter.
  */
  lemma RunVerdict(x: Sources, docDirs: seq<string>, lines: seq<string>)
    requires ValidSources(x)
    ensures !ListRun(x, Start(docDirs), lines, |lines|).s.failed <==>
            forall i | 0 <= i < |lines| :: LineFine(x, DefAt(x, Start(docDirs), lines, i), lines[i])
  {
    hide ValidSources, LineFine, Alone, ListRun;
    RunParts(x, Start(docDirs), lines, |lines|);
    forall i | 0 <= i < |lines|
      ensures LineFine(x, DefAt(x, Start(docDirs), lines, i), lines[i]) <==>
              !Alone(x, DefAt(x, Start(docDirs), lines, i), lines[i]).s.failed
    {
      LineVerdict(x, DefAt(x, Start(docDirs), lines, i), lines[i]);
    }
  }

  /** What a line passes on: the defaults that parsing it leaves. */
  lemma DefNext(x: Sources, r: Run, lines: seq<string>, n: nat)
    requires ValidSources(x) && n < |lines|
    ensures var text, def := SkipSpace(lines[n]), DefAt(x, r, lines, n);
            DefAt(x, r, lines, n + 1) ==
            if text == "" || ParseText(text, def).None? then def else ParseText(text, def).value.def
  {
    hide ValidSources, NamesRun, ParseText, SkipSpace;
    var s := ListRun(x, r, lines, n);
    var text := SkipSpace(lines[n]);
    if text != "" && ParseText(text, s.def).Some? {
      var p := ParseText(text, s.def).value;
      NamesLocal(x, Run(s.s.(cur := p.cur), p.def, s.docDirs), p.names, |p.names|);
    }
  }

  /** Before any line changes the defaults, root owns what is listed and everything is verified. */
  lemma RootByDefault(docDirs: seq<string>, s: LinePrint.LineSpec)
    requires LinePrint.ValidSpec(s)
    ensures var r := ParseText(LinePrint.PrintLine(s), Start(docDirs).def);
            && r.Some? && (s.verify.None? ==> r.value.cur.verify == 0xFFFF_FFFF)
            && r.value.def.ar == AttrRec(false, false, Some("root"), Some("root"), 0, 0)
  {
    hide ParseText, LinePrint.PrintLine, LinePrint.ValidSpec;
    LineRules.LineSpelled(s, Start(docDirs).def);
  }

  // ----- what the header may rely on

  /** Linked records carry the size and links of an inode of the tree, and the flag for large files is right. */
  ghost predicate Sound(x: Sources, s: State) {
    AllFromTree(x.fs, s.files) && RecordRules.LargeFits(s)
  }

  lemma SoundName(x: Sources, r: Run, name: string, first: bool)
    requires ValidSources(x) && Sound(x, r.s)
    ensures Sound(x, NameRun(x, r, name, first).s)
  {
    hide AddState, AddAll, ForSpecial, Explicit, Has, ValidFs, AllFromTree, RecordRules.TooLarge;
    var cur, e, c := r.s.cur, x.expand(name), ContextOf(x, r.def);
    assert ValidExpansion(e);
    var s := r.s.(cur := Explicit(cur));
    AddedFromTree(c, r.s, e.path);
    RecordRules.LargeKept(c, r.s, e.path);
    RecordRules.LargeName(c, s, name, e.path, e.glob, e.matches);
    NameFromTree(c, s, name, e);
  }

  lemma NameFromTree(c: Context, s: State, name: string, e: Expansion)
    requires ValidFs(c.fs) && ValidExpansion(e) && AllFromTree(c.fs, s.files)
    ensures AllFromTree(c.fs, BinaryState(c, s, name, e.path, e.glob, e.matches).0.files)
  {
    hide ValidFs, AddState, AddAll, AllFromTree;
    var s1 := s.(cur := Slashed(s.cur, name));
    AllAddedFromTree(c, s1, true, e.matches);
    AddedFromTree(c, s1, if s1.cur.isDir != 0 then e.path + "/" else e.path);
  }

  lemma {:induction false} SoundNames(x: Sources, r: Run, names: seq<string>, n: nat)
    requires ValidSources(x) && Sound(x, r.s) && n <= |names|
    ensures Sound(x, NamesRun(x, r, names, n).s)
    decreases n
  {
    hide ValidSources, Sound, NameRun;
    if n > 0 {
      SoundNames(x, r, names, n - 1);
      SoundName(x, NamesRun(x, r, names, n - 1), names[n - 1], n == 1);
    }
  }

  lemma {:induction false} SoundRun(x: Sources, docDirs: seq<string>, lines: seq<string>, n: nat)
    requires ValidSources(x) && n <= |lines|
    ensures Sound(x, ListRun(x, Start(docDirs), lines, n).s)
    decreases n
  {
    hide ValidSources, NamesRun, ParseText, SkipSpace;
    if n > 0 {
      SoundRun(x, docDirs, lines, n - 1);
      var r := ListRun(x, Start(docDirs), lines, n - 1);
      var text := SkipSpace(lines[n - 1]);
      if text != "" && ParseText(text, r.def).Some? {
        var p := ParseText(text, r.def).value;
        SoundNames(x, Run(r.s.(cur := p.cur), p.def, r.docDirs), p.names, |p.names|);
      }
    }
  }

  /**
   Whatever the list says, and however its records are sorted: the flag for large files covers them all, the
   links of a file agree in size, and the total in the header is right if and only if the first link of each
   linked file that is packed and not empty is packed itself.
  */
  lemma RunTotal(x: Sources, docDirs: seq<string>, lines: seq<string>, recs: seq<FileRec>)
    requires ValidSources(x) && HeaderSpec.SortedPaths(recs)
    requires multiset(recs) == multiset(ListRun(x, Start(docDirs), lines, |lines|).s.files)
    ensures AnyLarge(recs) ==> ListRun(x, Start(docDirs), lines, |lines|).s.large
    ensures HeaderInodes.SizesAgree(recs)
    ensures HeaderSpec.Total(recs, |recs|) == HeaderInodes.Sum(HeaderInodes.PackedSizes(recs, |recs|, false)) <==>
            forall i | 0 <= i < |recs| && HeaderInodes.Packed(recs, i) && recs[i].st.nlink > 1 && recs[i].st.size > 0 ::
              HeaderSpec.Emitted(recs, HeaderSpec.FirstLink(recs, i, 0))
  {
    hide ValidSources, ListRun, FromTree, Large, RecordRules.TooLarge, HeaderSpec.Total, HeaderSpec.SortedPaths,
         HeaderSpec.Emitted, HeaderSpec.FirstLink, HeaderInodes.Packed, HeaderInodes.PackedSizes, HeaderInodes.Sum,
         HeaderInodes.SizesAgree;
    var s := ListRun(x, Start(docDirs), lines, |lines|).s;
    SoundRun(x, docDirs, lines, |lines|);
    forall r ensures r in recs <==> r in s.files {
      assert r in multiset(recs) <==> r in multiset(s.files);
    }
    RecordRules.AllLarge(recs);
    HeaderInodes.TreeAgrees(x.fs, recs);
    HeaderInodes.TotalIff(recs);
  }

  // ----- the loop over the lines

  /** The list object is in the state of the run, or both have failed. */
  ghost predicate Follows(x: Sources, fl: Files.FileList, docDirs: seq<string>, r: Run)
    reads fl
  {
    && fl.fs == x.fs && fl.env == x.env && fl.buildRoot == x.buildRoot
    && (fl.processingFailed <==> r.s.failed)
    && (!r.s.failed ==> fl.Abs() == r.s && fl.def == r.def && docDirs == r.docDirs)
  }

  /** The body of the loop over the names of a line. */
  method ProcessName(x: Sources, fl: Files.FileList, docDirs: seq<string>, name: string, first: bool, ghost r: Run)
    returns (docDirs': seq<string>)
    requires ValidSources(x) && Follows(x, fl, docDirs, r)
    modifies fl
    ensures Follows(x, fl, docDirs', NameRun(x, r, name, first))
  {
    hide AddState, BinaryState, Has, ValidFs, And;
    ghost var out := NameRun(x, r, name, first);
    NameFails(x, r, name, first);
    docDirs' := docDirs;
    var flags := fl.cur.attrFlags;
    var e := x.expand(name);
    assert ValidExpansion(e);
    AddStateLocal(fl.Ctx(), fl.Abs(), e.path);
    if Has(flags, RPMFILE_SPECIALDIR) {
      if !(And(flags, !RPMFILE_SPECIALDIR) in [RPMFILE_DOC, RPMFILE_LICENSE]) || "/" <= name {
        fl.processingFailed := true;
      }
    } else if !first {
      fl.processingFailed := true;
    } else if Has(flags, RPMFILE_DOCDIR) {
      docDirs' := docDirs + [name];
    } else if Has(flags, RPMFILE_PUBKEY) {
      var ok := x.key(name);
      if ok && "/" <= name {
        ok := fl.AddFile(e.path, None);
      }
      if !ok {
        fl.processingFailed := true;
      }
    } else {
      if Has(flags, RPMFILE_DIR) {
        fl.cur := fl.cur.(isDir := 1);
      }
      BinaryLocal(fl.Ctx(), fl.Abs(), name, e);
      var ok := fl.ProcessBinaryFile(name, e.path, e.glob, e.matches);
    }
  }

  /** The loop over the names of a line. */
  method ProcessNames(x: Sources, fl: Files.FileList, docDirs: seq<string>, names: seq<string>, ghost r: Run)
    returns (docDirs': seq<string>)
    requires ValidSources(x) && Follows(x, fl, docDirs, r)
    modifies fl
    ensures Follows(x, fl, docDirs', NamesRun(x, r, names, |names|))
  {
    hide ValidSources, NameRun, Follows;
    docDirs' := docDirs;
    var fn := 0;
    while fn < |names|
      invariant 0 <= fn <= |names| && Follows(x, fl, docDirs', NamesRun(x, r, names, fn))
    {
      docDirs' := ProcessName(x, fl, docDirs', names[fn], fn == 0, NamesRun(x, r, names, fn));
      fn := fn + 1;
    }
  }

  /** The line in a buffer of its own. */
  method Buffer(text: string) returns (buf: array<char>)
    requires NoNul(text)
    ensures fresh(buf) && IsLine(buf[..]) && CStr(buf[..]) == text
  {
    buf := new char[|text| + 1](i requires 0 <= i <= |text| => if i < |text| then text[i] else NUL);
    assert buf[..][..|text|] == text;
    CStrIs(buf[..], text);
  }

  /** A line that parseForAttr does not run over. */
  ghost predicate Parsable(line: string) {
    NoNul(line) && AttrsClosed(SkipSpace(line))
  }

  lemma {:induction false} SkipKeeps(s: string)
    requires NoNul(s)
    ensures NoNul(SkipSpace(s))
  {
    if s != "" {
      SkipKeeps(s[1..]);
    }
  }

  /** The body of the loop over the lines. */
  method ProcessLine(x: Sources, fl: Files.FileList, docDirs: seq<string>, line: string, ghost r: Run)
    returns (docDirs': seq<string>)
    requires ValidSources(x) && Follows(x, fl, docDirs, r) && Parsable(line)
    modifies fl
    ensures Follows(x, fl, docDirs', LineRun(x, r, line))
  {
    hide ValidSources, ParseText, SkipSpace, AttrsClosed, NamesRun, IsLine, CStr, NoNul;
    docDirs' := docDirs;
    var s := SkipSpace(line);
    if s == "" {
      return;
    }
    SkipKeeps(line);
    LineLocal(x, r, line);
    var buf := Buffer(s);
    var ok, parsed := ParseLine(buf, fl.def);
    if !ok {
      fl.processingFailed := true;
      return;
    }
    fl.cur, fl.def := parsed.cur, parsed.def;
    ghost var r' := Run(r.s.(cur := parsed.cur), parsed.def, r.docDirs);
    NamesLocal(x, r', parsed.names, |parsed.names|);
    docDirs' := ProcessNames(x, fl, docDirs, parsed.names, r');
  }

  /**
   processPackageFiles up to the header: the result is that of the run, and so are the list and the directories of
   documentation if it is accepted.
  */
  method ProcessPackageFiles(x: Sources, docs: seq<string>, fileList: seq<string>)
    returns (ok: bool, fl: Files.FileList, docDirs: seq<string>)
    requires ValidSources(x) && forall line | line in fileList :: Parsable(line)
    ensures fresh(fl)
    ensures ok <==> !ListRun(x, Start(docs), fileList, |fileList|).s.failed
    ensures ok ==> var out := ListRun(x, Start(docs), fileList, |fileList|); fl.Abs() == out.s && docDirs == out.docDirs
  {
    hide ValidSources, LineRun, Parsable;
    fl := new Files.FileList(x.fs, x.env, x.buildRoot, START_ENTRY, START_ENTRY);
    docDirs := docs;
    var i := 0;
    while i < |fileList|
      invariant 0 <= i <= |fileList| && fresh(fl)
      invariant Follows(x, fl, docDirs, ListRun(x, Start(docs), fileList, i))
    {
      docDirs := ProcessLine(x, fl, docDirs, fileList[i], ListRun(x, Start(docs), fileList, i));
      i := i + 1;
    }
    ok := !fl.processingFailed;
  }
}
