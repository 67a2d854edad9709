/** Documentation files: what becomes of a name behind %doc, relative or absolute. */
module SpecialDocs {
  import opened CStrings
  import opened FileSystem
  import opened Numbers
  import opened Flags
  import opened WalkSpec
  import opened Manifest
  import opened ManifestProofs
  import opened LineText
  import opened LineParser
  import opened PackageRun
  import LinePrint
  import LineProofs
  import LineRules
  import RecordRules

  // ----- the line

  /** A name without white space, percent signs and quotes. */
  ghost predicate PlainName(name: string) {
    name != "" && forall c | c in name :: c !in ['%', '"'] && !IsSpace(c)
  }

  function DocLine(name: string): string {
    "%doc" + " " + name
  }

  lemma DocCut(name: string, w: string)
    requires PlainName(name) && |w| >= 3 && w[0] == '%' && (w[1] != 'd' || w[2] != 'o')
    ensures CutDirective(DocLine(name), w) == Absent
  {
    hide FindStr, CutDirective;
    var s := DocLine(name);
    assert s[1] == 'd' && s[2] == 'o';
    assert s[1..] == "doc " + name;
    LineProofs.FindNone(s[1..], w);
    LineProofs.FindLater(s, w);
    CutNone(s, w);
  }

  /** The flags of %doc, and that of a special directory for a relative name. */
  function DocFlags(name: string): bv32
    requires name != ""
  {
    if name[0] == '/' then 0x2 else 0x8_0002
  }

  lemma DocTokens(name: string)
    requires PlainName(name)
    ensures SimpleTokens(DocLine(name), Simple(0, [], true)) == Simple(DocFlags(name), [name], true)
  {
    hide NextToken, Flag, Plus, VirtualAttrs, RelativeAllowed, Special;
    assert name[0] in name;
    LineRules.TokenEnds("%doc", ' ', name);
    LinePrint.TokenLast(0, name);
    assert Spaces(0) + name == name;
    LineRules.AttributeFlagIs("%doc");
    LineRules.AttributeFlagIs(name);
    DocBits();
    var r0, r1, r2 := Simple(0, [], true), Simple(0x2, [], true), Simple(DocFlags(name), [name], true);
    assert SimpleToken(r0, "%doc") == r1 && SimpleToken(r1, name) == r2;
    assert SimpleTokens(DocLine(name), r0) == SimpleTokens(name, r1) == SimpleTokens("", r2);
    LinePrint.TokensEnd(r2);
  }

  lemma DocBits()
    ensures Plus(0, 0x2) == 0x2 && Plus(0x2, RPMFILE_SPECIALDIR) == 0x8_0002
    ensures RelativeAllowed(0x2) && Special(0x2)
    ensures Has(0x8_0002, RPMFILE_SPECIALDIR) && And(0x8_0002, !RPMFILE_SPECIALDIR) == RPMFILE_DOC
    ensures !Has(0x2, RPMFILE_SPECIALDIR) && !Has(0x2, RPMFILE_DOCDIR) && !Has(0x2, RPMFILE_PUBKEY)
    ensures !Has(0x2, 0x1_0000) && !Has(0x2, RPMFILE_DIR)
  {
  }

  lemma DocParsed(name: string, def: FileEntry)
    requires PlainName(name)
    ensures ParseText(DocLine(name), def) == Some(Parsed(StartEntry(def).(attrFlags := DocFlags(name)), def, [name]))
  {
    hide CutDirective, SimpleTokens, IsSpace;
    assert "%verify"[1] == 'v' && "%defverify"[2] == 'e' && "%attr"[1] == 'a' && "%defattr"[2] == 'e';
    assert "%config"[1] == 'c' && "%lang"[1] == 'l';
    DocCut(name, "%verify");
    DocCut(name, "%defverify");
    DocCut(name, "%attr");
    DocCut(name, "%defattr");
    DocCut(name, "%config");
    DocCut(name, "%lang");
    DocTokens(name);
  }

  // ----- an accepted path adds something

  lemma RecursedSome(c: Context, s: State, p: string)
    requires ValidFs(c.fs) && NoNul(p) && Recursed(c, s, p).1 && c.buildRoot <= p
    requires LStat(c.fs, p).Some? && IsDir(c.fs, LStat(c.fs, p).value)
    ensures |Recursed(c, s, p).0.files| > |s.files|
  {
    hide ValidFs, VisitAll, Listing, Lookup, RootItem, WalkSpec.Inside, Record, Whole, Reported, WithinBuffer;
    assert Openable(p);
    RootDir(c.fs, p);
    FirstVisit(c.fs, p);
    var vs := Reported(c.fs, p).0;
    assert Fine(ActOn(c, s.cur, vs[0])) && ActOn(c, s.cur, vs[0]).Take?;
  }

  lemma FirstVisit(fs: FileSys, p: string)
    requires ValidFs(fs) && Openable(p)
    ensures Reported(fs, p).0 != [] && Reported(fs, p).0[0] == Pre(RootItem(fs, RECURSE_OPTIONS, p))
  {
    hide ValidFs, VisitAll, Listing, Lookup, RootItem, WalkSpec.Inside, Reported;
    ReportedIs(fs, p);
    WholeIsTree(fs, p);
    assert WithinBuffer(fs, p)[0] == Pre(RootItem(fs, RECURSE_OPTIONS, p));
  }

  lemma AddedSome(c: Context, s: State, path: string)
    requires ValidFs(c.fs) && NoNul(path) && AddState(c, s, path).1 && !Has(s.cur.attrFlags, 0x1_0000)
    ensures |AddState(c, s, path).0.files| > |s.files|
  {
    hide ValidFs, AddState, Recursed, Has, RecordRules.Known, RecordRules.RecordIs, LStat;
    var p := Chop(path);
    RecordRules.PathAdded(c, s, path);
    if c.buildRoot <= p && s.cur.isDir != 1 && RecordRules.ForDir(c, s.cur, p) && LStat(c.fs, p).Some? {
      RecursedSome(c, s, p);
    }
  }

  lemma BinarySome(c: Context, s: State, fileName: string, e: Expansion)
    requires ValidFs(c.fs) && ValidExpansion(e) && !Has(s.cur.attrFlags, 0x1_0000)
    requires BinaryState(c, s, fileName, e.path, e.glob, e.matches).1
    ensures |BinaryState(c, s, fileName, e.path, e.glob, e.matches).0.files| > |s.files|
  {
    hide ValidFs, AddState, AddAll, Has;
    var s1 := s.(cur := Slashed(s.cur, fileName));
    if e.glob && e.matches != [] {
      LastSome(c, s1, e.matches);
    } else {
      AddedSome(c, s1, if s1.cur.isDir != 0 then e.path + "/" else e.path);
    }
  }

  lemma LastSome(c: Context, s: State, paths: seq<string>)
    requires ValidFs(c.fs) && paths != [] && (forall p | p in paths :: NoNul(p)) && !Has(s.cur.attrFlags, 0x1_0000)
    requires AddAll(c, s, true, paths).1
    ensures |AddAll(c, s, true, paths).0.files| > |s.files|
  {
    hide ValidFs, AddState, AddAll, Has, NoNul;
    var n := |paths| - 1;
    var front, last := paths[..n], paths[n];
    assert paths == front + [last] && last in paths && forall p | p in front :: p in paths;
    RecordRules.GlobCat(c, s, true, front, [last]);
    AddAllLocal(c, s, true, front);
    AllKeepFlags(c, s, true, front);
    AddedSome(c, AddAll(c, s, true, front).0, last);
  }

  // ----- %doc

  /**
   A name behind %doc that is accepted is added to the list if and only if it is absolute. Relative names are
   collected as special documentation, and dropped at the end.
  */
  lemma DocAdded(x: Sources, def: FileEntry, name: string)
    requires ValidSources(x) && PlainName(name) && LineFine(x, def, DocLine(name))
    ensures Alone(x, def, DocLine(name)).s.files != [] <==> name[0] == '/'
  {
    hide ValidSources, ParseText, Has, And, StartEntry, AddState, BinaryState, LineFine, Alone;
    LineVerdict(x, def, DocLine(name));
    DocAlone(x, def, name);
    if name[0] == '/' {
      DocBits();
      AbsoluteSome(x, def, name);
    }
  }

  /** The line "%doc README" is accepted by every list, and README is not in the package. */
  lemma ReadmeDropped(x: Sources, def: FileEntry)
    requires ValidSources(x)
    ensures LineFine(x, def, "%doc README") && Alone(x, def, "%doc README").s.files == []
  {
    hide ValidSources, ParseText, StartEntry, LineFine, Alone;
    assert DocLine("README") == "%doc README";
    assert PlainName("README");
    DocAlone(x, def, "README");
    LineVerdict(x, def, "%doc README");
  }

  lemma DocAlone(x: Sources, def: FileEntry, name: string)
    requires ValidSources(x) && PlainName(name)
    ensures var r := Run(State([], false, false, StartEntry(def).(attrFlags := DocFlags(name))), def, []);
            Alone(x, def, DocLine(name)) == if name[0] == '/' then NameRun(x, r, name, true) else r
  {
    hide ValidSources, ParseText, Has, And, StartEntry, AddState, BinaryState;
    var s := DocLine(name);
    assert s[0] == '%' && SkipSpace(s) == s;
    DocParsed(name, def);
    DocBits();
    var r := Run(State([], false, false, StartEntry(def).(attrFlags := DocFlags(name))), def, []);
    assert NamesRun(x, r, [name], 0) == r;
  }

  lemma AbsoluteSome(x: Sources, def: FileEntry, name: string)
    requires ValidSources(x) && name != "" && name[0] == '/'
    requires !Has(0x2, RPMFILE_SPECIALDIR) && !Has(0x2, RPMFILE_DOCDIR) && !Has(0x2, RPMFILE_PUBKEY)
    requires !Has(0x2, 0x1_0000) && !Has(0x2, RPMFILE_DIR)
    ensures var r := Run(State([], false, false, StartEntry(def).(attrFlags := 0x2)), def, []);
            !NameRun(x, r, name, true).s.failed ==> NameRun(x, r, name, true).s.files != []
  {
    hide ValidFs, Has, And, StartEntry, AddState, BinaryState;
    var r := Run(State([], false, false, StartEntry(def).(attrFlags := 0x2)), def, []);
    var c, e := ContextOf(x, def), x.expand(name);
    assert ValidExpansion(e);
    if BinaryState(c, r.s, name, e.path, e.glob, e.matches).1 {
      BinarySome(c, r.s, name, e);
    }
  }
}
