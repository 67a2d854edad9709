/** Lines that set the defaults, and what the lines behind them take over. */
module LineDefaults {
  import opened FileSystem
  import opened Manifest
  import opened Flags
  import opened LineText
  import opened LineParser
  import opened LineProofs
  import opened LineFlags
  import opened LinePrint

  // ----- a line of one directive

  function OneLine(word: string, args: string): string {
    "%" + word + "(" + args + ")"
  }

  lemma CutOnly(word: string, args: string)
    requires PlainWord(word) && PlainArgs(args)
    ensures var s := OneLine(word, args);
            CutDirective(s, "%" + word) == Closed(0, |word| + 1, |s| - 1, Spaces(|s|), args)
  {
    hide FindStr, CloseAt, PlainChar, SkipSpaceAt, Spaces, Blanked, CutDirective;
    var s, w := OneLine(word, args), "%" + word;
    var o := |w|;
    var c := o + 1 + |args|;
    assert s == w + ("(" + args + ")");
    assert s[o..] == "(" + args + ")" && s[o + 1..c] == args && s[c] == ')';
    FoundFirst(s, w);
    LineProofs.NoSkip(s, o);
    CloseIs(s, o + 1, c);
    CutIs(s, w, 0, o, c);
    var r := Blanked(Blanked(s, 0, o), o, c + 1);
    forall i | 0 <= i < |s| ensures r[i] == Spaces(|s|)[i] {
      BlankedAt(s, 0, o, i);
      BlankedAt(Blanked(s, 0, o), o, c + 1, i);
    }
    assert r == Spaces(|s|);
  }

  lemma FoundFirst(s: string, w: string)
    requires w <= s
    ensures FindStr(s, w) == 0
  {
  }

  lemma CutOther(word: string, args: string, name: string)
    requires PlainWord(word) && PlainArgs(args) && PlainWord(name) && !(name <= word)
    ensures CutDirective(OneLine(word, args), "%" + name) == Absent
  {
    hide FindStr, PlainChar, CutDirective;
    var s, w, p := OneLine(word, args), "%" + name, Args(word, args);
    ValidArgs(word, args);
    PieceTail(p);
    NotHere(p, "", name);
    assert s == Show(p) && s <= Show(p) + " " + "";
    assert s[1..] + " " == Show(p)[1..] + " ";
    FindNone(s[1..], w);
    FindLater(s, w);
    CutNone(s, w);
  }

  /** A blank line sets nothing. */
  lemma BlankRest(n: nat, e: FileEntry, def: FileEntry)
    ensures ParseRest(Spaces(n), e, def) == Some(Parsed(e, def, []))
  {
    hide Spaces, CutDirective, FindStr;
    NoPercent(n);
    FindNone(Spaces(n), "%config");
    FindNone(Spaces(n), "%lang");
    CutNone(Spaces(n), "%config");
    CutNone(Spaces(n), "%lang");
    NoTokens(n);
  }

  lemma {:induction false} NoTokens(n: nat)
    ensures SkipDelim(Spaces(n)) == ""
  {
    if n > 0 {
      assert Spaces(n)[1..] == Spaces(n - 1);
      NoTokens(n - 1);
    }
  }

  // ----- %defattr

  /** The words of %defattr, with a mode for directories or without it. */
  function DefWords(a: AttrSpec, dmode: Option<Option<nat>>): seq<string> {
    if dmode.Some? then [ModeWord(a.mode), Dash(a.user), Dash(a.group), ModeWord(dmode.value)]
    else [ModeWord(a.mode), Dash(a.user), Dash(a.group)]
  }

  function ModeGiven(m: Option<nat>): bv32
    requires m.Some? ==> m.value < 0x1_0000_0000
  {
    if m.Some? then m.value as bv32 else 0
  }

  ghost predicate ValidMode(m: Option<nat>) {
    m.Some? ==> m.value < 0x1_0000_0000
  }

  lemma ModeBack(m: Option<nat>)
    requires ValidMode(m)
    ensures Token(ModeWord(m)) && (ModeWord(m) == "-" <==> m.None?)
    ensures m.Some? ==> ScanOctal(ModeWord(m)) == Some(ModeGiven(m))
  {
    hide ScanOctal, Token;
    DashToken(None);
    DashWord();
    if m.Some? {
      OctalBack(m.value);
    }
  }

  lemma DefTokens(a: AttrSpec, dmode: Option<Option<nat>>)
    requires ValidAttr(a) && (dmode.Some? ==> ValidMode(dmode.value))
    ensures forall w | w in DefWords(a, dmode) :: Token(w)
  {
    hide Token, ScanOctal, ModeWord, Dash, Given, ModeGiven;
    DashToken(a.user);
    DashToken(a.group);
    ModeBack(a.mode);
    if dmode.Some? {
      ModeBack(dmode.value);
    }
  }

  lemma DefWordsBack(a: AttrSpec, dmode: Option<Option<nat>>)
    requires ValidAttr(a) && (dmode.Some? ==> ValidMode(dmode.value))
    ensures var d := if dmode.Some? then dmode.value else None;
            AttrWords(DefWords(a, dmode), true) ==
            Some(AttrRec(a.mode.Some?, d.Some?, a.user, a.group, ModeGiven(a.mode), ModeGiven(d)))
  {
    hide Token, ScanOctal, ModeWord, Dash, Given, ModeGiven;
    DashToken(a.user);
    DashToken(a.group);
    ModeBack(a.mode);
    NoMode();
    if dmode.Some? {
      ModeBack(dmode.value);
    }
  }

  lemma NoMode()
    ensures ModeGiven(None) == 0
  {
  }

  /**
   A line with nothing but %defattr: it names no file, gives its own entry nothing, and makes owner, group, the
   mode of files and the mode of directories the defaults from then on, in place of all earlier ones.
  */
  lemma DefAttrLine(a: AttrSpec, dmode: Option<Option<nat>>, def: FileEntry)
    requires ValidAttr(a) && (dmode.Some? ==> ValidMode(dmode.value))
    ensures AttrsClosed(OneLine("defattr", JoinWords(DefWords(a, dmode), ',')))
    ensures var d := if dmode.Some? then dmode.value else None;
            ParseText(OneLine("defattr", JoinWords(DefWords(a, dmode), ',')), def) ==
            Some(Parsed(StartEntry(def),
                        def.(ar := AttrRec(a.mode.Some?, d.Some?, a.user, a.group, ModeGiven(a.mode), ModeGiven(d)),
                             specd := Plus(def.specd, 0xF00)),
                        []))
  {
    hide CutDirective, AttrWords, Words, JoinWords, Token, PlainWord, ModeWord, Dash, ParseRest, StartEntry, Plus,
         Spaces, OneLine, SkipSpaceAt, DefWords, ModeGiven, AttrsClosed;
    DashWord();
    VerifyTokens();
    assert SPECD_ATTR == 0xF00;
    var args := JoinWords(DefWords(a, dmode), ',');
    var s := OneLine("defattr", args);
    DefTokens(a, dmode);
    DefWordsBack(a, dmode);
    WordsOfTokens(DefWords(a, dmode), ',');
    assert "verify"[0] == 'v' && "attr"[0] == 'a' && "defverify"[3] == 'v';
    OthersAbsent("defattr", args, "verify", "defverify", "attr");
    CutOnly("defattr", args);
    assert "%" + "verify" == "%verify" && "%" + "defverify" == "%defverify" && "%" + "attr" == "%attr";
    assert "%" + "defattr" == "%defattr";
    LineLength("defattr", args);
    NothingBehind(s);
    var d := AttrSet(args, true, def).value;
    OnlyDefAttr(s, def, d, Spaces(|s|));
    BlankRest(|s|, StartEntry(def), d);
  }

  lemma OnlyDefAttr(s: string, def: FileEntry, d: FileEntry, t: string)
    requires CutDirective(s, "%verify") == CutDirective(s, "%defverify") == CutDirective(s, "%attr") == Absent
    requires AttrEntry(s, true, def) == Some(d) && Remaining(CutDirective(s, "%defattr"), s) == t
    ensures ParseText(s, def) == ParseRest(t, StartEntry(def), d)
    ensures AttrsClosed(s) <==> !CutDirective(s, "%defattr").Unclosed?
  {
    hide CutDirective, AttrSet, ParseRest, StartEntry, VerifyWords;
  }

  lemma OthersAbsent(word: string, args: string, a: string, b: string, c: string)
    requires PlainWord(word) && PlainArgs(args)
    requires forall n | n in [a, b, c] :: PlainWord(n) && !(n <= word)
    ensures forall n | n in [a, b, c] :: CutDirective(OneLine(word, args), "%" + n) == Absent
  {
    hide PlainWord, PlainArgs, CutDirective, OneLine;
    forall n | n in [a, b, c] ensures CutDirective(OneLine(word, args), "%" + n) == Absent {
      CutOther(word, args, n);
    }
  }

  lemma LineLength(word: string, args: string)
    ensures |OneLine(word, args)| == |word| + |args| + 3
  {
  }

  lemma NothingBehind(s: string)
    ensures SkipSpaceAt(s, |s|) == |s|
  {
  }

  // ----- %defverify

  /**
   A line with nothing but %defverify: the flags, or with "not" all others, are the defaults from then on. The
   entry of the line itself keeps the defaults from before.
  */
  lemma DefVerifyLine(negated: bool, flags: bv32, def: FileEntry)
    requires Inside(flags, VERIFY_MASK)
    ensures AttrsClosed(OneLine("defverify", JoinWords(VerifyList(negated, flags), ' ')))
    ensures ParseText(OneLine("defverify", JoinWords(VerifyList(negated, flags), ' ')), def) ==
            Some(Parsed(StartEntry(def),
                        def.(verify := if negated then !flags else flags, specd := Plus(def.specd, 0x1000)), []))
  {
    hide CutDirective, VerifyWords, Words, JoinWords, Token, PlainWord, ParseRest, StartEntry, Plus, Spaces, OneLine,
         AttrsClosed, VerifyList, Inside, VerifyNames;
    VerifyTokens();
    var args := JoinWords(VerifyList(negated, flags), ' ');
    var s := OneLine("defverify", args);
    VerifyListBack(negated, flags);
    WordsOfTokens(VerifyList(negated, flags), ' ');
    assert "verify"[0] == 'v';
    CutOther("defverify", args, "verify");
    CutOnly("defverify", args);
    assert "%" + "verify" == "%verify" && "%" + "defverify" == "%defverify";
    var d := VerifyEntry(CutDirective(s, "%defverify"), def).value;
    OnlyDefVerify(s, def, d, |s|);
    BlankRest(|s|, StartEntry(def), d);
  }

  lemma OnlyDefVerify(s: string, def: FileEntry, d: FileEntry, n: nat)
    requires CutDirective(s, "%verify") == Absent
    requires VerifyEntry(CutDirective(s, "%defverify"), def) == Some(d)
    requires Remaining(CutDirective(s, "%defverify"), s) == Spaces(n)
    ensures ParseText(s, def) == ParseRest(Spaces(n), StartEntry(def), d) && AttrsClosed(s)
  {
    hide CutDirective, ParseRest, StartEntry, VerifyWords, Spaces, FindStr;
    NoPercent(n);
    FindNone(Spaces(n), "%attr");
    FindNone(Spaces(n), "%defattr");
    CutNone(Spaces(n), "%attr");
    CutNone(Spaces(n), "%defattr");
  }
}
