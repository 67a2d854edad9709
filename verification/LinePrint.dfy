/** Printing the description of a file as a %files line and parsing the line gives the description back. */
module LinePrint {
  import opened CStrings
  import opened FileSystem
  import opened Numbers
  import opened Manifest
  import opened Flags
  import opened LineText
  import opened LineParser
  import opened LineProofs
  import opened LineFlags
  import HeaderSpec
  import HeaderProofs

  datatype AttrSpec = AttrSpec(mode: Option<nat>, user: Option<string>, group: Option<string>)

  /** verify tells whether the flags are negated; config and virtual are sets of flags. */
  datatype LineSpec = LineSpec(verify: Option<(bool, bv32)>, attr: Option<AttrSpec>, config: Option<bv32>,
                               langs: seq<string>, virtual: bv32, path: string)

  // ----- the printed line

  function Dash(w: Option<string>): string {
    if w.Some? then w.value else "-"
  }

  function ModeWord(mode: Option<nat>): string {
    if mode.Some? then Digits(mode.value, 8) else "-"
  }

  function VerifyPieces(v: Option<(bool, bv32)>): seq<Piece> {
    match v
    case None => []
    case Some((negated, flags)) =>
      [Args("verify", JoinWords((if negated then ["not"] else []) + NamesOf(VerifyNames(), flags), ' '))]
  }

  function AttrPieces(a: Option<AttrSpec>): seq<Piece> {
    match a
    case None => []
    case Some(s) => [Args("attr", JoinWords([ModeWord(s.mode), Dash(s.user), Dash(s.group)], ','))]
  }

  function ConfigPieces(c: Option<bv32>): seq<Piece> {
    match c
    case None => []
    case Some(flags) =>
      if NamesOf(ConfigAttrs(), flags) == [] then [Bare("config")]
      else [Args("config", JoinWords(NamesOf(ConfigAttrs(), flags), ','))]
  }

  function LangPieces(langs: seq<string>): seq<Piece> {
    if langs == [] then [] else [Args("lang", JoinWords(langs, ','))]
  }

  /** Attribute words, each without its percent sign. */
  function Bares(ns: seq<string>): seq<Piece> {
    if ns == [] then [] else [Bare(if ns[0] == "" then "" else ns[0][1..])] + Bares(ns[1..])
  }

  function PiecesOf(s: LineSpec): seq<Piece> {
    VerifyPieces(s.verify) + (AttrPieces(s.attr) + (ConfigPieces(s.config) + (LangPieces(s.langs) +
    Bares(NamesOf(VirtualAttrs(), s.virtual)))))
  }

  function PrintLine(s: LineSpec): string {
    LineOf(0, PiecesOf(s), s.path)
  }

  // ----- what can be printed

  ghost predicate Token(w: string) {
    IsWord(w) && PlainArgs(w)
  }

  ghost predicate ValidAttr(a: AttrSpec) {
    && (a.mode.Some? ==> a.mode.value < 0x1_0000_0000)
    && (a.user.Some? ==> Token(a.user.value) && a.user.value != "-")
    && (a.group.Some? ==> Token(a.group.value) && a.group.value != "-")
  }

  /** A locale that addLang accepts. */
  ghost predicate Locale(l: string) {
    Token(l) && (|l| == 1 ==> l == "C") && |l| < 32
  }

  ghost predicate Ascending(langs: seq<string>) {
    forall i, j | 0 <= i < j < |langs| :: HeaderSpec.Before(langs[i], langs[j])
  }

  ghost predicate ValidSpec(s: LineSpec) {
    && (s.verify.Some? ==> Inside(s.verify.value.1, VERIFY_MASK))
    && (s.attr.Some? ==> ValidAttr(s.attr.value))
    && (s.config.Some? ==> Inside(s.config.value, CONFIG_MASK))
    && Ascending(s.langs) && (forall l | l in s.langs :: Locale(l))
    && Inside(s.virtual, VIRTUAL_MASK)
    && PlainPath(s.path)
  }

  // ----- what it means

  function SetVerify(e: FileEntry, v: Option<(bool, bv32)>): FileEntry {
    match v
    case None => e
    case Some((negated, flags)) =>
      e.(verify := if negated then !flags else flags, specd := Plus(e.specd, HeaderSpec.SPECD_VERIFY))
  }

  function SetAttr(e: FileEntry, a: Option<AttrSpec>): FileEntry
    requires a.Some? && a.value.mode.Some? ==> a.value.mode.value < 0x1_0000_0000
  {
    match a
    case None => e
    case Some(s) =>
      e.(ar := AttrRec(s.mode.Some?, false, s.user, s.group, if s.mode.Some? then s.mode.value as bv32 else 0, 0),
         specd := Plus(e.specd, SPECD_ATTR))
  }

  function SetConfig(e: FileEntry, c: Option<bv32>): FileEntry {
    match c
    case None => e
    case Some(flags) => e.(attrFlags := Plus(AsConfig(e.attrFlags), flags))
  }

  /** The entry that a line describes, on top of the defaults. */
  function EntryOf(s: LineSpec, def: FileEntry): FileEntry
    requires s.attr.Some? && s.attr.value.mode.Some? ==> s.attr.value.mode.value < 0x1_0000_0000
  {
    var e := SetConfig(SetAttr(SetVerify(StartEntry(def), s.verify), s.attr), s.config);
    e.(langs := s.langs, attrFlags := Plus(e.attrFlags, s.virtual))
  }

  // ----- directives do not start alike

  /** No directive starts with the characters a and b. */
  ghost predicate Apart(ps: seq<Piece>, a: char, b: char) {
    forall p | p in ps :: |p.word| >= 2 && (p.word[0] != a || p.word[1] != b)
  }

  lemma CutApart(k: nat, ps: seq<Piece>, path: string, name: string)
    requires ValidLine(ps, path) && PlainWord(name) && |name| >= 2 && Apart(ps, name[0], name[1])
    ensures CutDirective(LineOf(k, ps, path), "%" + name) == Absent
  {
    hide CutDirective, LineOf, ValidPiece, PlainPath, PlainWord;
    CutAbsent(k, ps, path, name);
  }

  // ----- %verify

  lemma {:induction false} JoinedArgs(ws: seq<string>, sep: char)
    requires sep in {' ', ','} && forall w | w in ws :: PlainArgs(w)
    ensures PlainArgs(JoinWords(ws, sep))
    decreases |ws|
  {
    if ws != [] {
      assert ws[0] in ws && forall w | w in ws[1..] :: w in ws;
      JoinedArgs(ws[1..], sep);
    }
  }

  lemma VerifyTokens()
    ensures forall i | 0 <= i < |VerifyNames()| :: Token(VerifyNames()[i].0)
    ensures Token("not") && PlainWord("verify") && PlainWord("defverify")
  {
  }

  lemma {:induction false} MaskStep(t: Table, i: nat)
    requires i < |t|
    ensures Mask(t[i..]) == Plus(t[i].1, Mask(t[i + 1..]))
  {
    assert t[i..][1..] == t[i + 1..];
  }

  lemma VerifyMask()
    ensures Mask(VerifyNames()) == VERIFY_MASK
  {
    hide Mask;
    var t := VerifyNames();
    MaskEnd(t);
    MaskStep(t, 0); MaskStep(t, 1); MaskStep(t, 2); MaskStep(t, 3); MaskStep(t, 4);
    MaskStep(t, 5); MaskStep(t, 6); MaskStep(t, 7); MaskStep(t, 8);
  }

  lemma MaskEnd(t: Table)
    ensures Mask(t[|t|..]) == 0 && t[0..] == t
  {
  }

  /** The words of a printed %verify. */
  function VerifyList(negated: bool, flags: bv32): seq<string> {
    (if negated then ["not"] else []) + NamesOf(VerifyNames(), flags)
  }

  lemma VerifyListBack(negated: bool, flags: bv32)
    requires Inside(flags, VERIFY_MASK)
    ensures VerifyWords(VerifyList(negated, flags), 0, false) == Some((flags, negated))
    ensures forall w | w in VerifyList(negated, flags) :: Token(w)
  {
    hide Flag, VerifyWords, VerifyNames, VerifyAttrs, Token, Or, Mask, Masked, NamesOf, SingleBit, Plus, Inside;
    var ns := NamesOf(VerifyNames(), flags);
    VerifyFlags();
    VerifyBits();
    VerifyTokens();
    forall n | n in ns ensures Flag(VerifyAttrs(), n) != 0 && Token(n) {
      var i := NamesIn(VerifyNames(), flags, n);
      NonZero(VerifyNames()[i].1);
    }
    VerifyOr(ns, 0, negated);
    OrNames(VerifyNames(), VerifyAttrs(), flags, 0);
    VerifyMask();
    MaskedAll(0, flags, VERIFY_MASK);
    PlusNone(flags);
    if negated {
      NotFlag();
      VerifyNext(["not"] + ns, 0, false);
      assert (["not"] + ns)[1..] == ns;
    } else {
      assert [] + ns == ns;
    }
  }

  lemma NonZero(b: bv32)
    requires SingleBit(b)
    ensures b != 0
  {
  }

  lemma NotFlag()
    ensures Flag(VerifyAttrs(), "not") == 0
  {
    hide Flag;
    FlagNone(VerifyAttrs(), "not");
  }

  lemma VerifyStage(k: nat, v: Option<(bool, bv32)>, ps: seq<Piece>, path: string, e: FileEntry) returns (k': nat)
    requires ValidLine(ps, path) && Apart(ps, 'v', 'e') && (v.Some? ==> Inside(v.value.1, VERIFY_MASK))
    ensures var s := LineOf(k, VerifyPieces(v) + ps, path);
            var c := CutDirective(s, VerifyName(false));
            VerifyEntry(c, e) == Some(SetVerify(e, v)) && Remaining(c, s) == LineOf(k', ps, path)
  {
    hide CutDirective, LineOf, ValidPiece, PlainPath, VerifyWords, VerifyNames, NamesOf, Words, JoinWords, Token,
         PlainWord;
    VerifyTokens();
    match v {
      case None =>
        assert VerifyPieces(v) + ps == ps;
        CutApart(k, ps, path, "verify");
        assert "%" + "verify" == VerifyName(false);
        k' := k;
      case Some((negated, flags)) =>
        var ws := VerifyList(negated, flags);
        VerifyListBack(negated, flags);
        WordsOfTokens(ws, ' ');
        var p := Args("verify", JoinWords(ws, ' '));
        ValidArgs("verify", JoinWords(ws, ' '));
        var all := VerifyPieces(v) + ps;
        assert all[0] == p && all[1..] == ps;
        CutFirst(k, all, path);
        assert "%" + "verify" == VerifyName(false);
        k' := k + |p.word| + |p.args| + 4;
    }
  }

  lemma WordsOfTokens(ws: seq<string>, sep: char)
    requires sep in {' ', ','} && forall w | w in ws :: Token(w)
    ensures Words(JoinWords(ws, sep)) == ws && PlainArgs(JoinWords(ws, sep))
  {
    hide Words, IsWord, PlainArgs;
    WordsBack(ws, sep);
    JoinedArgs(ws, sep);
  }

  lemma ValidArgs(word: string, args: string)
    requires PlainWord(word) && PlainArgs(args)
    ensures ValidPiece(Args(word, args))
  {
  }

  // ----- %attr

  lemma OctalBack(m: nat)
    requires m < 0x1_0000_0000
    ensures ScanOctal(Digits(m, 8)) == Some(m as bv32)
    ensures Token(Digits(m, 8)) && Digits(m, 8) != "-"
  {
    hide Digits, ReadDigits;
    var s := Digits(m, 8);
    DigitsAre(m, 8);
    OctalToken(s);
    assert s[0] in s;
    ReadPrinted(m, 8, "");
    NoDigits("", 8, m);
    assert s + "" == s;
  }

  lemma OctalToken(s: string)
    requires AllDigits(s, 8)
    ensures Token(s) && s[0] !in {'-', '+'} && SkipSpace(s) == s
  {
    assert s[0] in s;
    forall c | c in s ensures !IsWhite(c) && c != '%' && c != ')' && c != NUL {
      assert DigitValue(c) < 8;
    }
  }

  lemma DashToken(w: Option<string>)
    requires w.Some? ==> Token(w.value) && w.value != "-"
    ensures Token(Dash(w)) && Given(Dash(w)) == w
  {
  }

  lemma AttrBack(a: AttrSpec)
    requires ValidAttr(a)
    ensures var ws := [ModeWord(a.mode), Dash(a.user), Dash(a.group)];
            && AttrWords(ws, false) == Some(AttrRec(a.mode.Some?, false, a.user, a.group,
                                                    if a.mode.Some? then a.mode.value as bv32 else 0, 0))
            && forall w | w in ws :: Token(w)
  {
    hide Token, ScanOctal, Digits, Dash, Given;
    DashToken(a.user);
    DashToken(a.group);
    DashToken(None);
    DashWord();
    if a.mode.Some? {
      OctalBack(a.mode.value);
    }
  }

  lemma DashWord()
    ensures Dash(None) == "-" && PlainWord("attr") && PlainWord("defattr") && PlainWord("config") && PlainWord("lang")
  {
  }

  lemma AttrStage(k: nat, a: Option<AttrSpec>, ps: seq<Piece>, path: string, e: FileEntry) returns (k': nat)
    requires ValidLine(ps, path) && Apart(ps, 'a', 't') && (a.Some? ==> ValidAttr(a.value))
    ensures var s := LineOf(k, AttrPieces(a) + ps, path);
            var c := CutDirective(s, AttrName(false));
            AttrEntry(s, false, e) == Some(SetAttr(e, a)) && Remaining(c, s) == LineOf(k', ps, path) && !c.Unclosed?
  {
    hide CutDirective, LineOf, ValidPiece, PlainPath, AttrWords, ScanOctal, Words, JoinWords, Token, PlainWord,
         Digits, SkipSpaceAt, ModeWord, Dash;
    DashWord();
    match a {
      case None =>
        assert AttrPieces(a) + ps == ps;
        CutApart(k, ps, path, "attr");
        assert "%" + "attr" == AttrName(false);
        k' := k;
      case Some(x) =>
        var ws := [ModeWord(x.mode), Dash(x.user), Dash(x.group)];
        AttrBack(x);
        WordsOfTokens(ws, ',');
        var p := Args("attr", JoinWords(ws, ','));
        ValidArgs("attr", JoinWords(ws, ','));
        var all := AttrPieces(a) + ps;
        assert all[0] == p && all[1..] == ps;
        CutFirst(k, all, path);
        assert "%" + "attr" == AttrName(false);
        k' := k + |p.word| + |p.args| + 4;
    }
  }

  // ----- %config

  lemma ConfigTokens()
    ensures forall i | 0 <= i < |ConfigAttrs()| :: Token(ConfigAttrs()[i].0)
  {
  }

  lemma ConfigMask()
    ensures Mask(ConfigAttrs()) == CONFIG_MASK
  {
    hide Mask;
    var t := ConfigAttrs();
    MaskEnd(t);
    MaskStep(t, 0); MaskStep(t, 1);
  }

  lemma ConfigListBack(flags: bv32, onto: bv32)
    requires Inside(flags, CONFIG_MASK)
    ensures ConfigWords(NamesOf(ConfigAttrs(), flags), onto) == Some(Plus(onto, flags))
    ensures forall w | w in NamesOf(ConfigAttrs(), flags) :: Token(w)
  {
    hide Flag, ConfigWords, ConfigAttrs, Token, Or, Mask, Masked, NamesOf, SingleBit, Keyed, Plus, Inside;
    var ns := NamesOf(ConfigAttrs(), flags);
    ConfigKeyed();
    TableFlags(ConfigAttrs(), 0);
    ConfigBits();
    ConfigTokens();
    forall n | n in ns ensures Flag(ConfigAttrs(), n) != 0 && Token(n) {
      var i := NamesIn(ConfigAttrs(), flags, n);
      NonZero(ConfigAttrs()[i].1);
    }
    ConfigOr(ns, onto);
    OrNames(ConfigAttrs(), ConfigAttrs(), flags, onto);
    ConfigMask();
    MaskedAll(onto, flags, CONFIG_MASK);
  }

  lemma ConfigCut(k: nat, flags: bv32, ps: seq<Piece>, path: string) returns (k': nat)
    requires ValidLine(ps, path) && Inside(flags, CONFIG_MASK)
    ensures var ws := NamesOf(ConfigAttrs(), flags);
            var s := LineOf(k, ConfigPieces(Some(flags)) + ps, path);
            var cut := CutDirective(s, "%config");
            && Remaining(cut, s) == LineOf(k', ps, path)
            && if ws == [] then cut.NoParen? else cut.Closed? && Words(cut.args) == ws
  {
    hide CutDirective, LineOf, ValidPiece, PlainPath, ConfigWords, NamesOf, Words, JoinWords, Token, PlainWord,
         ConfigAttrs;
    DashWord();
    assert "%" + "config" == "%config";
    var ws := NamesOf(ConfigAttrs(), flags);
    ConfigListBack(flags, 0);
    var all := ConfigPieces(Some(flags)) + ps;
    if ws == [] {
      var p := Bare("config");
      ValidBare("config");
      assert all[0] == p && all[1..] == ps;
      CutBare(k, all, path);
      k' := k + |p.word| + 2;
    } else {
      WordsOfTokens(ws, ',');
      var p := Args("config", JoinWords(ws, ','));
      ValidArgs("config", JoinWords(ws, ','));
      assert all[0] == p && all[1..] == ps;
      CutFirst(k, all, path);
      k' := k + |p.word| + |p.args| + 4;
    }
  }

  lemma ConfigStage(k: nat, c: Option<bv32>, ps: seq<Piece>, path: string, e: FileEntry) returns (k': nat)
    requires ValidLine(ps, path) && Apart(ps, 'c', 'o') && (c.Some? ==> Inside(c.value, CONFIG_MASK))
    ensures var s := LineOf(k, ConfigPieces(c) + ps, path);
            var cut := CutDirective(s, "%config");
            ConfigEntry(cut, e) == Some(SetConfig(e, c)) && Remaining(cut, s) == LineOf(k', ps, path)
  {
    hide CutDirective, LineOf, ValidPiece, PlainPath, NamesOf, Words, JoinWords, PlainWord, ConfigAttrs, Remaining,
         ConfigEntry, SetConfig;
    DashWord();
    ConfigUnset(e);
    match c {
      case None =>
        assert ConfigPieces(c) + ps == ps;
        CutApart(k, ps, path, "config");
        assert "%" + "config" == "%config";
        NothingCut(LineOf(k, ps, path), "%config");
        k' := k;
      case Some(flags) =>
        k' := ConfigCut(k, flags, ps, path);
        ConfigRead(CutDirective(LineOf(k, ConfigPieces(c) + ps, path), "%config"), flags, e);
    }
  }

  lemma ConfigRead(cut: Cut, flags: bv32, e: FileEntry)
    requires Inside(flags, CONFIG_MASK)
    requires var ws := NamesOf(ConfigAttrs(), flags);
             if ws == [] then cut.NoParen? else cut.Closed? && Words(cut.args) == ws
    ensures ConfigEntry(cut, e) == Some(SetConfig(e, Some(flags)))
  {
    hide ConfigWords, NamesOf, Words, ConfigAttrs, Plus, AsConfig;
    ConfigListBack(flags, AsConfig(e.attrFlags));
    ConfigNone(AsConfig(e.attrFlags));
  }

  lemma ConfigNone(flags: bv32)
    ensures ConfigWords([], flags) == Some(flags)
  {
    hide Flag, ConfigAttrs;
  }

  lemma ConfigUnset(e: FileEntry)
    ensures ConfigEntry(Absent, e) == Some(e) && SetConfig(e, None) == e
  {
  }

  lemma NothingCut(s: string, name: string)
    requires CutDirective(s, name) == Absent
    ensures Remaining(CutDirective(s, name), s) == s
  {
  }

  lemma ValidBare(word: string)
    requires PlainWord(word)
    ensures ValidPiece(Bare(word))
  {
  }

  // ----- %lang

  lemma {:induction false} SkipSpaces(n: nat, s: string)
    requires s != "" && !IsWhite(s[0])
    ensures SkipWhite(Spaces(n) + s) == s
  {
    var t := Spaces(n) + s;
    if n == 0 {
      assert t == s;
    } else {
      assert t[1..] == Spaces(n - 1) + s;
      SkipSpaces(n - 1, s);
    }
  }

  /** The last locale in order goes to the end of the list. */
  lemma {:induction false} SortedLast(langs: seq<string>, l: string)
    requires Ascending(langs + [l])
    ensures SortedIn(langs, l) == langs + [l] && l !in langs
    decreases |langs|
  {
    hide HeaderSpec.Before;
    if langs != [] {
      var all := langs + [l];
      assert HeaderSpec.Before(all[0], all[|langs|]);
      HeaderProofs.BeforeAsym(langs[0], l);
      AscendingTail(langs, l);
      SortedLast(langs[1..], l);
      assert langs == [langs[0]] + langs[1..];
    }
  }

  lemma AscendingTail(langs: seq<string>, l: string)
    requires Ascending(langs + [l]) && langs != []
    ensures Ascending(langs[1..] + [l])
  {
    hide HeaderSpec.Before;
    var a, b := langs + [l], langs[1..] + [l];
    forall i, j | 0 <= i < j < |b| ensures HeaderSpec.Before(b[i], b[j]) {
      assert b[i] == a[i + 1] && b[j] == a[j + 1];
    }
  }

  /** One locale is read off the text. */
  lemma LangNext(n: nat, l: string, rest: string, langs: seq<string>)
    requires Locale(l) && Ascending(langs + [l]) && (rest != "" ==> rest[0] == ',')
    ensures LangWords(Spaces(n) + (l + rest), langs) == LangWords(AfterWord(rest), langs + [l])
  {
    hide SortedIn, HeaderSpec.Before, Spaces;
    assert l[0] in l;
    SkipSpaces(n, l + rest);
    FirstWordIs(l, rest);
    SortedLast(langs, l);
    assert (Spaces(n) + (l + rest)) != "";
  }

  lemma {:induction false} LangBack(n: nat, ls: seq<string>, langs: seq<string>)
    requires ls != [] && Ascending(langs + ls) && forall l | l in ls :: Locale(l)
    ensures LangWords(Spaces(n) + JoinWords(ls, ','), langs) == Some(langs + ls)
    decreases |ls|
  {
    hide HeaderSpec.Before, LangWords, Locale, Spaces;
    var l := ls[0];
    assert l in ls && forall x | x in ls[1..] :: x in ls;
    assert langs + ls == langs + [l] + ls[1..];
    AscendingPart(langs + [l], ls[1..]);
    if |ls| == 1 {
      LangNext(n, l, "", langs);
      assert JoinWords(ls, ',') == l + "" && ls == [l];
      LangDone(langs + [l]);
    } else {
      var rest := [','] + JoinWords(ls[1..], ',');
      LangNext(n, l, rest, langs);
      assert JoinWords(ls, ',') == l + rest && AfterWord(rest) == JoinWords(ls[1..], ',');
      LangBack(0, ls[1..], langs + [l]);
      NoSpaces(JoinWords(ls[1..], ','));
    }
  }

  lemma LangDone(langs: seq<string>)
    ensures LangWords("", langs) == Some(langs) && AfterWord("") == ""
  {
  }

  lemma AscendingPart(a: seq<string>, b: seq<string>)
    requires Ascending(a + b)
    ensures Ascending(a)
  {
    hide HeaderSpec.Before;
    forall i, j | 0 <= i < j < |a| ensures HeaderSpec.Before(a[i], a[j]) {
      assert a[i] == (a + b)[i] && a[j] == (a + b)[j];
    }
  }

  lemma LangStage(k: nat, langs: seq<string>, ps: seq<Piece>, path: string) returns (k': nat)
    requires ValidLine(ps, path) && Apart(ps, 'l', 'a') && Ascending(langs) && forall l | l in langs :: Locale(l)
    ensures LangAll(LineOf(k, LangPieces(langs) + ps, path), []) == Some((LineOf(k', ps, path), langs))
  {
    hide CutDirective, LineOf, ValidPiece, PlainPath, LangWords, JoinWords, PlainWord, HeaderSpec.Before, Blanked,
         Spaces, Percents, Locale;
    DashWord();
    assert "%" + "lang" == "%lang";
    if langs == [] {
      assert LangPieces(langs) + ps == ps;
      CutApart(k, ps, path, "lang");
      k' := k;
    } else {
      var s := LineOf(k, LangPieces(langs) + ps, path);
      LocaleTokens(langs);
      WordsOfTokens(langs, ',');
      var p := Args("lang", JoinWords(langs, ','));
      ValidArgs("lang", JoinWords(langs, ','));
      var all := LangPieces(langs) + ps;
      assert all[0] == p && all[1..] == ps;
      CutFirst(k, all, path);
      var cut := CutDirective(s, "%lang");
      k' := k + |p.word| + |p.args| + 4;
      LangCut(s, cut);
      assert [] + langs == langs;
      LangBack(cut.open + 1 - cut.at, langs, []);
      CutApart(k', ps, path, "lang");
    }
  }

  lemma LocaleTokens(langs: seq<string>)
    requires forall l | l in langs :: Locale(l)
    ensures forall l | l in langs :: Token(l)
  {
  }

  /** Blanking from the name on gives what the cut leaves. */
  lemma LangCut(s: string, cut: Cut)
    requires cut == CutDirective(s, "%lang") && cut.Closed? && cut.open == cut.at + |"%lang"|
    ensures cut.at <= cut.open <= cut.close + 1 <= |s| && Blanked(s, cut.at, cut.close + 1) == cut.rest
  {
    hide FindStr, SkipSpaceAt, CloseAt, Spaces;
    var o := cut.open;
    var a, b := Blanked(Blanked(s, cut.at, o), o, cut.close + 1), Blanked(s, cut.at, cut.close + 1);
    forall i | 0 <= i < |s| ensures a[i] == b[i] {
      BlankedAt(s, cut.at, o, i);
      BlankedAt(Blanked(s, cut.at, o), o, cut.close + 1, i);
      BlankedAt(s, cut.at, cut.close + 1, i);
    }
    assert a == b;
  }

  // ----- attribute words and the path

  /** Blanks in front of a token are skipped. */
  lemma {:induction false} SkipDelims(n: nat, s: string)
    requires s != "" && !IsDelim(s[0])
    ensures SkipDelim(Spaces(n) + s) == s
  {
    var t := Spaces(n) + s;
    if n == 0 {
      assert t == s;
    } else {
      assert t[1..] == Spaces(n - 1) + s;
      SkipDelims(n - 1, s);
    }
  }

  lemma {:induction false} UpToBlank(w: string, rest: string)
    requires (forall c | c in w :: !IsDelim(c)) && (rest != "" ==> IsDelim(rest[0]))
    ensures UpTo(w + rest, false) == w
  {
    if w == "" {
      assert w + rest == rest;
    } else {
      assert w[0] in w && (w + rest)[0] == w[0] && (w + rest)[1..] == w[1..] + rest;
      UpToBlank(w[1..], rest);
    }
  }

  /** A word that is no quoted one is the next token. */
  lemma TokenNext(n: nat, w: string, rest: string)
    requires w != "" && w[0] != '"' && (forall c | c in w :: !IsDelim(c))
    ensures NextToken(Spaces(n) + (w + (" " + rest))) == Some((w, rest))
    ensures NextToken(Spaces(n) + w) == Some((w, ""))
  {
    TokenThen(n, w, rest);
    TokenLast(n, w);
  }

  lemma TokenThen(n: nat, w: string, rest: string)
    requires w != "" && w[0] != '"' && (forall c | c in w :: !IsDelim(c))
    ensures NextToken(Spaces(n) + (w + (" " + rest))) == Some((w, rest))
  {
    hide Spaces, IsDelim, SkipDelim, UpTo;
    assert w[0] in w;
    var s := w + (" " + rest);
    BlankDelim();
    SkipDelims(n, s);
    UpToBlank(w, " " + rest);
    assert s[|w| + 1..] == rest;
  }

  lemma TokenLast(n: nat, w: string)
    requires w != "" && w[0] != '"' && (forall c | c in w :: !IsDelim(c))
    ensures NextToken(Spaces(n) + w) == Some((w, ""))
  {
    hide Spaces, IsDelim, SkipDelim, UpTo;
    assert w[0] in w;
    SkipDelims(n, w);
    UpToBlank(w, "");
    assert w + "" == w;
  }

  lemma BlankDelim()
    ensures IsDelim(' ')
  {
  }

  lemma TokensEnd(r: Simple)
    ensures SimpleTokens("", r) == r
  {
  }

  /** The words are attribute words of the table. */
  ghost predicate Virtual(ns: seq<string>) {
    forall n | n in ns :: Flag(VirtualAttrs(), n) != 0 && |n| >= 2 && n[0] == '%' && PlainWord(n[1..])
  }

  lemma SimpleWord(k: nat, n: string, rest: string, r: Simple)
    requires Flag(VirtualAttrs(), n) != 0 && |n| >= 2 && n[0] == '%' && PlainWord(n[1..])
    ensures SimpleTokens(Spaces(k) + (n + (" " + rest)), r) ==
            SimpleTokens(rest, r.(flags := Plus(r.flags, Flag(VirtualAttrs(), n))))
  {
    hide NextToken, Flag, VirtualAttrs, Plus, Spaces, PlainWord, Special, RelativeAllowed, IsDelim;
    WordToken(n);
    TokenNext(k, n, rest);
  }

  lemma SimplePath(k: nat, path: string, r: Simple)
    requires PlainPath(path)
    ensures SimpleTokens(Spaces(k) + path, r) == r.(names := r.names + [path])
  {
    hide NextToken, Flag, VirtualAttrs, Plus, Spaces, PlainWord, Special, RelativeAllowed, IsDelim;
    PathToken(path);
    TokenNext(k, path, "");
    TokensEnd(r.(names := r.names + [path]));
  }

  /** A line of attribute words and a path gives their flags and the path. */
  lemma {:induction false} SimpleBack(k: nat, ns: seq<string>, path: string, r: Simple)
    requires Virtual(ns) && PlainPath(path)
    ensures SimpleTokens(LineOf(k, Bares(ns), path), r) ==
            r.(flags := Or(VirtualAttrs(), ns, r.flags), names := r.names + [path])
    decreases |ns|
  {
    hide SimpleTokens, Flag, VirtualAttrs, Plus, Spaces, PlainWord, PlainPath;
    if ns == [] {
      SimplePath(k, path, r);
    } else {
      var n, rest := ns[0], Body(Bares(ns[1..]), path);
      assert n in ns && forall x | x in ns[1..] :: x in ns;
      WordToken(n);
      BaresShape(k, ns, path);
      SimpleWord(k, n, rest, r);
      SimpleBack(0, ns[1..], path, r.(flags := Plus(r.flags, Flag(VirtualAttrs(), n))));
      NoSpaces(rest);
    }
  }

  lemma BaresShape(k: nat, ns: seq<string>, path: string)
    requires ns != [] && ns[0] != "" && ns[0] == "%" + ns[0][1..]
    ensures LineOf(k, Bares(ns), path) == Spaces(k) + (ns[0] + (" " + Body(Bares(ns[1..]), path)))
  {
    hide Spaces;
    assert Show(Bares(ns)[0]) == ns[0] && Bares(ns)[1..] == Bares(ns[1..]);
    var n, rest := ns[0], Body(Bares(ns[1..]), path);
    assert n + " " + rest == n + (" " + rest);
  }

  lemma PathToken(path: string)
    requires PlainPath(path)
    ensures path[0] != '"' && (forall c | c in path :: !IsDelim(c)) && Flag(VirtualAttrs(), path) == 0
  {
    hide Flag;
    FlagNone(VirtualAttrs(), path);
  }

  lemma WordToken(n: string)
    requires |n| >= 2 && n[0] == '%' && PlainWord(n[1..])
    ensures n == "%" + n[1..] && n[0] != '"' && forall c | c in n :: !IsDelim(c)
  {
    assert n == "%" + n[1..];
    forall c | c in n ensures !IsDelim(c) {
      assert c == '%' || c in n[1..];
      assert c != '%' ==> PlainChar(c);
    }
  }

  lemma VirtualTokens()
    ensures forall i | 0 <= i < |VirtualAttrs()| ::
              var n := VirtualAttrs()[i].0;
              && |n| >= 4 && n[0] == '%' && PlainWord(n[1..])
              && (n[1], n[2]) in {('d', 'i'), ('d', 'o'), ('g', 'h'), ('e', 'x'), ('r', 'e'), ('l', 'i'), ('p', 'u')}
  {
  }

  lemma VirtualMask()
    ensures Mask(VirtualAttrs()) == VIRTUAL_MASK
  {
    hide Mask, Plus;
    var t := VirtualAttrs();
    MaskEnd(t);
    MaskStep(t, 0); MaskStep(t, 1); MaskStep(t, 2); MaskStep(t, 3); MaskStep(t, 4);
    MaskStep(t, 5); MaskStep(t, 6); MaskStep(t, 7);
    VirtualSum();
  }

  lemma VirtualSum()
    ensures var t := VirtualAttrs();
            Plus(t[0].1, Plus(t[1].1, Plus(t[2].1, Plus(t[3].1, Plus(t[4].1, Plus(t[5].1, Plus(t[6].1,
            Plus(t[7].1, 0)))))))) ==
            VIRTUAL_MASK
  {
  }

  // ----- the whole line

  lemma VirtualList(f: bv32, flags: bv32)
    requires Inside(f, VIRTUAL_MASK)
    ensures Virtual(NamesOf(VirtualAttrs(), f))
    ensures Or(VirtualAttrs(), NamesOf(VirtualAttrs(), f), flags) == Plus(flags, f)
  {
    hide Flag, VirtualAttrs, Or, Mask, Masked, NamesOf, SingleBit, Keyed, Plus, Inside, PlainWord;
    var ns := NamesOf(VirtualAttrs(), f);
    VirtualKeyed();
    TableFlags(VirtualAttrs(), 2);
    VirtualBits();
    VirtualTokens();
    forall n | n in ns ensures Flag(VirtualAttrs(), n) != 0 && |n| >= 2 && n[0] == '%' && PlainWord(n[1..]) {
      var i := NamesIn(VirtualAttrs(), f, n);
      NonZero(VirtualAttrs()[i].1);
    }
    OrNames(VirtualAttrs(), VirtualAttrs(), f, flags);
    VirtualMask();
    MaskedAll(flags, f, VIRTUAL_MASK);
  }

  lemma {:induction false} BaresValid(ns: seq<string>)
    requires forall n | n in ns :: |n| >= 2 && PlainWord(n[1..])
    ensures forall p | p in Bares(ns) :: ValidPiece(p)
    ensures forall p | p in Bares(ns) :: exists n | n in ns :: n != "" && p.word == n[1..]
  {
    hide PlainWord;
    if ns != [] {
      assert ns[0] in ns && forall n | n in ns[1..] :: n in ns;
      BaresValid(ns[1..]);
    }
  }

  /** The attribute words start with none of these pairs of characters. */
  lemma VirtualApart(f: bv32, path: string)
    requires PlainPath(path)
    ensures var ps := Bares(NamesOf(VirtualAttrs(), f));
            && ValidLine(ps, path)
            && Apart(ps, 'v', 'e') && Apart(ps, 'd', 'e') && Apart(ps, 'a', 't') && Apart(ps, 'c', 'o')
            && Apart(ps, 'l', 'a')
  {
    hide VirtualAttrs, NamesOf, PlainPath, ValidPiece, PlainWord;
    var ns := NamesOf(VirtualAttrs(), f);
    VirtualTokens();
    forall n | n in ns
      ensures |n| >= 4 && PlainWord(n[1..])
      ensures (n[1], n[2]) in {('d', 'i'), ('d', 'o'), ('g', 'h'), ('e', 'x'), ('r', 'e'), ('l', 'i'), ('p', 'u')}
    {
      var i := NamesIn(VirtualAttrs(), f, n);
    }
    BaresValid(ns);
    forall p | p in Bares(ns)
      ensures |p.word| >= 2
      ensures (p.word[0], p.word[1]) in {('d', 'i'), ('d', 'o'), ('g', 'h'), ('e', 'x'), ('r', 'e'), ('l', 'i'),
              ('p', 'u')}
    {
      var n :| n in ns && n != "" && p.word == n[1..];
      assert n[1..][0] == n[1] && n[1..][1] == n[2];
    }
  }

  /** One directive in front of others that do not start alike. */
  lemma InFront(p: seq<Piece>, word: string, ps: seq<Piece>, path: string)
    requires ValidLine(ps, path) && |word| >= 2
    requires p == [] || (|p| == 1 && ValidPiece(p[0]) && p[0].word == word)
    ensures ValidLine(p + ps, path)
    ensures forall a, b | Apart(ps, a, b) && (word[0] != a || word[1] != b) :: Apart(p + ps, a, b)
  {
    hide ValidPiece, PlainPath;
  }

  lemma ValidFront(s: LineSpec)
    requires ValidSpec(s)
    ensures forall p |
              p in VerifyPieces(s.verify) + (AttrPieces(s.attr) + (ConfigPieces(s.config) + LangPieces(s.langs))) ::
              ValidPiece(p)
  {
    hide ValidPiece, PlainWord, NamesOf, VerifyNames, ConfigAttrs, Token, JoinWords, Words, ModeWord, Dash, Locale,
         PlainPath, PlainArgs, HeaderSpec.Before;
    VerifyTokens();
    DashWord();
    if s.verify.Some? {
      var ws := VerifyList(s.verify.value.0, s.verify.value.1);
      VerifyListBack(s.verify.value.0, s.verify.value.1);
      WordsOfTokens(ws, ' ');
      ValidArgs("verify", JoinWords(ws, ' '));
    }
    if s.attr.Some? {
      var ws := [ModeWord(s.attr.value.mode), Dash(s.attr.value.user), Dash(s.attr.value.group)];
      AttrBack(s.attr.value);
      WordsOfTokens(ws, ',');
      ValidArgs("attr", JoinWords(ws, ','));
    }
    if s.config.Some? {
      var ws := NamesOf(ConfigAttrs(), s.config.value);
      ConfigListBack(s.config.value, 0);
      WordsOfTokens(ws, ',');
      ValidArgs("config", JoinWords(ws, ','));
      ValidBare("config");
    }
    LocaleTokens(s.langs);
    WordsOfTokens(s.langs, ',');
    ValidArgs("lang", JoinWords(s.langs, ','));
  }

  /** What each parser finds behind the directive that is its own. */
  lemma Layout(s: LineSpec)
    requires ValidSpec(s)
    ensures var v4 := Bares(NamesOf(VirtualAttrs(), s.virtual));
            var v3 := LangPieces(s.langs) + v4;
            var v2 := ConfigPieces(s.config) + v3;
            var v1 := AttrPieces(s.attr) + v2;
            && ValidLine(v4, s.path) && Apart(v4, 'l', 'a')
            && ValidLine(v3, s.path) && Apart(v3, 'c', 'o')
            && ValidLine(v2, s.path) && Apart(v2, 'a', 't') && Apart(v2, 'd', 'e')
            && ValidLine(v1, s.path) && Apart(v1, 'v', 'e') && Apart(v1, 'd', 'e')
  {
    hide ValidPiece, PlainPath, NamesOf, VirtualAttrs, JoinWords, VerifyPieces, ConfigAttrs, Apart, HeaderSpec.Before,
         Locale;
    ValidFront(s);
    VirtualApart(s.virtual, s.path);
    var v4 := Bares(NamesOf(VirtualAttrs(), s.virtual));
    var v3 := LangPieces(s.langs) + v4;
    var v2 := ConfigPieces(s.config) + v3;
    InFront(LangPieces(s.langs), "lang", v4, s.path);
    InFront(ConfigPieces(s.config), "config", v3, s.path);
    InFront(AttrPieces(s.attr), "attr", v2, s.path);
  }

  lemma DefaultsKept(t: string, u: string, def: FileEntry)
    requires CutDirective(t, VerifyName(true)) == Absent && CutDirective(u, AttrName(true)) == Absent
    ensures VerifyEntry(Absent, def) == Some(def) && AttrEntry(u, true, def) == Some(def)
    ensures Remaining(CutDirective(t, VerifyName(true)), t) == t && Remaining(CutDirective(u, AttrName(true)), u) == u
  {
    hide CutDirective;
  }

  lemma RestBack(k: nat, s: LineSpec, e: FileEntry, def: FileEntry)
    requires ValidSpec(s) && SetConfig(e, s.config).langs == []
    ensures var v4 := Bares(NamesOf(VirtualAttrs(), s.virtual));
            var v2 := ConfigPieces(s.config) + (LangPieces(s.langs) + v4);
            var e' := SetConfig(e, s.config);
            ParseRest(LineOf(k, v2, s.path), e, def) ==
            Some(Parsed(e'.(langs := s.langs, attrFlags := Plus(e'.attrFlags, s.virtual)), def, [s.path]))
  {
    hide CutDirective, ConfigEntry, LangAll, SimpleTokens, Remaining, LineOf, ValidLine, Apart, ConfigPieces,
         LangPieces, NamesOf, VirtualAttrs, Or, Plus, Inside, SetConfig, HeaderSpec.Before, Locale, PlainPath,
         ValidAttr;
    Layout(s);
    var v4 := Bares(NamesOf(VirtualAttrs(), s.virtual));
    var v3 := LangPieces(s.langs) + v4;
    var k3 := ConfigStage(k, s.config, v3, s.path, e);
    var e' := SetConfig(e, s.config);
    var k4 := LangStage(k3, s.langs, v4, s.path);
    VirtualList(s.virtual, e'.attrFlags);
    SimpleBack(k4, NamesOf(VirtualAttrs(), s.virtual), s.path, Simple(e'.attrFlags, [], true));
    assert [] + [s.path] == [s.path];
  }

  /**
   Printing and parsing a line is the identity: for every set of verify flags, negated or not, every mode,
   owner and group, every set of configuration flags, all ascending lists of locales, every set of
   attribute words and every plain absolute path.
  */
  lemma LineRoundTrip(s: LineSpec, def: FileEntry)
    requires ValidSpec(s)
    ensures AttrsClosed(PrintLine(s))
    ensures ParseText(PrintLine(s), def) == Some(Parsed(EntryOf(s, def), def, [s.path]))
  {
    hide CutDirective, VerifyEntry, AttrEntry, ParseRest, Remaining, LineOf, ValidLine, Apart, VerifyPieces,
         AttrPieces, ConfigPieces, LangPieces, NamesOf, VirtualAttrs, Plus, Inside, SetVerify, SetAttr, SetConfig,
         HeaderSpec.Before, Locale, PlainPath, StartEntry, PlainWord;
    Layout(s);
    VerifyTokens();
    DashWord();
    var v2 := ConfigPieces(s.config) + (LangPieces(s.langs) + Bares(NamesOf(VirtualAttrs(), s.virtual)));
    var v1 := AttrPieces(s.attr) + v2;
    var e0 := StartEntry(def);
    var k1 := VerifyStage(0, s.verify, v1, s.path, e0);
    var e1 := SetVerify(e0, s.verify);
    CutApart(k1, v1, s.path, "defverify");
    var k2 := AttrStage(k1, s.attr, v2, s.path, e1);
    CutApart(k2, v2, s.path, "defattr");
    assert "%" + "defverify" == VerifyName(true) && "%" + "defattr" == AttrName(true);
    DefaultsKept(LineOf(k1, v1, s.path), LineOf(k2, v2, s.path), def);
    NoLangs(def, s);
    RestBack(k2, s, SetAttr(e1, s.attr), def);
  }

  lemma NoLangs(def: FileEntry, s: LineSpec)
    requires ValidSpec(s)
    ensures SetConfig(SetAttr(SetVerify(StartEntry(def), s.verify), s.attr), s.config).langs == []
  {
    hide Plus, AsConfig, Inside, PlainPath, HeaderSpec.Before;
  }
}
