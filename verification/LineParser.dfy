/** The directive parsers for a %files line (daemon/files.c), in place on the buffer of the line. */
module LineParser {
  import opened CStrings
  import opened FileSystem
  import opened Numbers
  import opened Manifest
  import opened Flags
  import opened LineText
  import HeaderSpec

  type Table = seq<(string, bv32)>

  const RPMVERIFY_FILEDIGEST: bv32 := 0x1
  const RPMVERIFY_FILESIZE: bv32 := 0x2
  const RPMVERIFY_LINKTO: bv32 := 0x4
  const RPMVERIFY_USER: bv32 := 0x8
  const RPMVERIFY_GROUP: bv32 := 0x10
  const RPMVERIFY_MTIME: bv32 := 0x20
  const RPMVERIFY_MODE: bv32 := 0x40
  const RPMVERIFY_RDEV: bv32 := 0x80
  const RPMVERIFY_CAPS: bv32 := 0x100

  function VerifyAttrs(): Table {
    [("md5", RPMVERIFY_FILEDIGEST), ("filedigest", RPMVERIFY_FILEDIGEST), ("size", RPMVERIFY_FILESIZE),
     ("link", RPMVERIFY_LINKTO), ("user", RPMVERIFY_USER), ("owner", RPMVERIFY_USER), ("group", RPMVERIFY_GROUP),
     ("mtime", RPMVERIFY_MTIME), ("mode", RPMVERIFY_MODE), ("rdev", RPMVERIFY_RDEV), ("caps", RPMVERIFY_CAPS)]
  }

  const RPMFILE_MISSINGOK: bv32 := 0x8
  const RPMFILE_NOREPLACE: bv32 := 0x10
  const RPMFILE_README: bv32 := 0x100
  const RPMFILE_PUBKEY: bv32 := 0x800
  const RPMFILE_DOCDIR: bv32 := 0x2_0000
  const RPMFILE_DIR: bv32 := 0x4_0000
  const RPMFILE_SPECIALDIR: bv32 := 0x8_0000

  function ConfigAttrs(): Table {
    [("missingok", RPMFILE_MISSINGOK), ("noreplace", RPMFILE_NOREPLACE)]
  }

  function VirtualAttrs(): Table {
    [("%dir", RPMFILE_DIR), ("%docdir", RPMFILE_DOCDIR), ("%doc", RPMFILE_DOC), ("%ghost", RPMFILE_GHOST),
     ("%exclude", RPMFILE_EXCLUDE), ("%readme", RPMFILE_README), ("%license", RPMFILE_LICENSE),
     ("%pubkey", RPMFILE_PUBKEY)]
  }

  // ----- what the parsers compute

  /** The flag of a token, 0 if it is not in the table. */
  function Flag(table: Table, token: string): bv32 {
    if table == [] then 0 else if table[0].0 == token then table[0].1 else Flag(table[1..], token)
  }

  /** The tokens of %verify: the flags so far and whether an odd number of "not" has been seen. */
  function VerifyWords(ws: seq<string>, flags: bv32, negated: bool): Option<(bv32, bool)> {
    if ws == [] then Some((flags, negated))
    else if Flag(VerifyAttrs(), ws[0]) != 0 then VerifyWords(ws[1..], Plus(flags, Flag(VerifyAttrs(), ws[0])), negated)
    else if ws[0] == "not" then VerifyWords(ws[1..], flags, !negated)
    else None
  }

  function VerifyName(def: bool): string {
    if def then "%defverify" else "%verify"
  }

  /** None stands for RPMRC_FAIL. */
  function VerifyEntry(cut: Cut, e: FileEntry): Option<FileEntry> {
    match cut
    case Absent => Some(e)
    case Closed(_, _, _, _, args) =>
      (match VerifyWords(Words(args), 0, false)
       case Some((flags, negated)) =>
         Some(e.(verify := if negated then !flags else flags, specd := Plus(e.specd, HeaderSpec.SPECD_VERIFY)))
       case None => None)
    case _ => None
  }

  /** sscanf(3) with "%o" into an unsigned int. */
  function ScanOctal(s: string): Option<bv32> {
    match ScanNumber(s)
    case Some(n) => Some(n as bv32)
    case None => None
  }

  function ScanNumber(s: string): (r: Option<nat>)
    ensures r.Some? ==> r.value < 0x1_0000_0000
  {
    var t := SkipSpace(s);
    var u := if t != "" && t[0] in {'-', '+'} then t[1..] else t;
    var (n, rest) := ReadDigits(u, 8, 0);
    if |rest| == |u| then None else Some(Unsigned(n, t[0] == '-'))
  }

  function Unsigned(n: nat, minus: bool): (v: nat)
    ensures v < 0x1_0000_0000
  {
    if n >= 0x1_0000_0000_0000_0000 then 0xFFFF_FFFF
    else
      var v := n % 0x1_0000_0000;
      if minus then (0x1_0000_0000 - v) % 0x1_0000_0000 else v
  }

  function Given(word: string): Option<string> {
    if word == "-" then None else Some(word)
  }

  /** The words of %attr (three) or %defattr (three or four). */
  function AttrWords(ws: seq<string>, def: bool): Option<AttrRec> {
    if |ws| < 3 || |ws| > (if def then 4 else 3) then None
    else
      var fmode := if ws[0] == "-" then Some(0) else ScanOctal(ws[0]);
      var dmode := if |ws| < 4 || ws[3] == "-" then Some(0) else ScanOctal(ws[3]);
      if fmode.None? || dmode.None? then None
      else Some(AttrRec(ws[0] != "-", |ws| == 4 && ws[3] != "-", Given(ws[1]), Given(ws[2]), fmode.value, dmode.value))
  }

  function AttrName(def: bool): string {
    if def then "%defattr" else "%attr"
  }

  const SPECD_ATTR: bv32 :=
    HeaderSpec.SPECD_UID | HeaderSpec.SPECD_GID | HeaderSpec.SPECD_FILEMODE | HeaderSpec.SPECD_DIRMODE

  function AttrEntry(s: string, def: bool, e: FileEntry): Option<FileEntry> {
    match CutDirective(s, AttrName(def))
    case Absent => Some(e)
    case Closed(_, _, close, _, args) =>
      if def && SkipSpaceAt(s, close + 1) < |s| then None else AttrSet(args, def, e)
    case Unclosed(_, _, args) => AttrSet(args, def, e)
    case NoParen(_) => None
  }

  function AttrSet(args: string, def: bool, e: FileEntry): Option<FileEntry> {
    match AttrWords(Words(args), def)
    case Some(ar) => Some(e.(ar := ar, specd := Plus(e.specd, SPECD_ATTR)))
    case None => None
  }

  function ConfigWords(ws: seq<string>, flags: bv32): Option<bv32> {
    if ws == [] then Some(flags)
    else if Flag(ConfigAttrs(), ws[0]) != 0 then ConfigWords(ws[1..], Plus(flags, Flag(ConfigAttrs(), ws[0])))
    else None
  }

  function AsConfig(flags: bv32): bv32 {
    Plus(flags, RPMFILE_CONFIG)
  }

  function ConfigEntry(cut: Cut, e: FileEntry): Option<FileEntry> {
    match cut
    case Absent => Some(e)
    case NoParen(_) => Some(e.(attrFlags := AsConfig(e.attrFlags)))
    case Closed(_, _, _, _, args) =>
      (match ConfigWords(Words(args), AsConfig(e.attrFlags))
       case Some(flags) => Some(e.(attrFlags := flags))
       case None => None)
    case Unclosed => None
  }

  /** A locale goes into the sorted list; a length that no locale has is an error. */
  function AddLang(langs: seq<string>, lang: string): Option<seq<string>> {
    if |lang| < 1 || (|lang| == 1 && lang != "C") || |lang| >= 32 then None
    else Some(if lang in langs then langs else SortedIn(langs, lang))
  }

  function SortedIn(langs: seq<string>, lang: string): seq<string> {
    if langs == [] || HeaderSpec.Before(lang, langs[0]) then [lang] + langs else [langs[0]] + SortedIn(langs[1..], lang)
  }

  function LangWords(q: string, langs: seq<string>): Option<seq<string>>
    decreases |q|
  {
    if q == "" then Some(langs)
    else
      var t := SkipWhite(q);
      var w := FirstWord(t);
      match AddLang(langs, w)
      case None => None
      case Some(ls) => LangWords(AfterWord(t[|w|..]), ls)
  }

  function AfterWord(s: string): (r: string)
    ensures |r| <= |s|
  {
    if s != "" && s[0] == ',' then s[1..] else s
  }

  function Percents(s: string): nat {
    if s == "" then 0 else Percents(s[1..]) + if s[0] == '%' then 1 else 0
  }

  lemma {:induction false} PercentsCat(a: string, b: string)
    ensures Percents(a + b) == Percents(a) + Percents(b)
  {
    if a == "" {
      assert a + b == b;
    } else {
      assert (a + b)[1..] == a[1..] + b;
      PercentsCat(a[1..], b);
    }
  }

  lemma {:induction false} NoPercents(n: nat)
    ensures Percents(Spaces(n)) == 0
  {
    if n > 0 {
      assert Spaces(n)[1..] == Spaces(n - 1);
      NoPercents(n - 1);
    }
  }

  /** Blanking a directive takes its percent sign away. */
  lemma FewerPercents(s: string, i: nat, j: nat)
    requires i < j <= |s| && s[i] == '%'
    ensures Percents(Blanked(s, i, j)) < Percents(s)
  {
    hide Percents, Spaces;
    PercentsCat(s[..i] + Spaces(j - i), s[j..]);
    PercentsCat(s[..i], Spaces(j - i));
    NoPercents(j - i);
    PercentsCat(s[..i], s[i..]);
    PercentsCat(s[i..j], s[j..]);
    assert s == s[..i] + s[i..] && s[i..] == s[i..j] + s[j..];
    HasPercent(s[i..j]);
  }

  lemma HasPercent(s: string)
    requires s != "" && s[0] == '%'
    ensures Percents(s) > 0
  {
  }

  lemma LangShrinks(s: string)
    requires CutDirective(s, "%lang").Closed?
    ensures var c := CutDirective(s, "%lang");
            c.at < c.open + 1 <= c.close + 1 <= |s| && Percents(Blanked(s, c.at, c.close + 1)) < Percents(s)
  {
    hide Percents, Blanked, FindStr, SkipSpaceAt, CloseAt;
    var c := CutDirective(s, "%lang");
    assert s[c.at..c.at + |"%lang"|][0] == '%';
    FewerPercents(s, c.at, c.close + 1);
  }

  /** All %lang directives of the line: the locales and the line without the directives. */
  function LangAll(s: string, langs: seq<string>): Option<(string, seq<string>)>
    decreases Percents(s)
  {
    match CutDirective(s, "%lang")
    case Absent => Some((s, langs))
    case Closed(at, open, close, _, args) =>
      hide CutDirective, Blanked, Spaces, LangWords, Percents;
      LangShrinks(s);
      (match LangWords(Spaces(open + 1 - at) + args, langs)
       case Some(ls) => LangAll(Blanked(s, at, close + 1), ls)
       case None => None)
    case _ => None
  }

  predicate IsDelim(c: char) {
    c in {' ', '\t', '\n'}
  }

  function SkipDelim(s: string): (r: string)
    ensures |r| <= |s| && (r != "" ==> !IsDelim(r[0]))
  {
    if s != "" && IsDelim(s[0]) then SkipDelim(s[1..]) else s
  }

  /** The text in front of the closing quote, or of the next delimiter. */
  function UpTo(s: string, quoted: bool): (t: string)
    ensures t <= s
  {
    if s == "" || (if quoted then s[0] == '"' else IsDelim(s[0])) then "" else [s[0]] + UpTo(s[1..], quoted)
  }

  /** strtokWithQuotes: the next token and what is left, or None. */
  function NextToken(s: string): (r: Option<(string, string)>)
    ensures r.Some? ==> |r.value.1| < |s|
  {
    var t := SkipDelim(s);
    if t == "" then None
    else
      var quoted := t[0] == '"';
      var u := if quoted then t[1..] else t;
      var token := UpTo(u, quoted);
      assert !quoted ==> token != "";
      Some((token, if |token| < |u| then u[|token| + 1..] else ""))
  }

  datatype Simple = Simple(flags: bv32, names: seq<string>, ok: bool)

  predicate RelativeAllowed(flags: bv32) {
    Has(flags, RPMFILE_PUBKEY | RPMFILE_DOC | RPMFILE_LICENSE)
  }

  predicate Special(flags: bv32) {
    Has(flags, RPMFILE_DOC | RPMFILE_LICENSE)
  }

  /** What a token of the remaining line does. */
  function SimpleToken(r: Simple, token: string): Simple {
    var flag := Flag(VirtualAttrs(), token);
    if flag != 0 then r.(flags := Plus(r.flags, flag))
    else if token == "" || token[0] != '/' then
      if !RelativeAllowed(r.flags) then r.(ok := false)
      else r.(flags := if Special(r.flags) then Plus(r.flags, RPMFILE_SPECIALDIR) else r.flags,
              names := r.names + [token])
    else r.(names := r.names + [token])
  }

  function SimpleTokens(s: string, r: Simple): Simple
    decreases |s|
  {
    match NextToken(s)
    case None => r
    case Some((token, rest)) => SimpleTokens(rest, SimpleToken(r, token))
  }

  datatype Parsed = Parsed(cur: FileEntry, def: FileEntry, names: seq<string>)

  /** The current entry at the start of a line. */
  function StartEntry(def: FileEntry): FileEntry {
    FileEntry(0, def.specd >> 8, def.verify, AttrRec(false, false, None, None, 0, 0), [], None, None, 0)
  }

  /** The whole chain of parsers; None stands for a failure of one of them. */
  function ParseText(s: string, def: FileEntry): Option<Parsed> {
    var v := CutDirective(s, VerifyName(false));
    var e1 := VerifyEntry(v, StartEntry(def));
    var s1 := Remaining(v, s);
    var dv := CutDirective(s1, VerifyName(true));
    var d1 := VerifyEntry(dv, def);
    var s2 := Remaining(dv, s1);
    if e1.None? || d1.None? then None
    else
      var e2 := AttrEntry(s2, false, e1.value);
      var s3 := Remaining(CutDirective(s2, AttrName(false)), s2);
      var d2 := AttrEntry(s3, true, d1.value);
      var s4 := Remaining(CutDirective(s3, AttrName(true)), s3);
      if e2.None? || d2.None? then None else ParseRest(s4, e2.value, d2.value)
  }

  /** The parsers from parseForConfig on. */
  function ParseRest(s: string, e: FileEntry, def: FileEntry): Option<Parsed> {
    var c := CutDirective(s, "%config");
    var e' := ConfigEntry(c, e);
    if e'.None? then None
    else match LangAll(Remaining(c, s), e'.value.langs)
      case None => None
      case Some((t, langs)) =>
        var r := SimpleTokens(t, Simple(e'.value.attrFlags, [], true));
        if r.ok then Some(Parsed(e'.value.(langs := langs, attrFlags := r.flags), def, r.names)) else None
  }

  // ----- the parsers

  method VfaMatch(attrs: Table, token: string, flags: bv32) returns (flag: bv32, flags': bv32)
    ensures flag == Flag(attrs, token) && flags' == Plus(flags, flag)
  {
    hide Plus;
    flags' := flags;
    var vfa := 0;
    while vfa < |attrs|
      invariant 0 <= vfa <= |attrs| && flags' == flags && Flag(attrs, token) == Flag(attrs[vfa..], token)
    {
      assert attrs[vfa..][1..] == attrs[vfa + 1..];
      if attrs[vfa].0 == token {
        flag := attrs[vfa].1;
        flags' := Plus(flags', flag);
        return;
      }
      vfa := vfa + 1;
    }
    flag := 0;
    PlusNone(flags);
  }

  /** One round of a token loop: the next word and the text behind it. */
  method NextWord(p: string) returns (w: string, pe: string)
    ensures if w == "" then Words(p) == Words(pe) == []
            else Words(p) != [] && Words(p)[0] == w && Words(p)[1..] == Words(pe)
    ensures |pe| <= |p| && (w != "" ==> |pe| < |p|)
  {
    NoWords();
    var t := SkipWhite(p);
    w := FirstWord(t);
    pe := t[|w|..];
    if pe != "" {
      assert pe == [pe[0]] + pe[1..];
      WordsWhite(pe[0], pe[1..]);
      pe := pe[1..];
    }
  }

  lemma VerifyNext(ws: seq<string>, flags: bv32, negated: bool)
    ensures VerifyWords(ws, flags, negated) ==
            if ws == [] then Some((flags, negated))
            else if Flag(VerifyAttrs(), ws[0]) != 0 then
              VerifyWords(ws[1..], Plus(flags, Flag(VerifyAttrs(), ws[0])), negated)
            else if ws[0] == "not" then VerifyWords(ws[1..], flags, !negated)
            else None
  {
    hide Flag, VerifyAttrs, Plus;
  }

  lemma ConfigNext(ws: seq<string>, flags: bv32)
    ensures ConfigWords(ws, flags) ==
            if ws == [] then Some(flags)
            else if Flag(ConfigAttrs(), ws[0]) != 0 then ConfigWords(ws[1..], Plus(flags, Flag(ConfigAttrs(), ws[0])))
            else None
  {
    hide Flag, ConfigAttrs, Plus;
  }

  /** The token loop of parseForVerify. */
  method VerifyLoop(q: string) returns (ok: bool, verifyFlags: bv32, negated: bool)
    ensures (if ok then Some((verifyFlags, negated)) else None) == VerifyWords(Words(q), 0, false)
  {
    hide Words, Flag, VerifyWords, VerifyAttrs, Plus;
    var p, more := q, true;
    ok, verifyFlags, negated := true, 0, false;
    while more
      invariant VerifyWords(Words(q), 0, false) == if more then VerifyWords(Words(p), verifyFlags, negated)
                                                   else Some((verifyFlags, negated))
      decreases more, |p|
    {
      var w, pe := NextWord(p);
      VerifyNext(Words(p), verifyFlags, negated);
      if w == "" {
        more := false;
      } else {
        var flag, flags := VfaMatch(VerifyAttrs(), w, verifyFlags);
        if flag == 0 {
          if w != "not" {
            return false, verifyFlags, negated;
          }
          negated := !negated;
        } else {
          verifyFlags := flags;
        }
        p := pe;
      }
    }
  }

  /** The token loop of parseForConfig. */
  method ConfigLoop(q: string, attrFlags: bv32) returns (ok: bool, flags: bv32)
    ensures (if ok then Some(flags) else None) == ConfigWords(Words(q), attrFlags)
  {
    hide Words, Flag, ConfigWords, ConfigAttrs, Plus;
    var p, more := q, true;
    ok, flags := true, attrFlags;
    while more
      invariant ConfigWords(Words(q), attrFlags) == if more then ConfigWords(Words(p), flags) else Some(flags)
      decreases more, |p|
    {
      var w, pe := NextWord(p);
      ConfigNext(Words(p), flags);
      if w == "" {
        more := false;
      } else {
        var flag, flags' := VfaMatch(ConfigAttrs(), w, flags);
        if flag == 0 {
          return false, flags;
        }
        flags, p := flags', pe;
      }
    }
  }

  /** The loop of parseForLang over the locales of one directive. */
  method LangLoop(q: string, langs: seq<string>) returns (ok: bool, ls: seq<string>)
    ensures (if ok then Some(ls) else None) == LangWords(q, langs)
  {
    hide SkipWhite, FirstWord, SortedIn;
    var p := q;
    ok, ls := true, langs;
    while p != ""
      invariant LangWords(q, langs) == LangWords(p, ls)
      decreases |p|
    {
      p := SkipWhite(p);
      var w := FirstWord(p);
      match AddLang(ls, w) {
        case None => return false, ls;
        case Some(l) => ls := l;
      }
      p := AfterWord(p[|w|..]);
    }
  }

  /** The words of %attr one after the other, each in front of what may follow. */
  method AttrLoop(q: string, def: bool) returns (ok: bool, ar: AttrRec)
    ensures (if ok then Some(ar) else None) == AttrWords(Words(q), def)
  {
    hide Words, ScanOctal;
    ghost var ws := Words(q);
    ok, ar := false, AttrRec(false, false, None, None, 0, 0);
    var fmode, p := NextWord(q);
    if fmode == "" {
      return;
    }
    var user, group, dmode := "", "", "";
    assert ws == [fmode] + Words(p);
    user, p := NextWord(p);
    if user == "" {
      return;
    }
    assert ws == [fmode, user] + Words(p);
    group, p := NextWord(p);
    if group == "" {
      return;
    }
    assert ws == [fmode, user, group] + Words(p);
    if def {
      dmode, p := NextWord(p);
      assert dmode != "" ==> ws == [fmode, user, group, dmode] + Words(p);
    }
    var last, rest := NextWord(p);
    if last != "" {
      return;
    }
    // The test for modes above 07777 looks at fields that are still zero, so it rejects nothing.
    if fmode != "-" {
      match ScanOctal(fmode) {
        case None => return;
        case Some(ui) => ar := ar.(fmodeSet := true, fmode := ui);
      }
    }
    if dmode != "" && dmode != "-" {
      match ScanOctal(dmode) {
        case None => return;
        case Some(ui) => ar := ar.(dmodeSet := true, dmode := ui);
      }
    }
    ar := ar.(user := Given(user), group := Given(group));
    ok := true;
  }

  method ParseForVerify(buf: array<char>, def: bool, e: FileEntry) returns (ok: bool, e': FileEntry)
    requires IsLine(buf[..])
    modifies buf
    ensures IsLine(buf[..])
    ensures var s := old(CStr(buf[..])); var cut := CutDirective(s, VerifyName(def));
            && (if ok then Some(e') else None) == VerifyEntry(cut, e)
            && (ok ==> CStr(buf[..]) == Remaining(cut, s))
  {
    hide CStr, CutDirective, Words, IsLine, VerifyWords, Remaining;
    var cut := CutInPlace(buf, VerifyName(def));
    e' := e;
    match cut {
      case Absent => ok := true;
      case Closed(_, _, _, _, args) =>
        var verifyFlags, negated;
        ok, verifyFlags, negated := VerifyLoop(args);
        e' := e.(verify := if negated then !verifyFlags else verifyFlags,
                 specd := Plus(e.specd, HeaderSpec.SPECD_VERIFY));
      case _ => ok := false;
    }
  }

  /**
   The closing parenthesis is not looked for: without one the blanking goes on over the NUL that ends the
   line, and exactly then. For %defattr the parser would look behind that NUL, which callers must exclude.
  */
  method ParseForAttr(buf: array<char>, def: bool, e: FileEntry) returns (ok: bool, e': FileEntry)
    requires IsLine(buf[..]) && (def ==> !CutDirective(CStr(buf[..]), AttrName(def)).Unclosed?)
    modifies buf
    ensures var s := old(CStr(buf[..]));
            var cut := CutDirective(s, AttrName(def));
            && (if ok then Some(e') else None) == AttrEntry(s, def, e)
            && (NUL !in buf[..|s| + 1] <==> cut.Unclosed?)
            && (!cut.Unclosed? ==> IsLine(buf[..]))
            && (!cut.Unclosed? && ok ==> CStr(buf[..]) == Remaining(cut, s))
  {
    hide CStr, CutDirective, Words, IsLine, AttrWords, SkipSpaceAt, Remaining, Blanked, Opening;
    var s := CStr(buf[..]);
    LineIs(buf[..]);
    var cut := CutInPlace(buf, AttrName(def));
    CutLength(s, AttrName(def));
    LineIs(buf[..]);
    assert buf[|s|] == NUL;
    e' := e;
    match cut {
      case Absent => ok := true;
      case NoParen(_) => ok := false;
      case Closed(_, _, close, _, args) =>
        if def && SkipSpaceAt(s, close + 1) < |s| {
          return false, e;
        }
        var ar;
        ok, ar := AttrLoop(args, def);
        e' := e.(ar := ar, specd := Plus(e.specd, SPECD_ATTR));
      case Unclosed(_, open, args) =>
        ghost var b := buf[..];
        Blank(buf, open, |s| + 1);
        Overrun(b, buf[..], open, |s|);
        var ar;
        ok, ar := AttrLoop(args, def);
        e' := e.(ar := ar, specd := Plus(e.specd, SPECD_ATTR));
    }
  }

  /** A line whose %attr lacks its closing parenthesis is accepted. */
  lemma UnclosedAccepted(e: FileEntry)
    ensures var s := "/x %attr(-,root,root";
            var ar := AttrRec(false, false, Some("root"), Some("root"), 0, 0);
            && CutDirective(s, AttrName(false)).Unclosed?
            && AttrEntry(s, false, e) == Some(e.(ar := ar, specd := Plus(e.specd, SPECD_ATTR)))
  {
    hide Words, Plus, CutDirective, AttrWords;
    UnclosedCut();
    UnclosedWords();
    UnclosedArgs();
  }

  lemma UnclosedArgs()
    ensures "/x %attr(-,root,root"[9..] == "-,root,root"
    ensures AttrWords(["-", "root", "root"], false) ==
            Some(AttrRec(false, false, Some("root"), Some("root"), 0, 0))
  {
    hide ScanOctal;
  }

  lemma UnclosedWords()
    ensures Words("-,root,root") == ["-", "root", "root"]
  {
    hide Words, IsSpace;
    var ws := ["-", "root", "root"];
    assert IsWord("-") && IsWord("root") by { PlainLetters(); }
    WordsBack(ws, ',');
    assert ws[1..] == ["root", "root"] && ws[1..][1..] == ["root"];
    assert JoinWords(["root"], ',') == "root";
    assert JoinWords(ws[1..], ',') == "root" + [','] + "root" == "root,root";
    assert JoinWords(ws, ',') == "-" + [','] + "root,root" == "-,root,root";
  }

  lemma PlainLetters()
    ensures !IsWhite('-') && !IsWhite('r') && !IsWhite('o') && !IsWhite('t')
  {
  }

  lemma UnclosedCut()
    ensures CutDirective("/x %attr(-,root,root", "%attr") == Unclosed(3, 8, "/x %attr(-,root,root"[9..])
  {
    hide FindStr, CloseAt;
    var s := "/x %attr(-,root,root";
    FindFourth(s, "%attr");
    assert SkipSpaceAt(s, 8) == 8;
    assert CloseAt(s, 9) == |s|;
    CutIs(s, "%attr", 3, 8, |s|);
  }

  lemma FindFourth(s: string, w: string)
    requires |s| > 3 + |w| && |w| > 0 && s[3..3 + |w|] == w && w[0] !in s[..3]
    ensures FindStr(s, w) == 3
  {
    assert w <= s[3..] && FindStr(s[3..], w) == 0;
    assert s[..3][0] == s[0] && s[..3][1] == s[1] && s[..3][2] == s[2];
    assert s[2..][0] == s[2] && s[2..][1..] == s[3..] && FindStr(s[2..], w) == 1;
    assert s[1..][0] == s[1] && s[1..][1..] == s[2..] && FindStr(s[1..], w) == 2;
  }

  /** A cut keeps the length of the line. */
  lemma CutLength(s: string, name: string)
    ensures var cut := CutDirective(s, name);
            && |Remaining(cut, s)| == |s|
            && (cut.Closed? ==> cut.close < |s|)
            && (cut.Unclosed? ==>
                  && cut.at + |name| <= cut.open < |s|
                  && |Opening(s, cut.at, cut.at + |name|, cut.open)| == |s|)
  {
    hide FindStr, SkipSpaceAt;
  }

  lemma Overrun(b: seq<char>, b': seq<char>, open: nat, n: nat)
    requires IsLine(b) && |CStr(b)| == n && open <= n < |b| && b' == Blanked(b, open, n + 1)
    ensures NUL !in b'[..n + 1]
  {
    hide Blanked, CStr;
    LineIs(b);
    forall i | 0 <= i <= n ensures b'[i] != NUL {
      BlankedAt(b, open, n + 1, i);
      assert i < n ==> b[i] == CStr(b)[i] && CStr(b)[i] in CStr(b);
    }
  }

  method ParseForConfig(buf: array<char>, e: FileEntry) returns (ok: bool, e': FileEntry)
    requires IsLine(buf[..])
    modifies buf
    ensures IsLine(buf[..])
    ensures var s := old(CStr(buf[..])); var cut := CutDirective(s, "%config");
            && (if ok then Some(e') else None) == ConfigEntry(cut, e)
            && (ok ==> CStr(buf[..]) == Remaining(cut, s))
  {
    hide CStr, CutDirective, Words, IsLine, ConfigWords, Remaining, AsConfig;
    var cut := CutInPlace(buf, "%config");
    e' := e;
    if cut.Absent? {
      return true, e;
    }
    e' := e'.(attrFlags := AsConfig(e.attrFlags));
    match cut {
      case NoParen(_) => ok := true;
      case Closed(_, _, _, _, args) =>
        var flags;
        ok, flags := ConfigLoop(args, e'.attrFlags);
        e' := e'.(attrFlags := flags);
      case _ => ok := false;
    }
  }

  method ParseForLang(buf: array<char>, e: FileEntry) returns (ok: bool, e': FileEntry)
    requires IsLine(buf[..])
    modifies buf
    ensures IsLine(buf[..])
    ensures match LangAll(old(CStr(buf[..])), e.langs)
            case None => !ok
            case Some((s, langs)) => ok && CStr(buf[..]) == s && e' == e.(langs := langs)
  {
    hide CStr, CutDirective, IsLine, LangWords, Percents, Blanked, Spaces;
    ghost var all := LangAll(CStr(buf[..]), e.langs);
    e' := e;
    while true
      invariant IsLine(buf[..]) && LangAll(CStr(buf[..]), e'.langs) == all && e' == e.(langs := e'.langs)
      decreases Percents(CStr(buf[..]))
    {
      ghost var b := buf[..];
      var s := CStr(buf[..]);
      var cut := CutInPlace(buf, "%lang");
      match cut {
        case Absent => return true, e';
        case Closed(at, open, close, _, args) =>
          LangShrinks(s);
          LangErased(b, buf[..], s, cut);
          ghost var b1 := buf[..];
          BlankedLine(b1, at, close + 1);
          Blank(buf, at, close + 1);
          var langs;
          ok, langs := LangLoop(Spaces(open + 1 - at) + args, e'.langs);
          if !ok {
            return;
          }
          e' := e'.(langs := langs);
        case _ => return false, e';
      }
    }
  }

  /** Blanking from the name to the parenthesis covers what has been blanked already. */
  lemma LangErased(b: seq<char>, b1: seq<char>, s: string, cut: Cut)
    requires cut == CutDirective(s, "%lang") && cut.Closed? && IsLine(b1) && CStr(b1) == cut.rest
    ensures |cut.rest| == |s| && cut.at <= cut.close + 1 <= |s|
    ensures Blanked(cut.rest, cut.at, cut.close + 1) == Blanked(s, cut.at, cut.close + 1)
  {
    hide FindStr, SkipSpaceAt, CloseAt, CStr;
  }

  /** parseForSimple: attribute words and file names; r starts with the flags of the entry. */
  method ParseForSimple(line: string, flags: bv32) returns (r: Simple)
    ensures r == SimpleTokens(line, Simple(flags, [], true))
  {
    hide NextToken, VirtualAttrs, SimpleToken, Plus;
    r := Simple(flags, [], true);
    var t, more := line, true;
    while more
      invariant SimpleTokens(line, Simple(flags, [], true)) == if more then SimpleTokens(t, r) else r
      decreases more, |t|
    {
      match NextToken(t) {
        case None => more := false;
        case Some((s, rest)) =>
          r := SimpleEffect(r, s);
          t := rest;
      }
    }
  }

  /** The loop body of parseForSimple. */
  method SimpleEffect(r: Simple, s: string) returns (r': Simple)
    ensures r' == SimpleToken(r, s)
  {
    hide VirtualAttrs, Flag, RelativeAllowed, Special, Plus;
    var flag, flags := VfaMatch(VirtualAttrs(), s, r.flags);
    r' := r;
    if flag != 0 {
      return r.(flags := flags);
    }
    if s == "" || s[0] != '/' {
      if !RelativeAllowed(r.flags) {
        return r.(ok := false);
      }
      if Special(r.flags) {
        r' := r.(flags := Plus(r.flags, RPMFILE_SPECIALDIR));
      }
    }
    r' := r'.(names := r'.names + [s]);
  }

  /** No %attr or %defattr of the line lacks its closing parenthesis. */
  ghost predicate AttrsClosed(s: string) {
    var s1 := Remaining(CutDirective(s, VerifyName(false)), s);
    var s2 := Remaining(CutDirective(s1, VerifyName(true)), s1);
    var s3 := Remaining(CutDirective(s2, AttrName(false)), s2);
    !CutDirective(s2, AttrName(false)).Unclosed? && !CutDirective(s3, AttrName(true)).Unclosed?
  }

  /** One line of %files without %dev and %caps, in the order of processPackageFiles. */
  method ParseLine(buf: array<char>, def: FileEntry) returns (ok: bool, r: Parsed)
    requires IsLine(buf[..]) && AttrsClosed(CStr(buf[..]))
    modifies buf
    ensures (if ok then Some(r) else None) == ParseText(old(CStr(buf[..])), def)
  {
    hide CStr, CutDirective, IsLine, VerifyEntry, AttrEntry, ConfigEntry, LangAll, SimpleTokens, Remaining;
    var cur, def' := StartEntry(def), def;
    r := Parsed(cur, def', []);
    ok, cur := ParseForVerify(buf, false, cur);
    if !ok {
      return;
    }
    ok, def' := ParseForVerify(buf, true, def');
    if !ok {
      return;
    }
    ok, cur := ParseForAttr(buf, false, cur);
    if !ok {
      return;
    }
    ok, def' := ParseForAttr(buf, true, def');
    if !ok {
      return;
    }
    ok, cur := ParseForConfig(buf, cur);
    if !ok {
      return;
    }
    ok, cur := ParseForLang(buf, cur);
    if !ok {
      return;
    }
    var simple := ParseForSimple(CStr(buf[..]), cur.attrFlags);
    ok := simple.ok;
    r := Parsed(cur.(attrFlags := simple.flags), def', simple.names);
  }
}
