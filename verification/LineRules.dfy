/** What each word of a directive means, which words are errors, and how a line falls apart into tokens. */
module LineRules {
  import opened FileSystem
  import opened Numbers
  import opened Manifest
  import opened Flags
  import opened LineText
  import opened LineParser
  import opened LineProofs
  import opened LineFlags
  import opened LinePrint
  import HeaderSpec
  import HeaderProofs
  import DepSets

  // ----- words and bits

  function VerifyBit(w: string): bv32 {
    if w == "md5" || w == "filedigest" then 0x1
    else if w == "size" then 0x2
    else if w == "link" then 0x4
    else if w == "user" || w == "owner" then 0x8
    else if w == "group" then 0x10
    else if w == "mtime" then 0x20
    else if w == "mode" then 0x40
    else if w == "rdev" then 0x80
    else if w == "caps" then 0x100
    else 0
  }

  function ConfigBit(w: string): bv32 {
    if w == "missingok" then 0x8 else if w == "noreplace" then 0x10 else 0
  }

  function AttributeBit(w: string): bv32 {
    if w == "%doc" then 0x2
    else if w == "%ghost" then 0x40
    else if w == "%license" then 0x80
    else if w == "%readme" then 0x100
    else if w == "%pubkey" then 0x800
    else if w == "%exclude" then 0x1_0000
    else if w == "%docdir" then 0x2_0000
    else if w == "%dir" then 0x4_0000
    else 0
  }

  lemma VerifyFlagIs(w: string)
    ensures Flag(VerifyAttrs(), w) == VerifyBit(w)
  {
    hide Flag;
    var t := VerifyAttrs();
    VerifyKeyed();
    TableFlags(t, 0);
    if forall i | 0 <= i < |t| :: t[i].0 != w {
      FlagNone(t, w);
      assert t[0].0 != w && t[1].0 != w && t[2].0 != w && t[3].0 != w && t[4].0 != w && t[5].0 != w && t[6].0 != w;
      assert t[7].0 != w && t[8].0 != w && t[9].0 != w && t[10].0 != w;
    }
  }

  lemma ConfigFlagIs(w: string)
    ensures Flag(ConfigAttrs(), w) == ConfigBit(w)
  {
    hide Flag;
    var t := ConfigAttrs();
    ConfigKeyed();
    TableFlags(t, 0);
    if forall i | 0 <= i < |t| :: t[i].0 != w {
      FlagNone(t, w);
      assert t[0].0 != w && t[1].0 != w;
    }
  }

  lemma AttributeFlagIs(w: string)
    ensures Flag(VirtualAttrs(), w) == AttributeBit(w)
  {
    hide Flag;
    var t := VirtualAttrs();
    VirtualKeyed();
    TableFlags(t, 2);
    if forall i | 0 <= i < |t| :: t[i].0 != w {
      FlagNone(t, w);
      assert t[0].0 != w && t[1].0 != w && t[2].0 != w && t[3].0 != w && t[4].0 != w && t[5].0 != w && t[6].0 != w;
      assert t[7].0 != w;
    }
  }

  // ----- %verify

  function Nots(ws: seq<string>): nat {
    if ws == [] then 0 else Nots(ws[1..]) + if ws[0] == "not" then 1 else 0
  }

  predicate GivesVerify(ws: seq<string>, b: bv32) {
    exists w | w in ws :: Has(VerifyBit(w), b)
  }

  /**
   The words of %verify are accepted exactly if each is "not" or names a flag. The flags are then those of
   the words, and they count as negated for an odd number of "not".
  */
  lemma {:induction false} VerifyWordsAre(ws: seq<string>, flags: bv32, negated: bool)
    ensures VerifyWords(ws, flags, negated).Some? <==> forall w | w in ws :: w == "not" || VerifyBit(w) != 0
    ensures VerifyWords(ws, flags, negated).Some? ==>
              var (f, n) := VerifyWords(ws, flags, negated).value;
              && n == (negated != (Nots(ws) % 2 == 1))
              && forall b :: Has(f, b) <==> Has(flags, b) || GivesVerify(ws, b)
    decreases |ws|
  {
    hide VerifyBit, Has, Plus, Flag, VerifyAttrs;
    if ws != [] {
      var w, rest := ws[0], ws[1..];
      var bit := VerifyBit(w);
      assert ws == [w] + rest;
      assert forall x :: x in ws <==> x == w || x in rest;
      VerifyNext(ws, flags, negated);
      VerifyFlagIs(w);
      NotNoFlag();
      if bit != 0 {
        VerifyWordsAre(rest, Plus(flags, bit), negated);
        forall b ensures Has(Plus(flags, bit), b) <==> Has(flags, b) || Has(bit, b) {
          HasPlus(flags, bit, b);
        }
      } else if w == "not" {
        VerifyWordsAre(rest, flags, !negated);
        forall b ensures !Has(bit, b) {
          HasNone(b);
        }
      }
    }
  }

  lemma NotNoFlag()
    ensures VerifyBit("not") == 0
  {
  }

  /** What %verify does to an entry: nothing without the directive, failure without both parentheses. */
  lemma VerifyRule(cut: Cut, e: FileEntry)
    ensures var r := VerifyEntry(cut, e);
            match cut
            case Absent => r == Some(e)
            case NoParen(_) => r.None?
            case Unclosed(_, _, _) => r.None?
            case Closed(_, _, _, _, args) =>
              var ws := Words(args);
              && (r.Some? <==> forall w | w in ws :: w == "not" || VerifyBit(w) != 0)
              && (r.Some? ==>
                    && r.value == e.(verify := r.value.verify, specd := r.value.specd)
                    && (forall b :: Has(r.value.specd, b) <==> Has(e.specd, b) || Has(0x1000, b))
                    && forall b | SingleBit(b) :: Has(r.value.verify, b) <==> GivesVerify(ws, b) != (Nots(ws) % 2 == 1))
  {
    hide Words, VerifyWords, Has, Plus, SingleBit, VerifyBit, GivesVerify, Nots;
    if cut.Closed? {
      var ws := Words(cut.args);
      VerifyWordsAre(ws, 0, false);
      var r := VerifyWords(ws, 0, false);
      if r.Some? {
        var (f, n) := r.value;
        forall b ensures Has(Plus(e.specd, 0x1000), b) <==> Has(e.specd, b) || Has(0x1000, b) {
          HasPlus(e.specd, 0x1000, b);
        }
        forall b | SingleBit(b) ensures Has(if n then !f else f, b) <==> GivesVerify(ws, b) != n {
          HasNone(b);
          HasNot(f, b);
        }
      }
    }
  }

  // ----- %config

  predicate GivesConfig(ws: seq<string>, b: bv32) {
    exists w | w in ws :: Has(ConfigBit(w), b)
  }

  lemma {:induction false} ConfigWordsAre(ws: seq<string>, flags: bv32)
    ensures ConfigWords(ws, flags).Some? <==> forall w | w in ws :: ConfigBit(w) != 0
    ensures ConfigWords(ws, flags).Some? ==>
              forall b :: Has(ConfigWords(ws, flags).value, b) <==> Has(flags, b) || GivesConfig(ws, b)
    decreases |ws|
  {
    hide ConfigBit, Has, Plus, Flag, ConfigAttrs;
    if ws != [] {
      var w, rest := ws[0], ws[1..];
      var bit := ConfigBit(w);
      assert ws == [w] + rest;
      assert forall x :: x in ws <==> x == w || x in rest;
      ConfigNext(ws, flags);
      ConfigFlagIs(w);
      if bit != 0 {
        ConfigWordsAre(rest, Plus(flags, bit));
        forall b ensures Has(Plus(flags, bit), b) <==> Has(flags, b) || Has(bit, b) {
          HasPlus(flags, bit, b);
        }
      }
    }
  }

  /** What %config does to an entry: it may stand alone, but an opened parenthesis must be closed. */
  lemma ConfigRule(cut: Cut, e: FileEntry)
    ensures var r := ConfigEntry(cut, e);
            match cut
            case Absent => r == Some(e)
            case Unclosed(_, _, _) => r.None?
            case NoParen(_) =>
              && r.Some? && r.value == e.(attrFlags := r.value.attrFlags)
              && forall b :: Has(r.value.attrFlags, b) <==> Has(e.attrFlags, b) || Has(0x1, b)
            case Closed(_, _, _, _, args) =>
              var ws := Words(args);
              && (r.Some? <==> forall w | w in ws :: ConfigBit(w) != 0)
              && (r.Some? ==>
                    && r.value == e.(attrFlags := r.value.attrFlags)
                    && forall b :: Has(r.value.attrFlags, b) <==>
                                   Has(e.attrFlags, b) || Has(0x1, b) || GivesConfig(ws, b))
  {
    hide Words, ConfigWords, Has, Plus, ConfigBit, GivesConfig;
    forall b ensures Has(AsConfig(e.attrFlags), b) <==> Has(e.attrFlags, b) || Has(0x1, b) {
      HasPlus(e.attrFlags, 0x1, b);
    }
    if cut.Closed? {
      ConfigWordsAre(Words(cut.args), AsConfig(e.attrFlags));
    }
  }

  // ----- %attr and %defattr

  /** An octal number as sscanf(3) takes it: with a sign or not, at least one digit. */
  predicate StartsOctal(w: string) {
    var u := if w != "" && w[0] in {'-', '+'} then w[1..] else w;
    u != "" && '0' <= u[0] <= '7'
  }

  predicate ModeWordOk(w: string) {
    w == "-" || StartsOctal(w)
  }

  lemma OctalIs(w: string)
    requires IsWord(w)
    ensures ScanOctal(w).Some? <==> StartsOctal(w)
  {
    assert w[0] in w && SkipSpace(w) == w;
    var u := if w[0] in {'-', '+'} then w[1..] else w;
    ReadSome(u);
  }

  lemma ReadSome(u: string)
    ensures |ReadDigits(u, 8, 0).1| == |u| <==> u == "" || !('0' <= u[0] <= '7')
  {
    if u != "" && '0' <= u[0] <= '7' {
      ReadShorter(u[1..], Times(0, 8) + DigitValue(u[0]));
    }
  }

  lemma {:induction false} ReadShorter(u: string, n: nat)
    ensures |ReadDigits(u, 8, n).1| <= |u|
  {
    if u != "" && DigitValue(u[0]) < 8 {
      ReadShorter(u[1..], Times(n, 8) + DigitValue(u[0]));
    }
  }

  /** Any octal number with a sign or none and with zeros in front, and anything but a digit behind it, is read. */
  lemma OctalValue(sign: string, m: nat, width: nat, rest: string)
    requires sign in ["", "+", "-"] && (rest == "" || !('0' <= rest[0] <= '7'))
    ensures ScanNumber(sign + Pad(Digits(m, 8), width) + rest) == Some(Unsigned(m, sign == "-"))
  {
    hide Digits, ReadDigits, Unsigned, Pad;
    var d := Pad(Digits(m, 8), width);
    var s := sign + d + rest;
    DigitsAre(m, 8);
    PadDigits(Digits(m, 8), width, 8);
    OctalToken(d);
    assert d[0] in d;
    assert sign != "" ==> s[0] == sign[0] && s[1..] == d + rest;
    assert sign == "" ==> s == d + rest;
    assert (d + rest)[0] == d[0];
    ReadPadded(Digits(m, 8), width, 8, rest);
    ReadPrinted(m, 8, rest);
    NoDigits(rest, 8, m);
  }

  /** It is taken modulo 2^32, negated for a minus sign; a number too large for 64 bits has all bits set. */
  lemma UnsignedIs(m: nat, minus: bool) returns (k: nat)
    ensures var v := Unsigned(m, minus);
            if m >= 0x1_0000_0000_0000_0000 then v == 0xFFFF_FFFF
            else if minus then v == k * 0x1_0000_0000 - m
            else v == m - k * 0x1_0000_0000
  {
    k := m / 0x1_0000_0000;
    if minus && m % 0x1_0000_0000 != 0 {
      k := k + 1;
    }
  }

  /**
   %attr takes three words and %defattr three or four. The first is the mode of files, the fourth the mode of
   directories, and a dash leaves an attribute unset.
  */
  lemma AttrWordsAre(ws: seq<string>, def: bool)
    requires forall w | w in ws :: IsWord(w)
    ensures AttrWords(ws, def).Some? <==>
            && (|ws| == 3 || (def && |ws| == 4))
            && ModeWordOk(ws[0]) && (|ws| == 4 ==> ModeWordOk(ws[3]))
    ensures AttrWords(ws, def).Some? ==>
              var ar := AttrWords(ws, def).value;
              && ar.user == (if ws[1] == "-" then None else Some(ws[1]))
              && ar.group == (if ws[2] == "-" then None else Some(ws[2]))
              && ar.fmodeSet == (ws[0] != "-") && ar.dmodeSet == (|ws| == 4 && ws[3] != "-")
              && (!ar.fmodeSet ==> ar.fmode == 0) && (!ar.dmodeSet ==> ar.dmode == 0)
              && (ar.fmodeSet ==> ScanOctal(ws[0]) == Some(ar.fmode))
              && (ar.dmodeSet ==> ScanOctal(ws[3]) == Some(ar.dmode))
  {
    hide ScanOctal, IsWord;
    if 3 <= |ws| <= 4 {
      assert ws[0] in ws;
      OctalIs(ws[0]);
      if |ws| == 4 {
        assert ws[3] in ws;
        OctalIs(ws[3]);
      }
    }
  }

  lemma {:induction false} WordsAre(s: string)
    ensures forall w | w in Words(s) :: IsWord(w)
    decreases |s|
  {
    var t := SkipWhite(s);
    if t != "" {
      var w := FirstWord(t);
      WordsAre(t[|w|..]);
    }
  }

  /** What %attr or %defattr does to an entry. Only white space may follow %defattr. */
  lemma AttrRule(s: string, def: bool, e: FileEntry)
    ensures var r := AttrEntry(s, def, e);
            match CutDirective(s, AttrName(def))
            case Absent => r == Some(e)
            case NoParen(_) => r.None?
            case Unclosed(_, _, args) => AttrGiven(args, def, e, r)
            case Closed(_, _, close, _, args) =>
              if def && exists i :: close < i < |s| && !IsSpace(s[i]) then r.None? else AttrGiven(args, def, e, r)
  {
    hide CutDirective, Words, AttrWords, Has, IsSpace, Plus;
    var cut := CutDirective(s, AttrName(def));
    CutLength(s, AttrName(def));
    if cut.Closed? {
      OnlySpace(s, cut.close + 1);
      AttrSetIs(cut.args, def, e);
    } else if cut.Unclosed? {
      AttrSetIs(cut.args, def, e);
    }
  }

  ghost predicate AttrGiven(args: string, def: bool, e: FileEntry, r: Option<FileEntry>) {
    var ar := AttrWords(Words(args), def);
    && (r.Some? <==> ar.Some?)
    && (r.Some? ==>
          && r.value == e.(ar := ar.value, specd := r.value.specd)
          && forall b :: Has(r.value.specd, b) <==> Has(e.specd, b) || Has(0xF00, b))
  }

  lemma AttrSetIs(args: string, def: bool, e: FileEntry)
    ensures AttrGiven(args, def, e, AttrSet(args, def, e))
  {
    hide Words, AttrWords, Has, Plus;
    assert SPECD_ATTR == 0xF00;
    forall b ensures Has(Plus(e.specd, 0xF00), b) <==> Has(e.specd, b) || Has(0xF00, b) {
      HasPlus(e.specd, 0xF00, b);
    }
  }

  lemma {:induction false} OnlySpace(s: string, i: nat)
    requires i <= |s|
    ensures SkipSpaceAt(s, i) < |s| <==> exists j :: i <= j < |s| && !IsSpace(s[j])
    ensures forall j | i <= j < SkipSpaceAt(s, i) :: IsSpace(s[j])
    decreases |s| - i
  {
    if i < |s| && IsSpace(s[i]) {
      OnlySpace(s, i + 1);
    }
  }

  // ----- %lang

  /** A locale of a proper length is put in its place, and only once; any other is an error. */
  lemma AddLangIs(langs: seq<string>, lang: string)
    requires Ascending(langs)
    ensures AddLang(langs, lang).None? <==> lang == "" || (|lang| == 1 && lang != "C") || |lang| >= 32
    ensures AddLang(langs, lang).Some? ==>
              var r := AddLang(langs, lang).value;
              Ascending(r) && forall l :: l in r <==> l in langs || l == lang
  {
    hide SortedIn, HeaderSpec.Before;
    if lang !in langs {
      SortedInIs(langs, lang);
    } else {
      assert forall l :: l in langs || l == lang <==> l in langs;
    }
  }

  lemma {:induction false} SortedInIs(langs: seq<string>, lang: string)
    requires Ascending(langs) && lang !in langs
    ensures Ascending(SortedIn(langs, lang)) && forall l :: l in SortedIn(langs, lang) <==> l in langs || l == lang
  {
    hide HeaderSpec.Before;
    if langs != [] {
      assert langs == [langs[0]] + langs[1..];
      if HeaderSpec.Before(lang, langs[0]) {
        forall j | 0 < j < |langs| ensures HeaderSpec.Before(lang, langs[j]) {
          DepSets.BeforeTrans(lang, langs[0], langs[j]);
        }
      } else {
        HeaderProofs.BeforeTotal(lang, langs[0]);
        assert Ascending(langs[1..]);
        SortedInIs(langs[1..], lang);
        var rest := SortedIn(langs[1..], lang);
        forall j | 0 <= j < |rest| ensures HeaderSpec.Before(langs[0], rest[j]) {
          assert rest[j] in rest;
        }
      }
    }
  }

  /** A blank behind the last locale is an error. */
  lemma BlankLocale(langs: seq<string>, n: nat)
    requires n > 0
    ensures LangWords(Spaces(n), langs).None?
  {
    hide Spaces;
    SkipAll(n);
  }

  lemma {:induction false} SkipAll(n: nat)
    ensures SkipWhite(Spaces(n)) == ""
  {
    if n > 0 {
      assert Spaces(n)[1..] == Spaces(n - 1);
      SkipAll(n - 1);
    }
  }

  // ----- the tokens behind the directives

  /**
   An attribute word adds its flag. Any other token is a file name; one that is not absolute is allowed only
   behind %pubkey, %doc or %license, and behind the last two it makes the line a special directory.
  */
  lemma SimpleTokenIs(r: Simple, token: string)
    ensures var r' := SimpleToken(r, token);
            if AttributeBit(token) != 0 then
              && r' == r.(flags := r'.flags)
              && forall b :: Has(r'.flags, b) <==> Has(r.flags, b) || Has(AttributeBit(token), b)
            else if token != "" && token[0] == '/' then r' == r.(names := r.names + [token])
            else if !(Has(r.flags, 0x800) || Has(r.flags, 0x2) || Has(r.flags, 0x80)) then r' == r.(ok := false)
            else
              && r' == r.(names := r.names + [token], flags := r'.flags)
              && forall b :: Has(r'.flags, b) <==>
                             Has(r.flags, b) || ((Has(r.flags, 0x2) || Has(r.flags, 0x80)) && Has(0x8_0000, b))
  {
    hide Flag, VirtualAttrs, Has, Plus, AttributeBit;
    AttributeFlagIs(token);
    MaskParts(r.flags);
    forall b ensures Has(Plus(r.flags, AttributeBit(token)), b) <==> Has(r.flags, b) || Has(AttributeBit(token), b) {
      HasPlus(r.flags, AttributeBit(token), b);
    }
    forall b ensures Has(Plus(r.flags, 0x8_0000), b) <==> Has(r.flags, b) || Has(0x8_0000, b) {
      HasPlus(r.flags, 0x8_0000, b);
    }
  }

  lemma MaskParts(flags: bv32)
    ensures RelativeAllowed(flags) <==> Has(flags, 0x800) || Has(flags, 0x2) || Has(flags, 0x80)
    ensures Special(flags) <==> Has(flags, 0x2) || Has(flags, 0x80)
  {
  }

  lemma {:induction false} UpToQuote(w: string, rest: string)
    requires '"' !in w && (rest != "" ==> rest[0] == '"')
    ensures UpTo(w + rest, true) == w
  {
    if w == "" {
      assert w + rest == rest;
    } else {
      assert w[0] in w && (w + rest)[0] == w[0] && (w + rest)[1..] == w[1..] + rest;
      UpToQuote(w[1..], rest);
    }
  }

  /** Any other token ends at a blank, a tab or a newline, and nowhere else. */
  lemma TokenEnds(w: string, c: char, rest: string)
    requires w != "" && w[0] != '"' && (forall x | x in w :: x !in " \t\n") && c in " \t\n"
    ensures NextToken(w + [c] + rest) == Some((w, rest))
  {
    hide UpTo;
    var s, tail := w + [c] + rest, [c] + rest;
    assert s == w + tail && w[0] in w && s[0] == w[0];
    assert tail[1..] == rest;
    assert SkipDelim(s) == s;
    UpToEnd(w, c, rest);
    assert s[|w| + 1..] == rest;
  }

  lemma {:induction false} UpToEnd(w: string, c: char, rest: string)
    requires (forall x | x in w :: x !in " \t\n") && c in " \t\n"
    ensures UpTo(w + ([c] + rest), false) == w
  {
    if w == "" {
      assert w + ([c] + rest) == [c] + rest;
    } else {
      assert w[0] in w && (w + ([c] + rest))[1..] == w[1..] + ([c] + rest);
      UpToEnd(w[1..], c, rest);
    }
  }

  /** White space, besides the blank: tab, newline, vertical tab, form feed and carriage return. */
  predicate Spacing(c: char) {
    c == ' ' || 9 <= c as int <= 13
  }

  /** The words of a directive end at white space or a comma, and nowhere else. */
  lemma WordEnds(w: string, c: char, rest: string)
    requires w != "" && (forall x | x in w :: !Spacing(x) && x != ',') && (Spacing(c) || c == ',')
    ensures Words(w + [c] + rest) == [w] + Words(rest)
  {
    hide Words;
    assert w + [c] + rest == w + ([c] + rest);
    WordsStep(w, [c] + rest);
    WordsWhite(c, rest);
  }

  /** A name in quotes is one token, blanks in it or not. */
  lemma QuotedToken(n: nat, w: string, rest: string)
    requires '"' !in w
    ensures NextToken(Spaces(n) + ("\"" + w + "\"" + rest)) == Some((w, rest))
  {
    hide Spaces, SkipDelim, UpTo;
    var s := "\"" + w + "\"" + rest;
    assert s[0] == '"' && !IsDelim('"');
    SkipDelims(n, s);
    assert s[1..] == w + ("\"" + rest);
    UpToQuote(w, "\"" + rest);
    assert (w + ("\"" + rest))[|w| + 1..] == rest;
  }

  // ----- where a directive is found

  predicate OccursAt(s: string, w: string, p: nat) {
    p + |w| <= |s| && s[p..p + |w|] == w
  }

  /** strstr finds the first occurrence, and one if there is any. */
  lemma {:induction false} FindStrIs(s: string, w: string)
    ensures var p := FindStr(s, w);
            && (p >= 0 ==> OccursAt(s, w, p) && forall q | 0 <= q < p :: !OccursAt(s, w, q))
            && (p < 0 ==> forall q: nat :: !OccursAt(s, w, q))
  {
    if w <= s {
      assert s[0..0 + |w|] == w;
    } else if s == "" {
    } else {
      FindStrIs(s[1..], w);
      forall q: nat | OccursAt(s, w, q) ensures q > 0 && OccursAt(s[1..], w, q - 1) {
        assert q > 0 ==> s[1..][q - 1..q - 1 + |w|] == s[q..q + |w|];
      }
    }
  }

  /** The first occurrence of the name is at p, and the first character behind it that is no blank at o. */
  ghost predicate FoundAt(s: string, name: string, p: nat, o: nat) {
    && OccursAt(s, name, p) && (forall q | 0 <= q < p :: !OccursAt(s, name, q))
    && p + |name| <= o <= |s| && (forall i | p + |name| <= i < o :: IsSpace(s[i])) && (o < |s| ==> !IsSpace(s[o]))
  }

  /** t is s with the characters in two ranges blanked. */
  ghost predicate Erased2(s: string, t: string, a: nat, b: nat, c: nat, d: nat) {
    |t| == |s| && forall i | 0 <= i < |s| :: t[i] == if a <= i < b || c <= i < d then ' ' else s[i]
  }

  /**
   What cutting a directive out of a line gives, said of the characters: the first occurrence of the name
   counts, white space may stand in front of the parenthesis, and the next closing one ends the arguments.
  */
  lemma CutSpelled(s: string, name: string) returns (p: nat, o: nat)
    requires name != ""
    ensures match CutDirective(s, name)
            case Absent => forall q: nat :: !OccursAt(s, name, q)
            case NoParen(rest) =>
              FoundAt(s, name, p, o) && (o == |s| || s[o] != '(') && Erased2(s, rest, p, p + |name|, 0, 0)
            case Unclosed(at, open, args) =>
              && FoundAt(s, name, p, o) && at == p && open == o < |s| && s[o] == '('
              && ')' !in s[o + 1..] && args == s[o + 1..]
            case Closed(at, open, close, rest, args) =>
              && FoundAt(s, name, p, o) && at == p && open == o < close < |s| && s[o] == '(' && s[close] == ')'
              && ')' !in s[o + 1..close] && args == s[o + 1..close]
              && Erased2(s, rest, p, p + |name|, o, close + 1)
  {
    hide FindStr, SkipSpaceAt, CloseAt, Blanked, OccursAt, IsSpace, FoundAt, Erased2;
    FindStrIs(s, name);
    var f := FindStr(s, name);
    p, o := 0, 0;
    if f >= 0 {
      p, o := f, SkipSpaceAt(s, f + |name|);
      FirstFound(s, name);
      if o < |s| && s[o] == '(' {
        var c := CloseAt(s, o + 1);
        if c < |s| {
          Erase(s, p, p + |name|, o, c + 1);
        }
      } else {
        Erase(s, p, p + |name|, 0, 0);
      }
    }
  }

  lemma FirstFound(s: string, name: string)
    requires name != "" && FindStr(s, name) >= 0
    ensures var f := FindStr(s, name); FoundAt(s, name, f, SkipSpaceAt(s, f + |name|))
  {
    hide FindStr, SkipSpaceAt, OccursAt, IsSpace;
    FindStrIs(s, name);
    OnlySpace(s, FindStr(s, name) + |name|);
  }

  lemma Erase(s: string, a: nat, b: nat, c: nat, d: nat)
    requires a <= b <= |s| && c <= d <= |s|
    ensures Erased2(s, Blanked(Blanked(s, a, b), c, d), a, b, c, d)
    ensures c == d ==> Erased2(s, Blanked(s, a, b), a, b, c, d)
  {
    hide Blanked;
    forall i | 0 <= i < |s|
      ensures Blanked(s, a, b)[i] == (if a <= i < b then ' ' else s[i])
      ensures Blanked(Blanked(s, a, b), c, d)[i] == if a <= i < b || c <= i < d then ' ' else s[i]
    {
      BlankedAt(s, a, b, i);
      BlankedAt(Blanked(s, a, b), c, d, i);
    }
  }

  // ----- a line spelled out

  /**
   What parsing a printed line leaves in the entry of the line, field by field. The bits 0x100 to 0x1000 say
   that the line itself gives the mode, the owner, the group or the verify flags, the bits 0x1 to 0x10 that the
   defaults do; defaults carry no bits above 0x1FFF, so that nothing else gets into them.
  */
  lemma LineSpelled(s: LineSpec, def: FileEntry)
    requires ValidSpec(s)
    ensures ParseText(PrintLine(s), def).Some?
    ensures var e := ParseText(PrintLine(s), def).value.cur;
            && e.verify == (match s.verify
                            case None => def.verify
                            case Some((negated, flags)) => if negated then !flags else flags)
            && e.ar.fmodeSet == (s.attr.Some? && s.attr.value.mode.Some?) && !e.ar.dmodeSet && e.ar.dmode == 0
            && e.ar.fmode == (if e.ar.fmodeSet then s.attr.value.mode.value as bv32 else 0)
            && e.ar.user == (if s.attr.Some? then s.attr.value.user else None)
            && e.ar.group == (if s.attr.Some? then s.attr.value.group else None)
            && e.langs == s.langs && e.caps == None && e.dev == None && e.isDir == 0
            && forall b :: Has(e.attrFlags, b) <==>
                           (s.config.Some? && (Has(0x1, b) || Has(s.config.value, b))) || Has(s.virtual, b)
    ensures var r := ParseText(PrintLine(s), def).value; r.def == def && r.names == [s.path]
  {
    hide PrintLine, ParseText, ValidSpec, EntryOf, Has;
    LineRoundTrip(s, def);
    FieldsSpelled(s, def);
    FlagsSpelled(s, def);
  }

  lemma FieldsSpelled(s: LineSpec, def: FileEntry)
    requires ValidSpec(s)
    ensures var e := EntryOf(s, def);
            && e.verify == (match s.verify
                            case None => def.verify
                            case Some((negated, flags)) => if negated then !flags else flags)
            && e.ar.fmodeSet == (s.attr.Some? && s.attr.value.mode.Some?) && !e.ar.dmodeSet && e.ar.dmode == 0
            && e.ar.fmode == (if e.ar.fmodeSet then s.attr.value.mode.value as bv32 else 0)
            && e.ar.user == (if s.attr.Some? then s.attr.value.user else None)
            && e.ar.group == (if s.attr.Some? then s.attr.value.group else None)
            && e.langs == s.langs && e.caps == None && e.dev == None && e.isDir == 0
  {
    hide Plus, StartEntry, SetVerify, SetAttr, SetConfig, ValidSpec, EntryOf, Down;
    SpecMode(s);
    Stages(s, def);
    StartIs(def);
    VerifySet(StartEntry(def), s.verify);
    AttrSetTo(SetVerify(StartEntry(def), s.verify), s.attr);
  }

  /** Each directive sets its own fields and leaves those of the others. */
  lemma Stages(s: LineSpec, def: FileEntry)
    requires s.attr.Some? && s.attr.value.mode.Some? ==> s.attr.value.mode.value < 0x1_0000_0000
    ensures var e, e0 := EntryOf(s, def), StartEntry(def);
            var e1 := SetVerify(e0, s.verify);
            var e2 := SetAttr(e1, s.attr);
            && e.verify == e1.verify && e.ar == e2.ar && e.specd == e2.specd && e.langs == s.langs
            && e.caps == e0.caps && e.dev == e0.dev && e.isDir == e0.isDir
            && e.attrFlags == Plus(SetConfig(e2, s.config).attrFlags, s.virtual) && e2.attrFlags == e0.attrFlags
  {
    hide Plus, StartEntry, SetVerify, SetAttr, SetConfig;
    var e0 := StartEntry(def);
    var e1 := SetVerify(e0, s.verify);
    VerifySet(e0, s.verify);
    AttrSetTo(e1, s.attr);
    ConfigSet(SetAttr(e1, s.attr), s.config);
  }

  lemma SpecMode(s: LineSpec)
    requires ValidSpec(s)
    ensures s.attr.Some? && s.attr.value.mode.Some? ==> s.attr.value.mode.value < 0x1_0000_0000
  {
    hide PlainPath, Inside, Locale, Ascending, Token;
  }

  lemma StartIs(def: FileEntry)
    ensures var e := StartEntry(def);
            && e.verify == def.verify && e.ar == AttrRec(false, false, None, None, 0, 0)
            && e.langs == [] && e.caps == None && e.dev == None && e.isDir == 0 && e.attrFlags == 0
            && e.specd == Down(def.specd)
  {
  }

  lemma VerifySet(e: FileEntry, v: Option<(bool, bv32)>)
    ensures var r := SetVerify(e, v);
            && r == e.(verify := r.verify, specd := r.specd)
            && r.specd == (if v.Some? then Plus(e.specd, 0x1000) else e.specd)
            && r.verify == match v
                           case None => e.verify
                           case Some((negated, flags)) => if negated then !flags else flags
  {
    hide Plus;
  }

  lemma AttrSetTo(e: FileEntry, a: Option<AttrSpec>)
    requires a.Some? && a.value.mode.Some? ==> a.value.mode.value < 0x1_0000_0000
    ensures var r := SetAttr(e, a);
            && r == e.(ar := r.ar, specd := r.specd)
            && r.specd == (if a.Some? then Plus(e.specd, 0xF00) else e.specd)
            && match a
               case None => r.ar == e.ar
               case Some(x) =>
                 && r.ar.fmodeSet == x.mode.Some? && !r.ar.dmodeSet && r.ar.dmode == 0
                 && r.ar.user == x.user && r.ar.group == x.group
                 && r.ar.fmode == if x.mode.Some? then x.mode.value as bv32 else 0
  {
    hide Plus;
    assert SPECD_ATTR == 0xF00;
  }

  lemma ConfigSet(e: FileEntry, c: Option<bv32>)
    ensures var r := SetConfig(e, c);
            && r == e.(attrFlags := r.attrFlags)
            && r.attrFlags == if c.Some? then Plus(Plus(e.attrFlags, 0x1), c.value) else e.attrFlags
  {
    hide Plus;
  }

  lemma FlagsSpelled(s: LineSpec, def: FileEntry)
    requires ValidSpec(s)
    ensures forall b :: Has(EntryOf(s, def).attrFlags, b) <==>
                        (s.config.Some? && (Has(0x1, b) || Has(s.config.value, b))) || Has(s.virtual, b)
  {
    hide Has, Plus, StartEntry, SetVerify, SetAttr, SetConfig, ValidSpec, EntryOf, Down;
    SpecMode(s);
    Stages(s, def);
    StartIs(def);
    ConfigSet(SetAttr(SetVerify(StartEntry(def), s.verify), s.attr), s.config);
    var c := if s.config.Some? then s.config.value else 0;
    var e := EntryOf(s, def);
    assert e.attrFlags == Plus(if s.config.Some? then Plus(Plus(0, 0x1), c) else 0, s.virtual);
    forall b ensures Has(e.attrFlags, b) <==>
                     (s.config.Some? && (Has(0x1, b) || Has(s.config.value, b))) || Has(s.virtual, b)
    {
      HasNone(b);
      HasPlus(0, 0x1, b);
      HasPlus(Plus(0, 0x1), c, b);
      HasPlus(Plus(Plus(0, 0x1), c), s.virtual, b);
      HasPlus(0, s.virtual, b);
    }
  }

  /** The same for the bits that say how explicitly each attribute is given. */
  lemma ExplicitSpelled(s: LineSpec, def: FileEntry)
    requires ValidSpec(s)
    ensures ParseText(PrintLine(s), def).Some?
    ensures var e, d := ParseText(PrintLine(s), def).value.cur.specd, def.specd;
            && (Has(e, 0x100) <==> s.attr.Some? || Has(d, 0x1_0000)) && (Has(e, 0x1) <==> Has(d, 0x100))
            && (Has(e, 0x200) <==> s.attr.Some? || Has(d, 0x2_0000)) && (Has(e, 0x2) <==> Has(d, 0x200))
            && (Has(e, 0x400) <==> s.attr.Some? || Has(d, 0x4_0000)) && (Has(e, 0x4) <==> Has(d, 0x400))
            && (Has(e, 0x800) <==> s.attr.Some? || Has(d, 0x8_0000)) && (Has(e, 0x8) <==> Has(d, 0x800))
            && (Has(e, 0x1000) <==> s.verify.Some? || Has(d, 0x10_0000)) && (Has(e, 0x10) <==> Has(d, 0x1000))
  {
    hide PrintLine, ParseText, ValidSpec, EntryOf, Has, Plus, GivenAs;
    LineRoundTrip(s, def);
    SpecMode(s);
    SpecdSpelled(s, def);
    Given(EntryOf(s, def).specd, def.specd, s.verify.Some?, s.attr.Some?);
  }

  /** The bits of the defaults in the place of those of a line. */
  function Down(d: bv32): bv32 {
    d >> 8
  }

  /** e is made of the bits of d, moved down, and those of the directives on the line. */
  ghost predicate GivenAs(e: bv32, d: bv32, verify: bool, attr: bool) {
    var d0 := Down(d);
    var d1 := if verify then Plus(d0, 0x1000) else d0;
    e == if attr then Plus(d1, 0xF00) else d1
  }

  lemma Given(e: bv32, d: bv32, verify: bool, attr: bool)
    requires GivenAs(e, d, verify, attr)
    ensures (Has(e, 0x100) <==> attr || Has(d, 0x1_0000)) && (Has(e, 0x1) <==> Has(d, 0x100))
    ensures (Has(e, 0x200) <==> attr || Has(d, 0x2_0000)) && (Has(e, 0x2) <==> Has(d, 0x200))
    ensures (Has(e, 0x400) <==> attr || Has(d, 0x4_0000)) && (Has(e, 0x4) <==> Has(d, 0x400))
    ensures (Has(e, 0x800) <==> attr || Has(d, 0x8_0000)) && (Has(e, 0x8) <==> Has(d, 0x800))
    ensures (Has(e, 0x1000) <==> verify || Has(d, 0x10_0000)) && (Has(e, 0x10) <==> Has(d, 0x1000))
  {
    hide Has, Plus, Down, GivenAs;
    ShiftLow(d);
    ShiftHigh(d);
    Literals();
    var d0 := Down(d);
    GivenBit(e, d, d0, verify, attr, 0x100);
    GivenBit(e, d, d0, verify, attr, 0x200);
    GivenBit(e, d, d0, verify, attr, 0x400);
    GivenBit(e, d, d0, verify, attr, 0x800);
    GivenBit(e, d, d0, verify, attr, 0x1000);
    GivenBit(e, d, d0, verify, attr, 0x1);
    GivenBit(e, d, d0, verify, attr, 0x2);
    GivenBit(e, d, d0, verify, attr, 0x4);
    GivenBit(e, d, d0, verify, attr, 0x8);
    GivenBit(e, d, d0, verify, attr, 0x10);
  }

  lemma GivenBit(e: bv32, d: bv32, d0: bv32, verify: bool, attr: bool, b: bv32)
    requires GivenAs(e, d, verify, attr) && d0 == Down(d)
    ensures Has(e, b) <==> Has(d0, b) || (verify && Has(0x1000, b)) || (attr && Has(0xF00, b))
  {
    hide Has, Plus, Down;
    HasPlus(d0, 0x1000, b);
    HasPlus(d0, 0xF00, b);
    HasPlus(Plus(d0, 0x1000), 0xF00, b);
  }

  lemma SpecdSpelled(s: LineSpec, def: FileEntry)
    requires ValidSpec(s)
    ensures GivenAs(EntryOf(s, def).specd, def.specd, s.verify.Some?, s.attr.Some?)
  {
    hide Plus, StartEntry, SetVerify, SetAttr, SetConfig, ValidSpec, EntryOf, Down;
    SpecMode(s);
    Stages(s, def);
    StartIs(def);
    VerifySet(StartEntry(def), s.verify);
    AttrSetTo(SetVerify(StartEntry(def), s.verify), s.attr);
  }

  lemma ShiftLow(d: bv32)
    ensures (Has(Down(d), 0x1) <==> Has(d, 0x100)) && (Has(Down(d), 0x2) <==> Has(d, 0x200))
    ensures (Has(Down(d), 0x4) <==> Has(d, 0x400)) && (Has(Down(d), 0x8) <==> Has(d, 0x800))
    ensures Has(Down(d), 0x10) <==> Has(d, 0x1000)
  {
  }

  lemma ShiftHigh(d: bv32)
    ensures (Has(Down(d), 0x100) <==> Has(d, 0x1_0000)) && (Has(Down(d), 0x200) <==> Has(d, 0x2_0000))
    ensures (Has(Down(d), 0x400) <==> Has(d, 0x4_0000)) && (Has(Down(d), 0x800) <==> Has(d, 0x8_0000))
    ensures Has(Down(d), 0x1000) <==> Has(d, 0x10_0000)
  {
  }

  lemma Literals()
    ensures Has(0xF00, 0x100) && Has(0xF00, 0x200) && Has(0xF00, 0x400) && Has(0xF00, 0x800) && !Has(0xF00, 0x1000)
    ensures Has(0x1000, 0x1000)
    ensures !Has(0x1000, 0x100) && !Has(0x1000, 0x200) && !Has(0x1000, 0x400) && !Has(0x1000, 0x800)
    ensures !Has(0x1000, 0x1) && !Has(0x1000, 0x2) && !Has(0x1000, 0x4) && !Has(0x1000, 0x8) && !Has(0x1000, 0x10)
    ensures !Has(0xF00, 0x1) && !Has(0xF00, 0x2) && !Has(0xF00, 0x4) && !Has(0xF00, 0x8) && !Has(0xF00, 0x10)
  {
  }

  // ----- any line at all

  /** The cuts of %verify, %defverify, %attr and %defattr, each on the line without the ones before. */
  function CutsOf(s: string): (Cut, Cut, Cut, Cut) {
    var v := CutDirective(s, "%verify");
    var s1 := Remaining(v, s);
    var dv := CutDirective(s1, "%defverify");
    var s2 := Remaining(dv, s1);
    var a := CutDirective(s2, "%attr");
    var s3 := Remaining(a, s2);
    (v, dv, a, CutDirective(s3, "%defattr"))
  }

  ghost predicate ArOf(cut: Cut, def: bool, before: AttrRec, ar: AttrRec) {
    match cut
    case Absent => ar == before
    case NoParen(_) => false
    case Unclosed(_, _, args) => AttrWords(Words(args), def) == Some(ar)
    case Closed(_, _, _, _, args) => AttrWords(Words(args), def) == Some(ar)
  }

  /**
   On every line that is accepted each directive sets its own fields and no others: those without "def" in the
   entry of the line, on top of the defaults from before the line, and those with it in the defaults.
  */
  lemma LineFields(s: string, def: FileEntry)
    requires ParseText(s, def).Some?
    ensures var r := ParseText(s, def).value;
            var (v, dv, a, da) := CutsOf(s);
            && VerifyEntry(v, def).Some? && r.cur.verify == VerifyEntry(v, def).value.verify
            && VerifyEntry(dv, def).Some? && r.def == def.(verify := VerifyEntry(dv, def).value.verify, ar := r.def.ar,
                                                           specd := r.def.specd)
            && ArOf(a, false, AttrRec(false, false, None, None, 0, 0), r.cur.ar) && ArOf(da, true, def.ar, r.def.ar)
            && (forall b :: Has(r.cur.specd, b) <==>
                  Has(Down(def.specd), b) || (!v.Absent? && Has(0x1000, b)) || (!a.Absent? && Has(0xF00, b)))
            && (forall b :: Has(r.def.specd, b) <==>
                  Has(def.specd, b) || (!dv.Absent? && Has(0x1000, b)) || (!da.Absent? && Has(0xF00, b)))
  {
    hide CutDirective, Remaining, VerifyEntry, AttrEntry, ParseRest, Has, StartEntry, ArOf, Down;
    StartIs(def);
    var (v, dv, a, da) := CutsOf(s);
    var s2 := Remaining(dv, Remaining(v, s));
    var s3 := Remaining(a, s2);
    var e0 := StartEntry(def);
    VerifyField(v, e0);
    VerifySame(v, e0, def);
    VerifyField(dv, def);
    var e1, d1 := VerifyEntry(v, e0).value, VerifyEntry(dv, def).value;
    AttrField(s2, false, e1);
    AttrField(s3, true, d1);
    RestField(Remaining(da, s3), AttrEntry(s2, false, e1).value, AttrEntry(s3, true, d1).value);
  }

  lemma VerifyField(cut: Cut, e: FileEntry)
    ensures VerifyEntry(cut, e).Some? ==>
              var r := VerifyEntry(cut, e).value;
              && r == e.(verify := r.verify, specd := r.specd)
              && forall b :: Has(r.specd, b) <==> Has(e.specd, b) || (!cut.Absent? && Has(0x1000, b))
  {
    hide Has, Plus, VerifyWords, Words;
    if cut.Closed? {
      forall b ensures Has(Plus(e.specd, 0x1000), b) <==> Has(e.specd, b) || Has(0x1000, b) {
        HasPlus(e.specd, 0x1000, b);
      }
    }
  }

  lemma VerifySame(cut: Cut, e: FileEntry, x: FileEntry)
    requires e.verify == x.verify && VerifyEntry(cut, e).Some?
    ensures VerifyEntry(cut, x).Some? && VerifyEntry(cut, x).value.verify == VerifyEntry(cut, e).value.verify
  {
    hide Plus, VerifyWords, Words;
  }

  lemma AttrField(s: string, def: bool, e: FileEntry)
    ensures AttrEntry(s, def, e).Some? ==>
              var r, cut := AttrEntry(s, def, e).value, CutDirective(s, AttrName(def));
              && r == e.(ar := r.ar, specd := r.specd) && ArOf(cut, def, e.ar, r.ar)
              && forall b :: Has(r.specd, b) <==> Has(e.specd, b) || (!cut.Absent? && Has(0xF00, b))
  {
    hide CutDirective, Words, AttrWords, Has, Plus, SkipSpaceAt, AttrSet;
    var cut := CutDirective(s, AttrName(def));
    CutLength(s, AttrName(def));
    match cut
    case Absent =>
    case NoParen(_) =>
    case Unclosed(_, _, args) => AttrSetIs(args, def, e);
    case Closed(_, _, _, _, args) => AttrSetIs(args, def, e);
  }

  lemma RestField(s: string, e: FileEntry, def: FileEntry)
    ensures ParseRest(s, e, def).Some? ==>
              var r := ParseRest(s, e, def).value;
              r.def == def && r.cur.verify == e.verify && r.cur.ar == e.ar && r.cur.specd == e.specd
  {
    hide CutDirective, ConfigWords, Words, LangAll, SimpleTokens, AsConfig;
  }
}
