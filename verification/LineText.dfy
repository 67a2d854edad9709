/** The text of a %files line: directives are searched for, and blanked in place once they are parsed. */
module LineText {
  import opened CStrings
  import opened Numbers

  // ----- searching and blanking

  function Spaces(n: nat): (s: string)
    ensures |s| == n && forall i | 0 <= i < n :: s[i] == ' '
  {
    seq(n, _ => ' ')
  }

  /** s with the characters from i up to j blanked. */
  function Blanked(s: seq<char>, i: nat, j: nat): (r: seq<char>)
    requires i <= j <= |s|
    ensures |r| == |s|
  {
    s[..i] + Spaces(j - i) + s[j..]
  }

  /** strstr(s, w) as an index; -1 when w does not occur. */
  function FindStr(s: string, w: string): (p: int)
    ensures p >= -1
    ensures p >= 0 ==> p + |w| <= |s| && s[p..p + |w|] == w
  {
    if w <= s then 0
    else if s == "" then -1
    else
      var p := FindStr(s[1..], w);
      if p < 0 then -1 else p + 1
  }

  /** The first position from i on that is no white space. */
  function SkipSpaceAt(s: string, i: nat): (j: nat)
    requires i <= |s|
    ensures i <= j <= |s| && (j < |s| ==> !IsSpace(s[j]))
    decreases |s| - i
  {
    if i < |s| && IsSpace(s[i]) then SkipSpaceAt(s, i + 1) else i
  }

  /** The first closing parenthesis from i on, or the end. */
  function CloseAt(s: string, i: nat): (j: nat)
    requires i <= |s|
    ensures i <= j <= |s| && (j < |s| ==> s[j] == ')') && ')' !in s[i..j]
    decreases |s| - i
  {
    if i < |s| && s[i] != ')' then CloseAt(s, i + 1) else i
  }

  /**
   A directive of a line: at is where its name starts, open and close are its parentheses, rest is the line
   with the directive blanked.
  */
  datatype Cut =
    | Absent
    | NoParen(rest: string)
    | Unclosed(at: nat, open: nat, args: string)
    | Closed(at: nat, open: nat, close: nat, rest: string, args: string)

  /** The line after a cut. */
  function Remaining(cut: Cut, s: string): string {
    match cut
    case NoParen(rest) => rest
    case Closed(_, _, _, rest, _) => rest
    case _ => s
  }

  function CutDirective(s: string, name: string): Cut {
    var p := FindStr(s, name);
    if p < 0 then Absent
    else
      var o := SkipSpaceAt(s, p + |name|);
      if o == |s| || s[o] != '(' then NoParen(Blanked(s, p, p + |name|))
      else
        var c := CloseAt(s, o + 1);
        if c == |s| then Unclosed(p, o, s[o + 1..])
        else Closed(p, o, c, Blanked(Blanked(s, p, p + |name|), o, c + 1), s[o + 1..c])
  }

  /** A NUL-terminated line in a buffer. */
  ghost predicate IsLine(b: seq<char>) {
    |CStr(b)| < |b|
  }

  lemma LineIs(b: seq<char>)
    requires IsLine(b)
    ensures var s := CStr(b); |s| < |b| && b[..|s|] == s && b[|s|] == NUL && NoNul(s)
  {
  }

  method Blank(buf: array<char>, i: nat, j: nat)
    requires i <= j <= buf.Length
    modifies buf
    ensures buf[..] == Blanked(old(buf[..]), i, j)
  {
    var k := i;
    while k < j
      invariant i <= k <= j
      invariant forall m | 0 <= m < buf.Length :: buf[m] == if i <= m < k then ' ' else old(buf[m])
    {
      buf[k] := ' ';
      k := k + 1;
    }
  }

  /** Blanking within the line leaves a line of the same length. */
  lemma BlankedLine(b: seq<char>, i: nat, j: nat)
    requires IsLine(b) && i <= j <= |CStr(b)|
    ensures IsLine(Blanked(b, i, j)) && CStr(Blanked(b, i, j)) == Blanked(CStr(b), i, j)
  {
    hide CStr, Blanked, Spaces;
    var s := CStr(b);
    LineIs(b);
    var r, t := Blanked(s, i, j), Blanked(b, i, j);
    forall k | 0 <= k < |b| ensures t[k] == (if i <= k < j then ' ' else b[k]) && (k < |s| ==> b[k] == s[k]) {
      BlankedAt(b, i, j, k);
    }
    forall k | 0 <= k < |s| ensures r[k] == t[k] && r[k] != NUL {
      BlankedAt(s, i, j, k);
      assert s[k] in s;
    }
    assert t[..|s|] == r;
    CStrIs(t, r);
  }

  /** The line without the name of a directive and its opening parenthesis. */
  function Opening(s: string, at: nat, end: nat, open: nat): (r: string)
    requires at <= end <= open < |s|
    ensures |r| == |s|
  {
    Blanked(Blanked(s, at, end), open, open + 1)
  }

  lemma BlankedTwice(s: string, i: nat, j: nat, k: nat)
    requires i <= j <= k <= |s|
    ensures Blanked(Blanked(s, i, j), i, k) == Blanked(s, i, k)
  {
    hide Blanked;
    var a, b := Blanked(Blanked(s, i, j), i, k), Blanked(s, i, k);
    forall m | 0 <= m < |s| ensures a[m] == b[m] {
      BlankedAt(s, i, j, m);
      BlankedAt(Blanked(s, i, j), i, k, m);
      BlankedAt(s, i, k, m);
    }
  }

  lemma BlankedAt(s: seq<char>, i: nat, j: nat, k: nat)
    requires i <= j <= |s| && k < |s|
    ensures Blanked(s, i, j)[k] == if i <= k < j then ' ' else s[k]
  {
  }

  lemma CutNone(s: string, name: string)
    requires FindStr(s, name) < 0
    ensures CutDirective(s, name) == Absent
  {
  }

  /** The cut of a directive whose name starts at p, with no white space from o on and a parenthesis at c. */
  lemma CutIs(s: string, name: string, p: nat, o: nat, c: nat)
    requires FindStr(s, name) == p && SkipSpaceAt(s, p + |name|) == o
    requires o < |s| && s[o] == '(' ==> c == CloseAt(s, o + 1)
    ensures p + |name| <= o <= |s|
    ensures CutDirective(s, name) ==
            if o == |s| || s[o] != '(' then NoParen(Blanked(s, p, p + |name|))
            else if c == |s| then Unclosed(p, o, s[o + 1..])
            else Closed(p, o, c, Blanked(Blanked(s, p, p + |name|), o, c + 1), s[o + 1..c])
  {
    hide FindStr, SkipSpaceAt, CloseAt, Blanked;
  }

  method SkipSpaces(s: string, i: nat) returns (pe: nat)
    requires i <= |s|
    ensures pe == SkipSpaceAt(s, i)
  {
    pe := i;
    while pe < |s| && IsSpace(s[pe])
      invariant i <= pe <= |s| && SkipSpaceAt(s, i) == SkipSpaceAt(s, pe)
    {
      pe := pe + 1;
    }
  }

  method FindClose(s: string, i: nat) returns (pe: nat)
    requires i <= |s|
    ensures pe == CloseAt(s, i)
  {
    pe := i;
    while pe < |s| && s[pe] != ')'
      invariant i <= pe <= |s| && CloseAt(s, i) == CloseAt(s, pe)
    {
      pe := pe + 1;
    }
  }

  /**
   What the directive parsers have in common: the name is searched for and blanked, and so is the
   parenthesis behind it with all it encloses.
  */
  method CutInPlace(buf: array<char>, name: string) returns (cut: Cut)
    requires IsLine(buf[..])
    modifies buf
    ensures IsLine(buf[..]) && cut == old(CutDirective(CStr(buf[..]), name))
    ensures cut.Unclosed? ==> cut.at + |name| <= cut.open < |old(CStr(buf[..]))|
    ensures CStr(buf[..]) == if cut.Unclosed? then Opening(old(CStr(buf[..])), cut.at, cut.at + |name|, cut.open)
                             else Remaining(cut, old(CStr(buf[..])))
  {
    hide CStr, Blanked, IsLine, Spaces, CutDirective, IsSpace, SkipSpaceAt, CloseAt, FindStr;
    ghost var b := buf[..];
    LineIs(b);
    var s := CStr(buf[..]);
    var p := FindStr(s, name);
    if p < 0 {
      CutNone(s, name);
      return Absent;
    }
    Blank(buf, p, p + |name|);
    BlankedLine(b, p, p + |name|);
    var pe := SkipSpaces(s, p + |name|);
    if pe == |s| || s[pe] != '(' {
      CutIs(s, name, p, pe, 0);
      return NoParen(CStr(buf[..]));
    }
    var open := pe;
    ghost var b1 := buf[..];
    Blank(buf, open, open + 1);
    BlankedLine(b1, open, open + 1);
    pe := FindClose(s, pe + 1);
    if pe == |s| {
      CutIs(s, name, p, open, pe);
      return Unclosed(p, open, s[open + 1..]);
    }
    CutIs(s, name, p, open, pe);
    ghost var b2 := buf[..];
    Blank(buf, open, pe + 1);
    BlankedLine(b2, open, pe + 1);
    BlankedTwice(Blanked(s, p, p + |name|), open, open + 1, pe + 1);
    return Closed(p, open, pe, CStr(buf[..]), s[open + 1..pe]);
  }

  // ----- words

  predicate IsWhite(c: char) {
    IsSpace(c) || c == ','
  }

  /** The text without white space and commas in front (SKIPWHITE). */
  function SkipWhite(s: string): (r: string)
    ensures |r| <= |s| && (r != "" ==> !IsWhite(r[0]))
  {
    if s != "" && IsWhite(s[0]) then SkipWhite(s[1..]) else s
  }

  /** The text up to white space or a comma (SKIPNONWHITE). */
  function FirstWord(s: string): (w: string)
    ensures w <= s && (s != "" && !IsWhite(s[0]) ==> w != "")
    ensures forall c | c in w :: !IsWhite(c)
    ensures |w| < |s| ==> IsWhite(s[|w|])
  {
    if s == "" || IsWhite(s[0]) then "" else [s[0]] + FirstWord(s[1..])
  }

  function Words(s: string): seq<string>
    decreases |s|
  {
    var t := SkipWhite(s);
    if t == "" then []
    else
      var w := FirstWord(t);
      [w] + Words(t[|w|..])
  }

  /** The words w of a list, separated by sep. */
  function JoinWords(ws: seq<string>, sep: char): string {
    if ws == [] then "" else if |ws| == 1 then ws[0] else ws[0] + [sep] + JoinWords(ws[1..], sep)
  }

  ghost predicate IsWord(w: string) {
    w != "" && forall c | c in w :: !IsWhite(c)
  }

  lemma {:induction false} FirstWordIs(w: string, rest: string)
    requires IsWord(w) && (rest != "" ==> IsWhite(rest[0]))
    ensures FirstWord(w + rest) == w && (w + rest)[|w|..] == rest && SkipWhite(w + rest) == w + rest
  {
    assert w[0] in w && (w + rest)[0] == w[0] && (w + rest)[1..] == w[1..] + rest;
    if |w| > 1 {
      FirstWordIs(w[1..], rest);
    } else {
      assert w[1..] + rest == rest;
    }
  }

  lemma WordsStep(w: string, rest: string)
    requires IsWord(w) && (rest != "" ==> IsWhite(rest[0]))
    ensures Words(w + rest) == [w] + Words(rest)
  {
    hide FirstWord, SkipWhite, IsWhite;
    FirstWordIs(w, rest);
  }

  lemma WordsWhite(sep: char, rest: string)
    requires IsWhite(sep)
    ensures Words([sep] + rest) == Words(rest)
  {
    hide FirstWord, IsWhite;
    assert ([sep] + rest)[1..] == rest;
  }

  lemma NoWords()
    ensures Words("") == []
  {
  }

  /** Words joined by a separator are read back. */
  lemma {:induction false} WordsBack(ws: seq<string>, sep: char)
    requires IsWhite(sep) && forall w | w in ws :: IsWord(w)
    ensures Words(JoinWords(ws, sep)) == ws
    decreases |ws|
  {
    hide Words, IsWord;
    if ws == [] {
      NoWords();
    } else {
      var w := ws[0];
      assert w in ws && forall x | x in ws[1..] :: x in ws;
      if |ws| == 1 {
        WordsStep(w, "");
        NoWords();
        assert w + "" == w && ws == [w];
      } else {
        var rest := [sep] + JoinWords(ws[1..], sep);
        WordsStep(w, rest);
        WordsBack(ws[1..], sep);
        assert JoinWords(ws, sep) == w + rest;
        WordsWhite(sep, JoinWords(ws[1..], sep));
      }
    }
  }
}
