/** Cutting the directives off a line of directives and a path, one after the other. */
module LineProofs {
  import opened CStrings
  import opened Numbers
  import opened LineText

  // ----- a line of directives

  /** %word(args), or just %word. */
  datatype Piece = Args(word: string, args: string) | Bare(word: string)

  function Show(p: Piece): string {
    "%" + p.word + match p case Args(_, args) => "(" + args + ")" case Bare(_) => ""
  }

  function Body(ps: seq<Piece>, path: string): string {
    if ps == [] then path else Show(ps[0]) + " " + Body(ps[1..], path)
  }

  /** Blanks where directives have been parsed, the directives that are left, and the path. */
  function LineOf(k: nat, ps: seq<Piece>, path: string): string {
    Spaces(k) + Body(ps, path)
  }

  predicate PlainChar(c: char) {
    c != '%' && c != '(' && c != ')' && !IsSpace(c) && c != NUL
  }

  ghost predicate PlainWord(w: string) {
    w != "" && forall c | c in w :: PlainChar(c)
  }

  ghost predicate PlainArgs(s: string) {
    forall c | c in s :: c != '%' && c != ')' && c != NUL
  }

  ghost predicate ValidPiece(p: Piece) {
    PlainWord(p.word) && (p.Args? ==> PlainArgs(p.args))
  }

  /** An absolute path without blanks, percent signs and quotes. */
  ghost predicate PlainPath(path: string) {
    path != "" && path[0] == '/' && forall c | c in path :: c != '%' && c != '"' && !IsSpace(c) && c != NUL
  }

  ghost predicate ValidLine(ps: seq<Piece>, path: string) {
    (forall p | p in ps :: ValidPiece(p)) && PlainPath(path)
  }

  // ----- searching a line

  lemma {:induction false} FindSkip(a: string, b: string, w: string)
    requires w != "" && w[0] !in a
    ensures FindStr(a + b, w) == if FindStr(b, w) < 0 then -1 else |a| + FindStr(b, w)
  {
    if a == "" {
      assert a + b == b;
    } else {
      assert (a + b)[0] == a[0] && (a + b)[1..] == a[1..] + b;
      assert a[0] in a;
      FindSkip(a[1..], b, w);
    }
  }

  lemma {:induction false} FindNone(s: string, w: string)
    requires w != "" && w[0] !in s
    ensures FindStr(s, w) == -1
  {
    if s != "" {
      assert s[0] in s;
      FindNone(s[1..], w);
    }
  }

  /** Behind its percent sign, a piece has no other one. */
  lemma PieceTail(p: Piece)
    requires ValidPiece(p)
    ensures Show(p) != "" && Show(p)[0] == '%' && '%' !in Show(p)[1..] + " "
    ensures p.word <= Show(p)[1..] && (|p.word| < |Show(p)| - 1 ==> Show(p)[1 + |p.word|] == '(')
  {
    var tail := match p case Args(_, args) => "(" + args + ")" case Bare(_) => "";
    assert Show(p)[1..] == p.word + tail;
  }

  /** A name that starts no piece is not found in the line. */
  lemma {:induction false} FindAbsent(k: nat, ps: seq<Piece>, path: string, name: string)
    requires ValidLine(ps, path) && PlainWord(name) && forall p | p in ps :: !(name <= p.word)
    ensures FindStr(LineOf(k, ps, path), "%" + name) == -1
    decreases |ps|
  {
    hide FindStr, Show, Spaces, PlainChar;
    var w := "%" + name;
    NoPercent(k);
    FindSkip(Spaces(k), Body(ps, path), w);
    if ps == [] {
      FindNone(path, w);
    } else {
      var p, rest := ps[0], ps[1..];
      assert p in ps && forall x | x in rest :: x in ps;
      FindAbsent(0, rest, path, name);
      NoSpaces(Body(rest, path));
      PieceTail(p);
      var tail := Show(p)[1..] + " ";
      FindSkip(tail, Body(rest, path), w);
      NotHere(p, Body(rest, path), name);
      assert Body(ps, path)[1..] == tail + Body(rest, path);
      FindLater(Body(ps, path), w);
    }
  }

  lemma NoPercent(k: nat)
    ensures '%' !in Spaces(k)
  {
  }

  lemma NoSpaces(s: string)
    ensures Spaces(0) + s == s
  {
  }

  lemma FindLater(s: string, w: string)
    requires s != "" && !(w <= s) && FindStr(s[1..], w) == -1
    ensures FindStr(s, w) == -1
  {
  }

  lemma NotHere(p: Piece, rest: string, name: string)
    requires ValidPiece(p) && PlainWord(name) && !(name <= p.word)
    ensures !("%" + name <= Show(p) + " " + rest)
  {
    PieceTail(p);
    var s, w, n := Show(p) + " " + rest, "%" + name, |p.word|;
    assert s[1..][..n] == p.word && !PlainChar(s[1 + n]);
    forall i | 0 <= i < |name| && w <= s ensures s[1 + i] == name[i] && PlainChar(s[1 + i]) {
      assert w[1 + i] == name[i] && name[i] in name;
    }
  }

  /** The first directive is found where it starts. */
  lemma FindFirst(k: nat, ps: seq<Piece>, path: string)
    requires ps != [] && PlainWord(ps[0].word)
    ensures FindStr(LineOf(k, ps, path), "%" + ps[0].word) == k
  {
    hide Spaces;
    var w := "%" + ps[0].word;
    NoPercent(k);
    FindSkip(Spaces(k), Body(ps, path), w);
    assert w <= Body(ps, path);
  }

  // ----- cutting a directive off

  lemma CutAbsent(k: nat, ps: seq<Piece>, path: string, name: string)
    requires ValidLine(ps, path) && PlainWord(name) && forall p | p in ps :: !(name <= p.word)
    ensures CutDirective(LineOf(k, ps, path), "%" + name) == Absent
  {
    hide FindStr, SkipSpaceAt, CloseAt, LineOf;
    FindAbsent(k, ps, path, name);
  }

  lemma {:induction false} CloseIs(s: string, i: nat, c: nat)
    requires i <= c < |s| && s[c] == ')' && ')' !in s[i..c]
    ensures CloseAt(s, i) == c
    decreases c - i
  {
    if i < c {
      assert s[i] == s[i..c][0] && s[i + 1..c] == s[i..c][1..];
      CloseIs(s, i + 1, c);
    }
  }

  lemma CutFirst(k: nat, ps: seq<Piece>, path: string)
    requires ValidLine(ps, path) && ps != [] && ps[0].Args?
    ensures var n := |ps[0].word| + |ps[0].args| + 3;
            CutDirective(LineOf(k, ps, path), "%" + ps[0].word) ==
            Closed(k, k + 1 + |ps[0].word|, k + n - 1, LineOf(k + n + 1, ps[1..], path), ps[0].args)
  {
    hide FindStr, CloseAt, PlainChar, SkipSpaceAt, LineOf, Spaces, Blanked, CutDirective, Body, Show;
    var p := ps[0];
    assert p in ps;
    var s, w, rest := LineOf(k, ps, path), "%" + p.word, Body(ps[1..], path);
    FindFirst(k, ps, path);
    ArgsShape(k, ps, path);
    var o := k + |w|;
    var c := o + 1 + |p.args|;
    NoSkip(s, o);
    CloseIs(s, o + 1, c);
    CutIs(s, w, k, o, c);
    Erased(k, w, p.args, rest, s);
  }

  lemma ArgsShape(k: nat, ps: seq<Piece>, path: string)
    requires ps != [] && ps[0].Args? && ValidPiece(ps[0])
    ensures var s, w, args, rest := LineOf(k, ps, path), "%" + ps[0].word, ps[0].args, Body(ps[1..], path);
            var o := k + |w|;
            && s == Spaces(k) + w + "(" + args + ")" + (" " + rest) && |s| > o + |args| + 1
            && s[o] == '(' && s[o + 1..o + 1 + |args|] == args && s[o + 1 + |args|] == ')' && ')' !in args
            && LineOf(o + |args| + 3, ps[1..], path) == Spaces(o + |args| + 3) + rest
  {
    hide PlainChar, Spaces;
    var s, w, args, rest := LineOf(k, ps, path), "%" + ps[0].word, ps[0].args, Body(ps[1..], path);
    assert s == Spaces(k) + w + "(" + args + ")" + (" " + rest);
  }

  lemma NoSkip(s: string, o: nat)
    requires o < |s| && s[o] == '('
    ensures SkipSpaceAt(s, o) == o
  {
  }

  lemma Erased(k: nat, w: string, args: string, rest: string, s: string)
    requires s == Spaces(k) + w + "(" + args + ")" + (" " + rest)
    ensures var o := k + |w|;
            Blanked(Blanked(s, k, o), o, o + |args| + 2) == Spaces(o + |args| + 3) + rest
  {
    var o := k + |w|;
    var r := Blanked(Blanked(s, k, o), o, o + |args| + 2);
    assert s[o + |args| + 3..] == rest;
    forall i | 0 <= i < |s| ensures r[i] == (Spaces(o + |args| + 3) + rest)[i] {
      BlankedAt(s, k, o, i);
      BlankedAt(Blanked(s, k, o), o, o + |args| + 2, i);
      if i >= o + |args| + 3 {
        assert s[i] == rest[i - (o + |args| + 3)];
      }
    }
  }

  /** A bare directive, followed by another directive or the path, has no parenthesis. */
  lemma CutBare(k: nat, ps: seq<Piece>, path: string)
    requires ValidLine(ps, path) && ps != [] && ps[0].Bare?
    ensures CutDirective(LineOf(k, ps, path), "%" + ps[0].word) == NoParen(LineOf(k + |ps[0].word| + 2, ps[1..], path))
  {
    hide FindStr, CloseAt, PlainChar, SkipSpaceAt, LineOf, Spaces, Blanked, CutDirective, Body, Show;
    var p := ps[0];
    assert p in ps;
    var s, w, rest := LineOf(k, ps, path), "%" + p.word, Body(ps[1..], path);
    FindFirst(k, ps, path);
    BareShape(k, ps, path);
    var o := k + |w|;
    BodyStart(ps[1..], path);
    SkipOne(s, o);
    CutIs(s, w, k, o + 1, 0);
    ErasedWord(k, w, rest, s);
  }

  lemma BareShape(k: nat, ps: seq<Piece>, path: string)
    requires ps != [] && ps[0].Bare? && PlainPath(path)
    ensures var s, w, rest := LineOf(k, ps, path), "%" + ps[0].word, Body(ps[1..], path);
            var o := k + |w|;
            && s == Spaces(k) + w + " " + rest && o + 1 < |s| && s[o] == ' ' && s[o + 1] == rest[0]
            && LineOf(o + 1, ps[1..], path) == Spaces(o + 1) + rest && rest != ""
  {
    hide PlainChar, Spaces;
    var s, w, rest := LineOf(k, ps, path), "%" + ps[0].word, Body(ps[1..], path);
    BodyStart(ps[1..], path);
    assert s == Spaces(k) + w + " " + rest;
  }

  lemma ErasedWord(k: nat, w: string, rest: string, s: string)
    requires s == Spaces(k) + w + " " + rest
    ensures k + |w| <= |s| && Blanked(s, k, k + |w|) == Spaces(k + |w| + 1) + rest
  {
    var o := k + |w|;
    forall i | 0 <= i < |s| ensures Blanked(s, k, o)[i] == (Spaces(o + 1) + rest)[i] {
      BlankedAt(s, k, o, i);
    }
  }

  lemma BodyStart(ps: seq<Piece>, path: string)
    requires PlainPath(path)
    ensures Body(ps, path) != "" && Body(ps, path)[0] in {'%', '/'}
  {
  }

  lemma SkipOne(s: string, o: nat)
    requires o + 1 < |s| && s[o] == ' ' && !IsSpace(s[o + 1])
    ensures SkipSpaceAt(s, o) == o + 1
  {
  }
}
