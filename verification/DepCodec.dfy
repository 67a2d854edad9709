/** The textual keys under which the dependencies of each file are collected (daemon/rpmfc.c). */
module DepCodec {
  import opened CStrings
  import opened Numbers

  /** Name, version and flags of a dependency; the flags are a 32-bit word. */
  datatype Dep = Dep(name: string, evr: string, flags: nat)

  /** A key taken apart: file number, type character and dependency. */
  datatype Decoded = Decoded(file: int, deptype: char, dep: Dep)

  const TWO_31 := 0x8000_0000
  const TWO_32 := 0x1_0000_0000

  /** The format "%08d%c %s %s 0x%08x". */
  function Encode(file: nat, deptype: char, dep: Dep): string {
    Pad(Digits(file, 10), 8) + [deptype] + " " + dep.name + " " + dep.evr + " 0x" + Pad(Digits(dep.flags, 16), 8)
  }

  /** The text up to the next blank. */
  function Word(s: string): (w: string)
    ensures w <= s && ' ' !in w && (|w| < |s| ==> s[|w|] == ' ')
  {
    if s == "" || s[0] == ' ' then "" else [s[0]] + Word(s[1..])
  }

  function Drop(s: string, n: nat): string {
    if n <= |s| then s[n..] else ""
  }

  function Decode(key: string): Decoded {
    var (file, s) := StrToL(key, 10);
    Fields(file, s)
  }

  /** What follows the file number. */
  function Fields(file: int, s: string): Decoded {
    var t := Drop(s, 2);
    var name := Word(t);
    var u := Drop(t, |name| + 1);
    var evr := Word(u);
    Decoded(file, if s == "" then NUL else s[0], Dep(name, evr, StrToL(Drop(u, |evr| + 1), 16).0 % TWO_32))
  }

  /** The end of the word that starts at se. */
  method WordEnd(s: string) returns (se: nat)
    ensures se <= |s| && s[..se] == Word(s)
  {
    se := 0;
    while se < |s| && s[se] != ' '
      invariant 0 <= se <= |s| && ' ' !in s[..se]
    {
      se := se + 1;
    }
    WordIs(s, se);
  }

  lemma {:induction false} WordIs(s: string, n: nat)
    requires n <= |s| && ' ' !in s[..n] && (n < |s| ==> s[n] == ' ')
    ensures Word(s) == s[..n]
  {
    if n > 0 {
      assert s[0] == s[..n][0] && s[1..][..n - 1] == s[..n][1..];
      WordIs(s[1..], n - 1);
    }
  }

  /** The loop body of rpmfcApplyInternal that cuts a key up at its blanks. */
  method ParseKey(key: string) returns (d: Decoded)
    ensures d == Decode(key)
  {
    hide StrToL, Word, Drop;
    var (file, rest) := StrToL(key, 10);
    var deptype := if rest == "" then NUL else rest[0];
    var t := Drop(rest, 2);
    var se := WordEnd(t);
    var u := Drop(t, se + 1);
    var e := WordEnd(u);
    d := Decoded(file, deptype, Dep(t[..se], u[..e], StrToL(Drop(u, e + 1), 16).0 % TWO_32));
  }

  // ----- the round trip

  lemma {:induction false} WordBack(w: string, rest: string)
    requires ' ' !in w
    ensures Word(w + " " + rest) == w && Drop(w + " " + rest, |w| + 1) == rest
  {
    var s := w + " " + rest;
    if w != "" {
      assert s[0] == w[0] && s[1..] == w[1..] + " " + rest;
      WordBack(w[1..], rest);
    }
  }

  /** The file number is read back whatever the name and version look like. */
  lemma FileBack(file: nat, deptype: char, dep: Dep)
    requires file < TWO_31 && DigitValue(deptype) == 16
    ensures Decode(Encode(file, deptype, dep)).file == file
    ensures Decode(Encode(file, deptype, dep)).deptype == deptype
    ensures StrToL(Encode(file, deptype, dep), 10) == (file, Tail(deptype, dep))
  {
    hide StrToL, Pad, Digits, DigitValue, Word, Drop;
    NumberBack(file, 10, Tail(deptype, dep));
    assert Encode(file, deptype, dep) == "" + Pad(Digits(file, 10), 8) + Tail(deptype, dep);
  }

  /** The key without its file number. */
  function Tail(deptype: char, dep: Dep): string {
    [deptype] + " " + (dep.name + " " + (dep.evr + " " + ("0x" + Pad(Digits(dep.flags, 16), 8))))
  }

  lemma FieldsBack(file: int, deptype: char, name: string, evr: string, f: string)
    requires ' ' !in name && ' ' !in evr
    ensures Fields(file, [deptype] + " " + (name + " " + (evr + " " + f))) ==
            Decoded(file, deptype, Dep(name, evr, StrToL(f, 16).0 % TWO_32))
  {
    hide StrToL, Word, Drop;
    var u := evr + " " + f;
    var t := name + " " + u;
    DropTwo(deptype, t);
    WordBack(name, u);
    WordBack(evr, f);
  }

  lemma DropTwo(c: char, t: string)
    ensures Drop([c] + " " + t, 2) == t && ([c] + " " + t)[0] == c
  {
  }

  /**
   The key of a dependency of a file gives back the file number, the type and the dependency if and
   only if neither its name nor its version contains a blank.
  */
  lemma RoundTrip(file: nat, deptype: char, dep: Dep)
    requires file < TWO_31 && DigitValue(deptype) == 16 && dep.flags < TWO_32
    ensures Decode(Encode(file, deptype, dep)) == Decoded(file, deptype, dep) <==> ' ' !in dep.name && ' ' !in dep.evr
  {
    hide Decode, Encode, DigitValue;
    DecodedPlain(Encode(file, deptype, dep));
    if ' ' !in dep.name && ' ' !in dep.evr {
      PlainBack(file, deptype, dep);
    }
  }

  /** A name with a blank is read back as something else. */
  lemma BlankLost()
    ensures var d := Dep("a b", "1", 0); Decode(Encode(0, 'P', d)) != Decoded(0, 'P', d)
  {
    var d := Dep("a b", "1", 0);
    assert d.name[1] == ' ';
    RoundTrip(0, 'P', d);
  }

  lemma DecodedPlain(key: string)
    ensures ' ' !in Decode(key).dep.name && ' ' !in Decode(key).dep.evr
  {
    hide StrToL, Word;
  }

  lemma PlainBack(file: nat, deptype: char, dep: Dep)
    requires file < TWO_31 && DigitValue(deptype) == 16 && dep.flags < TWO_32 && ' ' !in dep.name && ' ' !in dep.evr
    ensures Decode(Encode(file, deptype, dep)) == Decoded(file, deptype, dep)
  {
    hide StrToL, Pad, Digits, Encode, DigitValue, Word, Fields, Drop;
    var f := "0x" + Pad(Digits(dep.flags, 16), 8);
    FileBack(file, deptype, dep);
    FieldsBack(file, deptype, dep.name, dep.evr, f);
    NumberBack(dep.flags, 16, "");
    assert f + "" == f;
  }

  /** Different dependencies without blanks have different keys. */
  lemma KeysDiffer(file: nat, deptype: char, dep: Dep, file': nat, deptype': char, dep': Dep)
    requires file < TWO_31 && DigitValue(deptype) == 16 && dep.flags < TWO_32 && ' ' !in dep.name && ' ' !in dep.evr
    requires file' < TWO_31 && DigitValue(deptype') == 16 && dep'.flags < TWO_32
    requires ' ' !in dep'.name && ' ' !in dep'.evr
    requires Encode(file, deptype, dep) == Encode(file', deptype', dep')
    ensures (file, deptype, dep) == (file', deptype', dep')
  {
    RoundTrip(file, deptype, dep);
    RoundTrip(file', deptype', dep');
  }
}
