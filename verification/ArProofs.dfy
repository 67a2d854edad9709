/** The scan finds the right bytes of an archive laid out as deb(5) says. */
module ArProofs {
  import opened CStrings
  import opened FileSystem
  import opened Numbers
  import opened ArScan

  /** A member: slash tells whether its name ends in a slash in the header, middle holds date, owner and mode. */
  datatype Member = Member(name: string, slash: bool, middle: string, data: string, pad: char)

  ghost predicate ValidMember(m: Member) {
    && 1 <= |m.name| && |NameField(m)| <= NAME && NoNul(m.name) && m.name[|m.name| - 1] !in {' ', '/'}
    && |m.middle| == 32 && |Digits(|m.data|, 10)| <= 10
  }

  function Blanks(n: nat): (s: string)
    ensures |s| == n && forall c | c in s :: c == ' '
  {
    if n == 0 then "" else Blanks(n - 1) + " "
  }

  function NameField(m: Member): string {
    m.name + if m.slash then "/" else ""
  }

  function HeaderOf(m: Member): string
    requires |NameField(m)| <= NAME && |Digits(|m.data|, 10)| <= 10
  {
    NameField(m) + Blanks(NAME - |NameField(m)|) + m.middle +
    Digits(|m.data|, 10) + Blanks(10 - |Digits(|m.data|, 10)|) + ARFMAG
  }

  ghost function Bytes(m: Member): string
    requires ValidMember(m)
  {
    HeaderOf(m) + m.data + if |m.data| % 2 == 1 then [m.pad] else ""
  }

  ghost function AllBytes(ms: seq<Member>): string
    requires forall m | m in ms :: ValidMember(m)
  {
    if ms == [] then "" else Bytes(ms[0]) + AllBytes(ms[1..])
  }

  // ----- a header is read back

  lemma {:induction false} UnblankedBack(s: string, n: nat)
    requires s != "" && s[|s| - 1] != ' '
    ensures Unblanked(s + Blanks(n)) == s
    decreases n
  {
    var t := s + Blanks(n);
    if n > 0 {
      assert t[..|t| - 1] == s + Blanks(n - 1);
      UnblankedBack(s, n - 1);
    } else {
      assert t == s;
    }
  }

  /** The name in the header as a C string: one that fills its field runs on into what follows. */
  function Seen(m: Member): (r: string)
    requires ValidMember(m)
    ensures NoNul(r) && m.name <= r
  {
    if |m.name| < NAME then m.name else m.name + CStr(HeaderOf(m)[NAME..])
  }

  lemma NameBack(m: Member)
    requires ValidMember(m)
    ensures var field := NormalizeName(NameField(m) + Blanks(NAME - |NameField(m)|));
            && |field| == NAME && field[..|m.name|] == m.name && (|m.name| < NAME ==> field[|m.name|] == NUL)
  {
    var field := NameField(m) + Blanks(NAME - |NameField(m)|);
    UnblankedBack(NameField(m), NAME - |NameField(m)|);
    assert Unpadded(field) == m.name;
  }

  lemma {:induction false} ReadBack(n: nat, rest: string)
    requires rest != "" ==> rest[0] == ' '
    ensures MemberSize(Digits(n, 10) + rest) == Some(n)
  {
    DigitsAre(n, 10);
    var s := Digits(n, 10) + rest;
    assert s[0] == Digits(n, 10)[0] && s[0] in Digits(n, 10);
    ReadPrinted(n, 10, rest);
  }

  /** What the scan gets to see of a member's header. */
  lemma HeaderBack(m: Member)
    requires ValidMember(m)
    ensures var h := HeaderOf(m);
            && |h| == HEADER && h[58..] == ARFMAG && MemberSize(h[48..58]) == Some(|m.data|)
            && var g := NormalizeName(h[..NAME]) + h[NAME..];
               |g| == HEADER && g[..NAME] == NormalizeName(h[..NAME]) && CStr(g[..NAME]) == m.name && CStr(g) == Seen(m)
  {
    hide NormalizeName, MemberSize, Digits, Blanks, CStr, HeaderOf, ValidMember;
    HeaderParts(m);
    var n := |Digits(|m.data|, 10)|;
    BlankFirst(10 - n);
    ReadBack(|m.data|, Blanks(10 - n));
    var h := HeaderOf(m);
    NameBack(m);
    SeenBack(m, NormalizeName(h[..NAME]), h[NAME..]);
  }

  lemma HeaderParts(m: Member)
    requires ValidMember(m)
    ensures var h := HeaderOf(m);
            && |h| == HEADER && h[58..] == ARFMAG && h[..NAME] == NameField(m) + Blanks(NAME - |NameField(m)|)
            && h[48..58] == Digits(|m.data|, 10) + Blanks(10 - |Digits(|m.data|, 10)|)
    ensures |NameField(m)| <= NAME && |Digits(|m.data|, 10)| <= 10
  {
    hide Digits, Blanks;
    var field := NameField(m) + Blanks(NAME - |NameField(m)|);
    var size := Digits(|m.data|, 10) + Blanks(10 - |Digits(|m.data|, 10)|);
    assert HeaderOf(m) == field + m.middle + size + ARFMAG;
  }

  /** The normalized name field, and the rest of the header behind it. */
  lemma SeenBack(m: Member, field: string, rest: string)
    requires ValidMember(m) && rest == HeaderOf(m)[NAME..]
    requires |field| == NAME && field[..|m.name|] == m.name && (|m.name| < NAME ==> field[|m.name|] == NUL)
    ensures (field + rest)[..NAME] == field && CStr(field) == m.name && CStr(field + rest) == Seen(m)
  {
    hide HeaderOf, CStr;
    if |m.name| < NAME {
      assert (field + rest)[..|m.name|] == m.name;
      CStrIs(field + rest, m.name);
      CStrIs(field, m.name);
    } else {
      CStrCat(m.name, "");
      CStrCat(m.name, rest);
      assert field == m.name + "" && CStr("") == "";
    }
  }

  lemma {:induction false} CStrCat(a: string, b: string)
    requires NoNul(a)
    ensures CStr(a + b) == a + CStr(b)
  {
    if a == "" {
      assert a + b == b;
    } else {
      assert (a + b)[1..] == a[1..] + b && (a + b)[0] == a[0];
      CStrCat(a[1..], b);
    }
  }

  lemma BlankFirst(n: nat)
    ensures n > 0 ==> Blanks(n)[0] == ' '
  {
    assert n > 0 ==> Blanks(n)[0] in Blanks(n);
  }

  /**
   A size field in general: blanks, a number with or without zeros in front, and then the end or a blank; with
   any other character behind the number, or in its place, the program ends. A blank field is 0.
  */
  lemma SizeIs(k: nat, n: nat, width: nat, rest: string)
    ensures (rest == "" || !('0' <= rest[0] <= '9')) ==>
              MemberSize(Blanks(k) + Pad(Digits(n, 10), width) + rest) ==
              if rest == "" || rest[0] == ' ' then Some(n) else None
    ensures (rest == "" || (!('0' <= rest[0] <= '9') && rest[0] != ' ')) ==>
              MemberSize(Blanks(k) + rest) == if rest == "" then Some(0) else None
  {
    hide ReadDigits, Pad, Digits, Blanks;
    var p := Pad(Digits(n, 10), width);
    DigitsAre(n, 10);
    PadDigits(Digits(n, 10), width, 10);
    assert p[0] in p && DigitValue(p[0]) < 10 && (p + rest)[0] == p[0];
    SkipBlanked(k, p + rest);
    if rest == "" || rest[0] != ' ' {
      SkipBlanked(k, rest);
    }
    assert Blanks(k) + p + rest == Blanks(k) + (p + rest);
    if rest == "" || !('0' <= rest[0] <= '9') {
      ReadPadded(Digits(n, 10), width, 10, rest);
      ReadPrinted(n, 10, rest);
      NoDigits(rest, 10, n);
      NoDigits(rest, 10, 0);
    }
  }

  lemma {:induction false} SkipBlanked(k: nat, s: string)
    requires s == "" || s[0] != ' '
    ensures SkipBlanks(Blanks(k) + s) == s
  {
    if k == 0 {
      assert Blanks(0) + s == s;
    } else {
      BlankLeft(k);
      assert Blanks(k) + s == " " + (Blanks(k - 1) + s);
      SkipBlanked(k - 1, s);
    }
  }

  lemma {:induction false} BlankLeft(k: nat)
    requires k > 0
    ensures Blanks(k) == " " + Blanks(k - 1)
  {
    if k > 1 {
      BlankLeft(k - 1);
    }
  }

  /** Wherever the scan is, a header that is cut off, has no mark at its end or no size ends it without a member. */
  lemma BadHeader(file: string, at: nat, p: Progress, rules: Rules)
    requires
      || at + 60 > |file| || file[at + 58..at + 60] != "`\n" || MemberSize(file[at + 48..at + 58]).None?
    ensures Scanned(file, at, p, rules) == Reject
  {
    hide MemberSize, NormalizeName, KindOf, GoodVersion;
    if at + 60 <= |file| {
      SliceOf(file, at, 60, 58, 60);
      SliceOf(file, at, 60, 48, 58);
    }
  }

  lemma SliceOf(s: string, at: nat, n: nat, i: nat, j: nat)
    requires at + n <= |s| && i <= j <= n
    ensures s[at..at + n][i..j] == s[at + i..at + j]
    ensures j == n ==> s[at..at + n][i..] == s[at + i..at + j]
  {
    var h := s[at..at + n];
    forall k | 0 <= k < j - i ensures h[i..j][k] == s[at + i..at + j][k] {
      assert h[i + k] == s[at + i + k];
    }
  }

  // ----- the role of a member

  datatype Role = Skipped | ControlMember(compressor: Compressor) | DataMember(compressor: Compressor) | Bad

  /** What a member behind the version member is good for, by its name. */
  function RoleOf(name: string, others: set<string>): Role
    requires name != ""
  {
    if name[0] == '_' then Skipped
    else if ADMINMEMBER <= name then
      var c := FindByExtension(others, name[|ADMINMEMBER|..]);
      if c in {NoCompressor, Gzip, Xz} then ControlMember(c) else Bad
    else if DATAMEMBER <= name then
      var c := FindByExtension(others, name[|DATAMEMBER|..]);
      if c == Unknown then Bad else DataMember(c)
    else Bad
  }

  /**
   The names spelled out: which members there are, and what each is decompressed with. A control member has
   one of three names; a data member has those, or any extension that the library knows besides.
  */
  lemma RoleIs(name: string, others: set<string>)
    requires name != ""
    ensures var r := RoleOf(name, others);
            && (r == Skipped <==> name[0] == '_')
            && (r == ControlMember(NoCompressor) <==> name == "control.tar")
            && (r == ControlMember(Gzip) <==> name == "control.tar.gz")
            && (r == ControlMember(Xz) <==> name == "control.tar.xz")
            && (r.ControlMember? <==> name in ["control.tar", "control.tar.gz", "control.tar.xz"])
            && (r == DataMember(NoCompressor) <==> name == "data.tar")
            && (r == DataMember(Gzip) <==> name == "data.tar.gz") && (r == DataMember(Xz) <==> name == "data.tar.xz")
            && (forall ext :: r == DataMember(Compressor.Other(ext)) <==>
                  && ext in others && ext !in ["", ".gz", ".xz"] && name == "data.tar" + ext)
            && r != DataMember(Unknown)
  {
    if ADMINMEMBER <= name {
      assert name == "control.tar" + name[11..];
    } else if DATAMEMBER <= name {
      assert name == "data.tar" + name[8..];
    }
    assert "control.tar.gz"[11..] == ".gz" && "control.tar.xz"[11..] == ".xz";
    assert "data.tar.gz"[8..] == ".gz" && "data.tar.xz"[8..] == ".xz";
    forall ext ensures ("data.tar" + ext)[8..] == ext {
    }
  }

  lemma KindBack(name: string, g: string, others: set<string>)
    requires name != "" && CStr(g) == name && name[0] != '_'
    ensures RoleOf(name, others) == match KindOf(g, others)
                                    case ControlTar(c) =>
                                      if c in {NoCompressor, Gzip, Xz} then ControlMember(c) else Bad
                                    case DataTar(c) => if c == Unknown then Bad else DataMember(c)
                                    case Foreign => Bad
  {
    hide FindByExtension;
    PrefixBack(name, g, ADMINMEMBER);
    PrefixBack(name, g, DATAMEMBER);
  }

  lemma PrefixBack(name: string, g: string, p: string)
    requires NoNul(p) && CStr(g) == name
    ensures p <= g <==> p <= name
    ensures p <= name ==> CStr(g[|p|..]) == name[|p|..]
  {
    if p <= g {
      assert g == p + g[|p|..];
      CStrCat(p, g[|p|..]);
    }
  }

  ghost predicate IsVersion(m: Member, rules: Rules) {
    m.name == DEBMAGIC && var text := CStr(m.data); '\n' in text && rules.major(text) == Some(2)
  }

  // ----- one member

  /** The file holds the bytes s at an offset. */
  ghost predicate HasAt(file: string, at: nat, s: string) {
    at + |s| <= |file| && file[at..at + |s|] == s
  }

  lemma HasParts(file: string, at: nat, a: string, b: string)
    requires HasAt(file, at, a + b)
    ensures HasAt(file, at, a) && HasAt(file, at + |a|, b) && Chunk(file, at, |a|) == a
  {
    var s := file[at..at + |a + b|];
    assert file[at..at + |a|] == s[..|a|] == a;
    assert file[at + |a|..at + |a| + |b|] == s[|a|..] == b;
  }

  /** One round of the scan on a header that is there. */
  lemma ScanHeader(file: string, at: nat, h: string, len: nat, p: Progress, rules: Rules)
    requires |h| == HEADER && Chunk(file, at, HEADER) == h && h[58..] == ARFMAG && MemberSize(h[48..58]) == Some(len)
    ensures var name := NormalizeName(h[..NAME]);
            var next := at + HEADER + Padded(len);
            Scanned(file, at, p, rules) ==
            if p == Before then
              if CStr(name) == DEBMAGIC && GoodVersion(file, at + HEADER, len, rules) then
                Scanned(file, next, Version, rules)
              else Reject
            else if name[0] == '_' then Scanned(file, next, p, rules)
            else match KindOf(name + h[NAME..], rules.others)
              case ControlTar(c) =>
                if c !in {NoCompressor, Gzip, Xz} || (p.Control? && p.length != 0) then Reject
                else if rules.admininfo then Found(at + HEADER, len, c)
                else Scanned(file, next, Control(len), rules)
              case DataTar(c) =>
                if !p.Control? || c == Unknown || rules.admininfo then Reject else Found(at + HEADER, len, c)
              case Foreign => Reject
  {
    hide NormalizeName, MemberSize, KindOf, CStr, GoodVersion, Chunk;
  }

  lemma VersionBack(file: string, at: nat, m: Member, body: string, rules: Rules)
    requires HasAt(file, at, body) && |body| == Padded(|m.data|) && body[..|m.data|] == m.data
    ensures GoodVersion(file, at, |m.data|, rules) <==>
            var text := CStr(m.data); '\n' in text && rules.major(text) == Some(2)
  {
    hide CStr;
    assert body + "" == body;
    HasParts(file, at, body, "");
  }

  /** The scan of a member depends on its name and length, and for the first member on its content. */
  lemma ScanMember(file: string, at: nat, m: Member, p: Progress, rules: Rules)
    requires ValidMember(m) && HasAt(file, at, Bytes(m))
    ensures var next := at + |Bytes(m)|;
            |Bytes(m)| >= HEADER &&
            Scanned(file, at, p, rules) ==
            if p == Before then if IsVersion(m, rules) then Scanned(file, next, Version, rules) else Reject
            else match RoleOf(Seen(m), rules.others)
              case Skipped => Scanned(file, next, p, rules)
              case ControlMember(c) =>
                if p.Control? && p.length != 0 then Reject
                else if rules.admininfo then Found(at + HEADER, |m.data|, c)
                else Scanned(file, next, Control(|m.data|), rules)
              case DataMember(c) => if !p.Control? || rules.admininfo then Reject else Found(at + HEADER, |m.data|, c)
              case Bad => Reject
  {
    hide NormalizeName, MemberSize, KindOf, RoleOf, CStr, Digits, HeaderOf, Scanned, GoodVersion, HasAt, Chunk;
    var h := HeaderOf(m);
    var body := m.data + if |m.data| % 2 == 1 then [m.pad] else "";
    HeaderBack(m);
    assert Bytes(m) == h + body;
    HasParts(file, at, h, body);
    ScanHeader(file, at, h, |m.data|, p, rules);
    VersionBack(file, at + HEADER, m, body, rules);
    var name := NormalizeName(h[..NAME]);
    var g := name + h[NAME..];
    assert name == g[..NAME];
    assert Seen(m)[0] == g[0] == name[0];
    if name[0] != '_' {
      KindBack(Seen(m), g, rules.others);
    }
    NotSkipped(Seen(m), rules.others);
  }

  lemma NotSkipped(name: string, others: set<string>)
    requires name != ""
    ensures RoleOf(name, others) == Skipped <==> name[0] == '_'
  {
  }

  /** A name that fills its field is never taken for that of a control member. */
  lemma FullName(m: Member, others: set<string>)
    requires ValidMember(m) && |m.name| == NAME
    ensures !RoleOf(Seen(m), others).ControlMember?
  {
    var ext := Seen(m)[|ADMINMEMBER|..];
    assert |ext| >= 5;
  }

  // ----- the whole archive

  ghost predicate ValidMembers(ms: seq<Member>) {
    forall m | m in ms :: ValidMember(m)
  }

  /** Where member k of an archive starts. */
  ghost function OffsetOf(ms: seq<Member>, k: nat): nat
    requires ValidMembers(ms) && k <= |ms|
  {
    if k == 0 then 0 else |Bytes(ms[0])| + OffsetOf(ms[1..], k - 1)
  }

  ghost function RoleAt(ms: seq<Member>, i: nat, rules: Rules): Role
    requires ValidMembers(ms) && i < |ms|
  {
    assert ms[i] in ms;
    RoleOf(Seen(ms[i]), rules.others)
  }

  /** Member k is the one to find among ms, behind what has been seen before. */
  ghost predicate Wanted(ms: seq<Member>, k: nat, p: Progress, rules: Rules)
    requires ValidMembers(ms) && p != Before
  {
    && k < |ms|
    && if rules.admininfo then
         && RoleAt(ms, k, rules).ControlMember? && p == Version
         && forall i | 0 <= i < k :: RoleAt(ms, i, rules) == Skipped
       else
         && RoleAt(ms, k, rules).DataMember?
         && (forall i | 0 <= i < k :: RoleAt(ms, i, rules).ControlMember? || RoleAt(ms, i, rules) == Skipped)
         && (p.Control? || exists i :: 0 <= i < k && RoleAt(ms, i, rules).ControlMember?)
         && (p.Control? && p.length != 0 ==> forall i | 0 <= i < k :: RoleAt(ms, i, rules) == Skipped)
         && forall i, j | 0 <= i < j < k && RoleAt(ms, i, rules).ControlMember?
                          && RoleAt(ms, j, rules).ControlMember? :: ms[i].data == ""
  }

  /** The progress behind a member that neither ends the scan nor is rejected. */
  function Advance(role: Role, len: nat, p: Progress, rules: Rules): Option<Progress> {
    match role
    case Skipped => Some(p)
    case ControlMember(_) =>
      if rules.admininfo || (p.Control? && p.length != 0) then None else Some(Control(len))
    case _ => None
  }

  lemma WantedNext(ms: seq<Member>, k: nat, p: Progress, rules: Rules)
    requires ValidMembers(ms) && p != Before && 0 < k < |ms| && (rules.admininfo ==> p == Version)
    ensures ValidMembers(ms[1..])
    ensures Wanted(ms, k, p, rules) <==>
            var a := Advance(RoleAt(ms, 0, rules), |ms[0].data|, p, rules);
            a.Some? && a.value != Before && Wanted(ms[1..], k - 1, a.value, rules)
  {
    hide RoleOf, ValidMember;
    var rest := ms[1..];
    assert forall x | x in rest :: x in ms;
    forall i | 0 <= i < |rest| ensures RoleAt(rest, i, rules) == RoleAt(ms, i + 1, rules) {
    }
    forall i | 0 < i < |ms| ensures RoleAt(ms, i, rules) == RoleAt(rest, i - 1, rules) {
    }
  }

  /** The scan behind the version member: it finds exactly the wanted member, and rejects the rest. */
  lemma {:induction false} ScanRest(file: string, at: nat, ms: seq<Member>, p: Progress, rules: Rules)
    requires ValidMembers(ms) && HasAt(file, at, AllBytes(ms)) && p != Before && (rules.admininfo ==> p == Version)
    ensures forall k | 0 <= k < |ms| && Wanted(ms, k, p, rules) ::
              Scanned(file, at, p, rules) ==
              Found(at + OffsetOf(ms, k) + HEADER, |ms[k].data|, RoleAt(ms, k, rules).compressor)
    ensures at + |AllBytes(ms)| == |file| && Scanned(file, at, p, rules) != Reject ==>
              exists k :: 0 <= k < |ms| && Wanted(ms, k, p, rules)
    decreases |ms|
  {
    hide RoleOf, Scanned, HasAt, ValidMember, Wanted, Bytes;
    if ms == [] {
      NothingLeft(file, at, p, rules);
    } else {
      var m, rest := ms[0], ms[1..];
      var next := at + |Bytes(m)|;
      assert m in ms && forall x | x in rest :: x in ms;
      HasParts(file, at, Bytes(m), AllBytes(rest));
      ScanMember(file, at, m, p, rules);
      WantedFirst(ms, p, rules);
      forall k | 0 < k < |ms| ensures Wanted(ms, k, p, rules) <==>
            var a := Advance(RoleAt(ms, 0, rules), |ms[0].data|, p, rules);
            a.Some? && a.value != Before && Wanted(ms[1..], k - 1, a.value, rules)
      {
        WantedNext(ms, k, p, rules);
      }
      var a := Advance(RoleAt(ms, 0, rules), |m.data|, p, rules);
      if a.Some? {
        ScanRest(file, next, rest, a.value, rules);
        forall k | 0 <= k < |rest| && Wanted(rest, k, a.value, rules) ensures Wanted(ms, k + 1, p, rules) {
        }
      }
    }
  }

  /** When the first member is the wanted one. */
  lemma WantedFirst(ms: seq<Member>, p: Progress, rules: Rules)
    requires ValidMembers(ms) && p != Before && ms != []
    ensures Wanted(ms, 0, p, rules) <==>
            if rules.admininfo then RoleAt(ms, 0, rules).ControlMember? && p == Version
            else RoleAt(ms, 0, rules).DataMember? && p.Control?
  {
    hide RoleOf;
  }

  lemma NothingLeft(file: string, at: nat, p: Progress, rules: Rules)
    ensures at >= |file| ==> Scanned(file, at, p, rules) == Reject
  {
  }

  lemma {:induction false} MemberAt(file: string, at: nat, ms: seq<Member>, k: nat)
    requires ValidMembers(ms) && HasAt(file, at, AllBytes(ms)) && k < |ms|
    ensures ValidMember(ms[k]) && HasAt(file, at + OffsetOf(ms, k), Bytes(ms[k]))
    decreases k
  {
    hide HasAt, ValidMember, Bytes;
    assert ms[0] in ms && forall x | x in ms[1..] :: x in ms;
    HasParts(file, at, Bytes(ms[0]), AllBytes(ms[1..]));
    if k > 0 {
      MemberAt(file, at + |Bytes(ms[0])|, ms[1..], k - 1);
    }
  }

  lemma DataAt(file: string, at: nat, m: Member)
    requires ValidMember(m) && HasAt(file, at, Bytes(m))
    ensures HasAt(file, at + HEADER, m.data)
  {
    hide HasAt, NormalizeName, MemberSize, Digits, HeaderOf;
    HeaderBack(m);
    var pad := if |m.data| % 2 == 1 then [m.pad] else "";
    assert Bytes(m) == HeaderOf(m) + (m.data + pad);
    HasParts(file, at, HeaderOf(m), m.data + pad);
    HasParts(file, at + HEADER, m.data, pad);
  }

  /**
   The scan of an archive made of a version member and the members ms, with anything behind them: it
   stops at the first data byte of the wanted member with its length; without anything behind them it
   is rejected if and only if the version member is not good or no member is the wanted one.
  */
  lemma ScanFinds(version: Member, ms: seq<Member>, tail: string, rules: Rules)
    requires ValidMember(version) && ValidMembers(ms)
    ensures ValidMembers([version] + ms)
    ensures var file := MAGIC + AllBytes([version] + ms) + tail;
            var r := Scanned(file, |MAGIC|, Before, rules);
            && (IsVersion(version, rules) ==> forall k | 0 <= k < |ms| && Wanted(ms, k, Version, rules) ::
                  && r == Found(|MAGIC| + |Bytes(version)| + OffsetOf(ms, k) + HEADER, |ms[k].data|,
                                RoleAt(ms, k, rules).compressor)
                  && HasAt(file, r.offset, ms[k].data))
            && (tail == "" ==>
                  (r == Reject <==>
                   !IsVersion(version, rules) || !exists k :: 0 <= k < |ms| && Wanted(ms, k, Version, rules)))
  {
    hide ValidMember, Bytes, Scanned, HasAt, Wanted, RoleOf, IsVersion;
    var all := [version] + ms;
    assert all[1..] == ms;
    forall m | m in all ensures ValidMember(m) {
    }
    var file := MAGIC + AllBytes(all) + tail;
    var at := |MAGIC| + |Bytes(version)|;
    InFile(AllBytes(all), tail);
    HasParts(file, |MAGIC|, Bytes(version), AllBytes(ms));
    ScanMember(file, |MAGIC|, version, Before, rules);
    ScanRest(file, at, ms, Version, rules);
    forall k | 0 <= k < |ms| ensures ms[k] in ms && HasAt(file, at + OffsetOf(ms, k) + HEADER, ms[k].data) {
      MemberAt(file, at, ms, k);
      DataAt(file, at + OffsetOf(ms, k), ms[k]);
    }
  }

  lemma InFile(all: string, tail: string)
    ensures HasAt(MAGIC + all + tail, |MAGIC|, all)
    ensures Chunk(MAGIC + all + tail, 0, |MAGIC|) == MAGIC
  {
    var file := MAGIC + all + tail;
    assert file[|MAGIC|..|MAGIC| + |all|] == all && file[0..|MAGIC|] == MAGIC;
  }
}
